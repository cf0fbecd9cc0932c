/**
 * The two tables of the goal tracker as values, and the effect of each
 * UPDATE, DELETE and SELECT of app.py on them, stated as functions over the
 * rows. The two INSERTs are appends and need no function of their own.
 *
 * Timestamps are whole minutes on one local clock; SQLite's comparison of
 * datetime strings becomes integer comparison.
 */
module GoalTable {
  import opened Wrappers

  type Time = int

  /** `datetime("now", "localtime", "+2 hours")`: completing a goal sets its deadline this far ahead. */
  const CompletionOffset: int := 120

  /** The values the application ever writes into the `status` column. */
  datatype Status = Pending | Completed | Expired

  /** One row of `goals(id, user_id, goal, status, deadline)`; a NULL deadline is `None`. */
  datatype Goal = Goal(id: nat, userId: nat, text: string, status: Status, deadline: Option<Time>)

  /** One row of `users(id, username, password)`; the password column holds a hash. */
  datatype User = User(id: nat, username: string, passwordHash: string)

  /**
   * Why a request did not change the tables. `register`, `login` and
   * `remove_goal` report these to the user; `InvalidDeadlineFormat` stands for
   * the exception `strptime` raises in `add_goal`, which that route does not catch.
   */
  datatype Error = DuplicateUsername | InvalidCredentials | InvalidDeadlineFormat | NotFoundOrUnauthorized

  // ---------------------------------------------------------------------
  // Table invariants
  // ---------------------------------------------------------------------

  /** Auto-increment ids: rows are in insertion order, ids strictly increase and stay below the counter. */
  ghost predicate GoalIdsBelow(gs: seq<Goal>, next: nat)
  {
    (forall i, j :: 0 <= i < j < |gs| ==> gs[i].id < gs[j].id) &&
    (forall i :: 0 <= i < |gs| ==> gs[i].id < next)
  }

  ghost predicate UserIdsBelow(us: seq<User>, next: nat)
  {
    (forall i, j :: 0 <= i < j < |us| ==> us[i].id < us[j].id) &&
    (forall i :: 0 <= i < |us| ==> us[i].id < next)
  }

  /** The `UNIQUE` constraint on `users.username`. */
  ghost predicate UsernamesDistinct(us: seq<User>)
  {
    forall i, j :: 0 <= i < j < |us| ==> us[i].username != us[j].username
  }

  predicate UsernameTaken(us: seq<User>, name: string)
  {
    exists i :: 0 <= i < |us| && us[i].username == name
  }

  // ---------------------------------------------------------------------
  // SELECT * FROM users WHERE username=?  (fetchone)
  // ---------------------------------------------------------------------

  /** The first user row with the given name, as `fetchone` returns it. */
  function UserNamed(us: seq<User>, name: string): Option<User>
  {
    if us == [] then None
    else if us[0].username == name then Some(us[0])
    else UserNamed(us[1..], name)
  }

  /** The lookup finds a user exactly when the name is taken, and what it finds carries that name. */
  lemma {:induction false} UserNamedFinds(us: seq<User>, name: string)
    ensures UserNamed(us, name).Some? <==> UsernameTaken(us, name)
    ensures UserNamed(us, name).Some? ==>
              UserNamed(us, name).value in us && UserNamed(us, name).value.username == name
  {
    if us != [] && us[0].username != name {
      UserNamedFinds(us[1..], name);
      if UsernameTaken(us, name) {
        var i :| 0 <= i < |us| && us[i].username == name;
        assert us[1..][i - 1].username == name;
      }
      if UsernameTaken(us[1..], name) {
        var i :| 0 <= i < |us[1..]| && us[1..][i].username == name;
        assert us[i + 1].username == name;
      }
    }
  }

  /** With distinct usernames the lookup returns the one and only user of that name. */
  lemma UserNamedUnique(us: seq<User>, name: string, k: nat)
    requires UsernamesDistinct(us)
    requires k < |us| && us[k].username == name
    ensures UserNamed(us, name) == Some(us[k])
  {
    UserNamedFinds(us, name);
    var u := UserNamed(us, name).value;
    var i :| 0 <= i < |us| && us[i] == u;
    assert i == k;
  }

  /** Inserting a new name keeps the `UNIQUE` constraint and the id order. */
  lemma RegisteredKeepsUnique(us: seq<User>, next: nat, name: string, hash: string)
    requires UsernamesDistinct(us) && UserIdsBelow(us, next)
    requires !UsernameTaken(us, name)
    ensures UsernamesDistinct(us + [User(next, name, hash)])
    ensures UserIdsBelow(us + [User(next, name, hash)], next + 1)
  {
  }

  // ---------------------------------------------------------------------
  // UPDATE goals SET status = "expired" WHERE deadline <= now
  // ---------------------------------------------------------------------

  /** `deadline <= now`; a NULL deadline never satisfies the comparison. */
  predicate Due(g: Goal, now: Time)
  {
    g.deadline.Some? && g.deadline.value <= now
  }

  function ExpireIfDue(g: Goal, now: Time): Goal
  {
    if Due(g, now) then g.(status := Expired) else g
  }

  /** The goals table after the expiry sweep at `now`. */
  function Swept(gs: seq<Goal>, now: Time): seq<Goal>
  {
    if gs == [] then [] else [ExpireIfDue(gs[0], now)] + Swept(gs[1..], now)
  }

  /**
   * The sweep has no status filter: every due row becomes expired whatever
   * its status (completed included); every other row is left as it was.
   */
  lemma {:induction false} SweptRows(gs: seq<Goal>, now: Time)
    ensures |Swept(gs, now)| == |gs|
    ensures forall k :: 0 <= k < |gs| ==>
              Swept(gs, now)[k] == if Due(gs[k], now) then gs[k].(status := Expired) else gs[k]
  {
    if gs != [] {
      SweptRows(gs[1..], now);
      forall k | 1 <= k < |gs|
        ensures Swept(gs, now)[k] == Swept(gs[1..], now)[k - 1]
      {
      }
    }
  }

  /** The sweep keeps the id order and bound: it never rewrites an id. */
  lemma SweptKeepsIds(gs: seq<Goal>, next: nat, now: Time)
    requires GoalIdsBelow(gs, next)
    ensures GoalIdsBelow(Swept(gs, now), next)
  {
    SweptRows(gs, now);
  }

  /** A later sweep subsumes an earlier one: only the latest time matters. */
  lemma {:induction false} SweepLaterSubsumes(gs: seq<Goal>, earlier: Time, now: Time)
    requires earlier <= now
    ensures Swept(Swept(gs, earlier), now) == Swept(gs, now)
  {
    if gs != [] {
      assert Swept(gs, earlier)[1..] == Swept(gs[1..], earlier);
      SweepLaterSubsumes(gs[1..], earlier, now);
    }
  }

  /** Sweeping twice at the same time gives the table of sweeping once. */
  lemma {:induction false} SweepIdempotent(gs: seq<Goal>, now: Time)
    ensures Swept(Swept(gs, now), now) == Swept(gs, now)
  {
    SweepLaterSubsumes(gs, now, now);
  }

  // ---------------------------------------------------------------------
  // DELETE FROM goals WHERE id=? AND user_id=?
  // ---------------------------------------------------------------------

  /** The ownership-filtered predicate of every statement that targets one goal. */
  predicate Matches(g: Goal, id: nat, u: nat)
  {
    g.id == id && g.userId == u
  }

  predicate HasMatch(gs: seq<Goal>, id: nat, u: nat)
  {
    exists k :: 0 <= k < |gs| && Matches(gs[k], id, u)
  }

  /** The goals table after deleting the rows that match `(id, u)`. */
  function Deleted(gs: seq<Goal>, id: nat, u: nat): seq<Goal>
  {
    if gs == [] then []
    else (if Matches(gs[0], id, u) then [] else [gs[0]]) + Deleted(gs[1..], id, u)
  }

  /** A row survives the delete exactly when it was there and does not match. */
  lemma {:induction false} DeletedMembers(gs: seq<Goal>, id: nat, u: nat)
    ensures forall g :: g in Deleted(gs, id, u) <==> g in gs && !Matches(g, id, u)
  {
    if gs != [] {
      DeletedMembers(gs[1..], id, u);
      assert gs == [gs[0]] + gs[1..];
    }
  }

  /** Deleting by a key that no row matches changes nothing. */
  lemma {:induction false} DeletedNoMatch(gs: seq<Goal>, id: nat, u: nat)
    requires !HasMatch(gs, id, u)
    ensures Deleted(gs, id, u) == gs
  {
    if gs != [] {
      assert !Matches(gs[0], id, u);
      forall k | 0 <= k < |gs[1..]| ensures !Matches(gs[1..][k], id, u) {
        assert gs[1..][k] == gs[k + 1];
      }
      DeletedNoMatch(gs[1..], id, u);
    }
  }

  /** The rows after the first keep the id order, and all have larger ids than the first. */
  lemma IdsTail(gs: seq<Goal>, next: nat)
    requires GoalIdsBelow(gs, next) && gs != []
    ensures GoalIdsBelow(gs[1..], next)
    ensures forall g :: g in gs[1..] ==> gs[0].id < g.id
  {
    forall g | g in gs[1..] ensures gs[0].id < g.id {
      var j :| 0 <= j < |gs[1..]| && gs[1..][j] == g;
      assert gs[j + 1] == g;
    }
  }

  /** Deleting from a concatenation deletes from each part. */
  lemma {:induction false} DeletedConcat(a: seq<Goal>, b: seq<Goal>, id: nat, u: nat)
    ensures Deleted(a + b, id, u) == Deleted(a, id, u) + Deleted(b, id, u)
  {
    if a == [] {
      assert a + b == b;
    } else {
      var head := if Matches(a[0], id, u) then [] else [a[0]];
      assert (a + b)[0] == a[0] && (a + b)[1..] == a[1..] + b;
      DeletedConcat(a[1..], b, id, u);
      calc {
        Deleted(a + b, id, u);
        head + Deleted(a[1..] + b, id, u);
        head + (Deleted(a[1..], id, u) + Deleted(b, id, u));
        (head + Deleted(a[1..], id, u)) + Deleted(b, id, u);
      }
    }
  }

  /** With unique ids, the delete removes exactly the matching row and keeps the rest in order. */
  lemma DeletedExactlyOne(gs: seq<Goal>, next: nat, id: nat, u: nat, k: nat)
    requires GoalIdsBelow(gs, next)
    requires k < |gs| && Matches(gs[k], id, u)
    ensures Deleted(gs, id, u) == gs[..k] + gs[k + 1..]
  {
    OnlyOneMatch(gs, next, id, u, k);
    assert gs == gs[..k] + ([gs[k]] + gs[k + 1..]);
    DeletedSplit(gs[..k], gs[k], gs[k + 1..], id, u);
  }

  /** With unique ids, no row before or after a matching row matches. */
  lemma OnlyOneMatch(gs: seq<Goal>, next: nat, id: nat, u: nat, k: nat)
    requires GoalIdsBelow(gs, next)
    requires k < |gs| && Matches(gs[k], id, u)
    ensures !HasMatch(gs[..k], id, u) && !HasMatch(gs[k + 1..], id, u)
  {
    var before, after := gs[..k], gs[k + 1..];
    forall j | 0 <= j < |before| ensures !Matches(before[j], id, u) {
      assert before[j] == gs[j];
    }
    forall j | 0 <= j < |after| ensures !Matches(after[j], id, u) {
      assert after[j] == gs[k + 1 + j];
    }
  }

  /** Deleting from a table that starts with `g` decides `g` first. */
  lemma DeletedCons(g: Goal, rest: seq<Goal>, id: nat, u: nat)
    ensures Deleted([g] + rest, id, u) == (if Matches(g, id, u) then [] else [g]) + Deleted(rest, id, u)
  {
    assert ([g] + rest)[1..] == rest;
  }

  /** A delete around a single matching row keeps what lies before and after it. */
  lemma DeletedSplit(before: seq<Goal>, g: Goal, after: seq<Goal>, id: nat, u: nat)
    requires !HasMatch(before, id, u) && Matches(g, id, u) && !HasMatch(after, id, u)
    ensures Deleted(before + ([g] + after), id, u) == before + after
  {
    DeletedCons(g, after, id, u);
    DeletedNoMatch(before, id, u);
    DeletedNoMatch(after, id, u);
    DeletedConcat(before, [g] + after, id, u);
    calc {
      Deleted(before + ([g] + after), id, u);
      Deleted(before, id, u) + Deleted([g] + after, id, u);
      before + Deleted([g] + after, id, u);
      before + Deleted(after, id, u);
      before + after;
    }
  }

  /** Deleting at the end of a scan: the filter of a prefix grows by one step. */
  lemma DeletedAppend(gs: seq<Goal>, g: Goal, id: nat, u: nat)
    ensures Deleted(gs + [g], id, u) == Deleted(gs, id, u) + (if Matches(g, id, u) then [] else [g])
  {
    DeletedConcat(gs, [g], id, u);
    assert [g][1..] == [];
  }

  /** The delete keeps the id order and bound. */
  lemma {:induction false} DeletedKeepsIds(gs: seq<Goal>, next: nat, id: nat, u: nat)
    requires GoalIdsBelow(gs, next)
    ensures GoalIdsBelow(Deleted(gs, id, u), next)
  {
    if gs != [] {
      IdsTail(gs, next);
      DeletedKeepsIds(gs[1..], next, id, u);
      DeletedMembers(gs[1..], id, u);
      if !Matches(gs[0], id, u) {
        PrependKeepsIds(gs[0], Deleted(gs[1..], id, u), next);
      }
    }
  }

  /** A row with a smaller id than every later row keeps the id order when put in front. */
  lemma PrependKeepsIds(g: Goal, rest: seq<Goal>, next: nat)
    requires GoalIdsBelow(rest, next) && g.id < next
    requires forall x :: x in rest ==> g.id < x.id
    ensures GoalIdsBelow([g] + rest, next)
  {
    forall j | 0 <= j < |rest| ensures g.id < rest[j].id {
      assert rest[j] in rest;
    }
  }

  // ---------------------------------------------------------------------
  // UPDATE goals SET ... WHERE id=? AND user_id=?
  // ---------------------------------------------------------------------

  /** The two `update_status` requests that rewrite a row. */
  datatype Change =
    | Complete(at: Time)  // status "completed", deadline moved to `at` + 2 hours
    | Reopen              // status "pending", deadline untouched

  function Applied(c: Change, g: Goal): Goal
  {
    match c
    case Complete(at) => g.(status := Completed, deadline := Some(at + CompletionOffset))
    case Reopen => g.(status := Pending)
  }

  /** The goals table after applying `c` to the rows that match `(id, u)`. */
  function Updated(gs: seq<Goal>, id: nat, u: nat, c: Change): seq<Goal>
  {
    if gs == [] then []
    else [if Matches(gs[0], id, u) then Applied(c, gs[0]) else gs[0]] + Updated(gs[1..], id, u, c)
  }

  /**
   * The update touches only rows of the acting user with the given id:
   * "completed" sets the status and a deadline two hours after `at`,
   * "pending" sets the status alone; id, owner and text never change,
   * and every other row is left as it was.
   */
  lemma {:induction false} UpdatedRows(gs: seq<Goal>, id: nat, u: nat, c: Change)
    ensures |Updated(gs, id, u, c)| == |gs|
    ensures forall k :: 0 <= k < |gs| ==>
              var r := Updated(gs, id, u, c)[k];
              if Matches(gs[k], id, u) then
                r.id == gs[k].id && r.userId == gs[k].userId && r.text == gs[k].text &&
                (c.Complete? ==> r.status == Completed && r.deadline == Some(c.at + CompletionOffset)) &&
                (c.Reopen? ==> r.status == Pending && r.deadline == gs[k].deadline)
              else r == gs[k]
  {
    UpdatedAt(gs, id, u, c);
  }

  /** Row `k` of the updated table is row `k` of the old one, rewritten by `c` when it matches. */
  lemma {:induction false} UpdatedAt(gs: seq<Goal>, id: nat, u: nat, c: Change)
    ensures |Updated(gs, id, u, c)| == |gs|
    ensures forall k :: 0 <= k < |gs| ==>
              Updated(gs, id, u, c)[k] == if Matches(gs[k], id, u) then Applied(c, gs[k]) else gs[k]
  {
    if gs != [] {
      UpdatedAt(gs[1..], id, u, c);
      forall k | 1 <= k < |gs|
        ensures Updated(gs, id, u, c)[k] == Updated(gs[1..], id, u, c)[k - 1]
      {
      }
    }
  }

  /** The update keeps the id order and bound: it never rewrites an id. */
  lemma UpdatedKeepsIds(gs: seq<Goal>, next: nat, id: nat, u: nat, c: Change)
    requires GoalIdsBelow(gs, next)
    ensures GoalIdsBelow(Updated(gs, id, u, c), next)
  {
    UpdatedAt(gs, id, u, c);
  }

  /** An update whose predicate matches no row leaves the table unchanged. */
  lemma {:induction false} UpdatedNoMatch(gs: seq<Goal>, id: nat, u: nat, c: Change)
    requires !HasMatch(gs, id, u)
    ensures Updated(gs, id, u, c) == gs
  {
    UpdatedRows(gs, id, u, c);
  }

  /**
   * A status request on a goal the user does not own (or that does not exist)
   * leaves the goals table exactly as it was, whatever the request.
   */
  lemma {:induction false} ForeignStatusRequestChangesNothing(gs: seq<Goal>, id: nat, u: nat, now: Time)
    requires !HasMatch(gs, id, u)
    ensures Updated(gs, id, u, Complete(now)) == gs
    ensures Updated(gs, id, u, Reopen) == gs
    ensures Deleted(gs, id, u) == gs
  {
    UpdatedNoMatch(gs, id, u, Complete(now));
    UpdatedNoMatch(gs, id, u, Reopen);
    DeletedNoMatch(gs, id, u);
  }

  /**
   * Completing a goal at `at` and sweeping later: the row is expired as soon
   * as two hours have passed, because the sweep does not spare completed goals.
   */
  lemma CompletedGoalExpiresAfterOffset(gs: seq<Goal>, id: nat, u: nat, at: Time, now: Time, k: nat)
    requires k < |gs| && Matches(gs[k], id, u)
    ensures |Swept(Updated(gs, id, u, Complete(at)), now)| == |gs|
    ensures Swept(Updated(gs, id, u, Complete(at)), now)[k].status ==
              if at + CompletionOffset <= now then Expired else Completed
  {
    UpdatedRows(gs, id, u, Complete(at));
    SweptRows(Updated(gs, id, u, Complete(at)), now);
  }

  /** Reopening a goal whose deadline has passed does not last: the next sweep expires it again. */
  lemma ReopenedPastDeadlineExpiresAgain(gs: seq<Goal>, id: nat, u: nat, now: Time, k: nat)
    requires k < |gs| && Matches(gs[k], id, u) && Due(gs[k], now)
    ensures |Swept(Updated(gs, id, u, Reopen), now)| == |gs|
    ensures Swept(Updated(gs, id, u, Reopen), now)[k].status == Expired
  {
    UpdatedRows(gs, id, u, Reopen);
    SweptRows(Updated(gs, id, u, Reopen), now);
  }

  // ---------------------------------------------------------------------
  // SELECT * FROM goals WHERE user_id=?
  // SELECT COUNT(*) FROM goals WHERE user_id=? AND status="completed"
  // ---------------------------------------------------------------------

  /** The goals of user `u`, in table order. */
  function OwnedBy(gs: seq<Goal>, u: nat): seq<Goal>
  {
    if gs == [] then []
    else (if gs[0].userId == u then [gs[0]] else []) + OwnedBy(gs[1..], u)
  }

  /** The listing holds exactly the rows owned by `u`: no other user's goal appears. */
  lemma {:induction false} OwnedByMembers(gs: seq<Goal>, u: nat)
    ensures forall g :: g in OwnedBy(gs, u) <==> g in gs && g.userId == u
  {
    if gs != [] {
      OwnedByMembers(gs[1..], u);
      assert gs == [gs[0]] + gs[1..];
    }
  }

  /** A new row shows up at the end of its owner's listing and in nobody else's. */
  lemma {:induction false} OwnedByAppend(gs: seq<Goal>, g: Goal, u: nat)
    ensures OwnedBy(gs + [g], u) == OwnedBy(gs, u) + (if g.userId == u then [g] else [])
  {
    OwnedByConcat(gs, [g], u);
    assert [g][1..] == [];
  }

  /** Listing after a sweep is the sweep of the listing: the sweep never moves a goal between users. */
  lemma {:induction false} OwnedBySwept(gs: seq<Goal>, u: nat, now: Time)
    ensures OwnedBy(Swept(gs, now), u) == Swept(OwnedBy(gs, u), now)
  {
    if gs != [] {
      assert Swept(gs, now)[1..] == Swept(gs[1..], now);
      OwnedBySwept(gs[1..], u, now);
      if gs[0].userId == u {
        assert OwnedBy(gs, u) == [gs[0]] + OwnedBy(gs[1..], u);
        assert OwnedBy(gs, u)[1..] == OwnedBy(gs[1..], u);
      } else {
        assert OwnedBy(gs, u) == OwnedBy(gs[1..], u);
      }
    }
  }

  /** A listing taken right after the sweep shows every due goal as expired. */
  lemma {:induction false} ListedGoalsAreCurrent(gs: seq<Goal>, u: nat, now: Time)
    ensures forall g :: g in OwnedBy(Swept(gs, now), u) ==>
              g.userId == u && (Due(g, now) ==> g.status == Expired)
  {
    OwnedByMembers(Swept(gs, now), u);
    SweptRows(gs, now);
  }

  /** Deleting as user `u` leaves every other user's listing as it was. */
  lemma {:induction false} DeleteIsolatesOwners(gs: seq<Goal>, id: nat, u: nat, v: nat)
    requires v != u
    ensures OwnedBy(Deleted(gs, id, u), v) == OwnedBy(gs, v)
  {
    if gs != [] {
      DeleteIsolatesOwners(gs[1..], id, u, v);
      var head := if Matches(gs[0], id, u) then [] else [gs[0]];
      assert (head + Deleted(gs[1..], id, u))[..|head|] == head;
      OwnedByConcat(head, Deleted(gs[1..], id, u), v);
    }
  }

  /** Updating as user `u` leaves every other user's listing as it was. */
  lemma {:induction false} UpdateIsolatesOwners(gs: seq<Goal>, id: nat, u: nat, c: Change, v: nat)
    requires v != u
    ensures OwnedBy(Updated(gs, id, u, c), v) == OwnedBy(gs, v)
  {
    if gs != [] {
      assert Updated(gs, id, u, c)[1..] == Updated(gs[1..], id, u, c);
      UpdateIsolatesOwners(gs[1..], id, u, c, v);
    }
  }

  /** The listing of a concatenation is the concatenation of the listings. */
  lemma {:induction false} OwnedByConcat(a: seq<Goal>, b: seq<Goal>, u: nat)
    ensures OwnedBy(a + b, u) == OwnedBy(a, u) + OwnedBy(b, u)
  {
    if a == [] {
      assert a + b == b;
    } else {
      var head := if a[0].userId == u then [a[0]] else [];
      assert (a + b)[0] == a[0] && (a + b)[1..] == a[1..] + b;
      OwnedByConcat(a[1..], b, u);
      calc {
        OwnedBy(a + b, u);
        head + OwnedBy(a[1..] + b, u);
        head + (OwnedBy(a[1..], u) + OwnedBy(b, u));
        (head + OwnedBy(a[1..], u)) + OwnedBy(b, u);
      }
    }
  }

  /** `COUNT(*) ... WHERE user_id=? AND status="completed"`. */
  function CompletedCount(gs: seq<Goal>, u: nat): nat
  {
    if gs == [] then 0
    else (if gs[0].userId == u && gs[0].status == Completed then 1 else 0) + CompletedCount(gs[1..], u)
  }

  /** How many goals of a listing carry status `st`. */
  function CountStatus(gs: seq<Goal>, st: Status): nat
  {
    if gs == [] then 0
    else (if gs[0].status == st then 1 else 0) + CountStatus(gs[1..], st)
  }

  /**
   * The completed count equals the number of completed goals in the user's
   * own listing: other users' goals never contribute, and it never exceeds
   * the number of goals listed.
   */
  lemma {:induction false} CompletedCountOfListing(gs: seq<Goal>, u: nat)
    ensures CompletedCount(gs, u) == CountStatus(OwnedBy(gs, u), Completed)
    ensures CompletedCount(gs, u) <= |OwnedBy(gs, u)|
  {
    if gs != [] {
      CompletedCountOfListing(gs[1..], u);
      if gs[0].userId == u {
        assert OwnedBy(gs, u) == [gs[0]] + OwnedBy(gs[1..], u);
        assert OwnedBy(gs, u)[1..] == OwnedBy(gs[1..], u);
      } else {
        assert OwnedBy(gs, u) == OwnedBy(gs[1..], u);
      }
    }
  }

  /** Right after a sweep at `now`, no goal counted as completed is due. */
  lemma {:induction false} SweptCompletedNotDue(gs: seq<Goal>, now: Time)
    ensures forall k :: 0 <= k < |Swept(gs, now)| ==>
              Swept(gs, now)[k].status == Completed ==> !Due(Swept(gs, now)[k], now)
  {
    SweptRows(gs, now);
  }
}

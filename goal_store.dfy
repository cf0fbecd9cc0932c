/**
 * The shared database of the goal tracker and the route handlers that change
 * it. Each handler is a method that runs the same statements, in the same
 * order, as the corresponding route of app.py; the session's user id, the
 * clock, the password hash and the parsed deadline are passed in.
 */
module GoalStore {
  import opened Wrappers
  import opened GoalTable

  class Store {
    var users: seq<User>
    var nextUserId: nat
    var goals: seq<Goal>
    var nextGoalId: nat

    /** Both tables keep auto-increment ids in insertion order, and usernames are unique. */
    ghost predicate Valid()
      reads this
    {
      GoalIdsBelow(goals, nextGoalId) && UserIdsBelow(users, nextUserId) && UsernamesDistinct(users)
    }

    /** `CREATE TABLE IF NOT EXISTS` on a fresh database: both tables empty, ids start at 1. */
    constructor ()
      ensures Valid()
      ensures users == [] && goals == [] && nextUserId == 1 && nextGoalId == 1
    {
      users, goals := [], [];
      nextUserId, nextGoalId := 1, 1;
    }

    // -------------------------------------------------------------------
    // Single statements
    // -------------------------------------------------------------------

    /** `update_expired_goals`: every goal whose deadline is at or before `now` becomes expired. */
    method SweepExpired(now: Time)
      requires Valid()
      modifies this`goals
      ensures Valid()
      ensures goals == Swept(old(goals), now)
    {
      ghost var before := goals;
      var i := 0;
      while i < |goals|
        invariant 0 <= i <= |goals| == |before|
        invariant forall k :: 0 <= k < |goals| ==>
                    goals[k] == if k < i && Due(before[k], now) then before[k].(status := Expired) else before[k]
      {
        assert goals[i] == before[i];
        if Due(goals[i], now) {
          goals := goals[i := goals[i].(status := Expired)];
        }
        i := i + 1;
      }
      SweptRows(before, now);
      SweptKeepsIds(before, nextGoalId, now);
    }

    /** `SELECT * FROM users WHERE username=?` followed by `fetchone`. */
    method FindUser(name: string) returns (r: Option<User>)
      ensures r == UserNamed(users, name)
    {
      var i := 0;
      while i < |users| && users[i].username != name
        invariant 0 <= i <= |users|
        invariant UserNamed(users[i..], name) == UserNamed(users, name)
      {
        assert users[i..][1..] == users[i + 1..];
        i := i + 1;
      }
      r := if i < |users| then Some(users[i]) else None;
    }

    /** `SELECT * FROM goals WHERE id=? AND user_id=?` followed by `fetchone`: is there such a row? */
    method HasGoal(id: nat, u: nat) returns (found: bool)
      ensures found <==> HasMatch(goals, id, u)
    {
      var i := 0;
      while i < |goals| && !Matches(goals[i], id, u)
        invariant 0 <= i <= |goals|
        invariant forall k :: 0 <= k < i ==> !Matches(goals[k], id, u)
      {
        i := i + 1;
      }
      found := i < |goals|;
    }

    /** `DELETE FROM goals WHERE id=? AND user_id=?`. */
    method DeleteMatching(id: nat, u: nat)
      requires Valid()
      modifies this`goals
      ensures Valid()
      ensures goals == Deleted(old(goals), id, u)
    {
      var kept: seq<Goal> := [];
      var i := 0;
      while i < |goals|
        invariant goals == old(goals)
        invariant 0 <= i <= |goals|
        invariant kept == Deleted(goals[..i], id, u)
      {
        DeletedAppend(goals[..i], goals[i], id, u);
        assert goals[..i + 1] == goals[..i] + [goals[i]];
        if !Matches(goals[i], id, u) {
          kept := kept + [goals[i]];
        }
        i := i + 1;
      }
      assert goals[..i] == goals;
      DeletedKeepsIds(goals, nextGoalId, id, u);
      goals := kept;
    }

    /** `UPDATE goals SET ... WHERE id=? AND user_id=?` for the change `c`. */
    method UpdateMatching(id: nat, u: nat, c: Change)
      requires Valid()
      modifies this`goals
      ensures Valid()
      ensures goals == Updated(old(goals), id, u, c)
    {
      ghost var before := goals;
      var i := 0;
      while i < |goals|
        invariant 0 <= i <= |goals| == |before|
        invariant forall k :: 0 <= k < |goals| ==>
                    goals[k] == if k < i && Matches(before[k], id, u) then Applied(c, before[k]) else before[k]
      {
        if Matches(goals[i], id, u) {
          goals := goals[i := Applied(c, goals[i])];
        }
        i := i + 1;
      }
      UpdatedAt(before, id, u, c);
      UpdatedKeepsIds(before, nextGoalId, id, u, c);
    }

    // -------------------------------------------------------------------
    // Routes
    // -------------------------------------------------------------------

    /**
     * `register`: an existing username is refused and nothing is stored;
     * otherwise exactly one user row is inserted with the next id.
     */
    method Register(name: string, passwordHash: string) returns (r: Result<nat, Error>)
      requires Valid()
      modifies this`users, this`nextUserId
      ensures Valid()
      ensures UsernameTaken(old(users), name) ==>
                r == Err(DuplicateUsername) && users == old(users) && nextUserId == old(nextUserId)
      ensures !UsernameTaken(old(users), name) ==>
                r == Ok(old(nextUserId)) && nextUserId == old(nextUserId) + 1 &&
                users == old(users) + [User(old(nextUserId), name, passwordHash)]
    {
      var existing := FindUser(name);
      UserNamedFinds(users, name);
      if existing.Some? {
        r := Err(DuplicateUsername);
      } else {
        RegisteredKeepsUnique(users, nextUserId, name, passwordHash);
        users := users + [User(nextUserId, name, passwordHash)];
        r := Ok(nextUserId);
        nextUserId := nextUserId + 1;
      }
    }

    /**
     * `login`: the user row of that name is looked up and its hash checked
     * with `verify`; a successful login runs the expiry sweep.
     */
    method Login(name: string, password: string, verify: (string, string) -> bool, now: Time)
      returns (r: Result<nat, Error>)
      requires Valid()
      modifies this`goals
      ensures Valid()
      ensures var found := UserNamed(users, name);
              if found.Some? && verify(password, found.value.passwordHash) then
                r == Ok(found.value.id) && goals == Swept(old(goals), now)
              else
                r == Err(InvalidCredentials) && goals == old(goals)
    {
      var user := FindUser(name);
      if user.Some? && verify(password, user.value.passwordHash) {
        SweepExpired(now);
        r := Ok(user.value.id);
      } else {
        r := Err(InvalidCredentials);
      }
    }

    /**
     * `goals`: the sweep runs first; then the user's goals and the number of
     * them that are completed are read from the swept table.
     */
    method ListGoals(u: nat, now: Time) returns (listed: seq<Goal>, completed: nat)
      requires Valid()
      modifies this`goals
      ensures Valid()
      ensures goals == Swept(old(goals), now)
      ensures listed == OwnedBy(goals, u)
      ensures completed == CompletedCount(goals, u)
    {
      SweepExpired(now);
      listed := OwnedBy(goals, u);
      completed := CompletedCount(goals, u);
    }

    /**
     * `add_goal`: `parsed` is the result of `strptime` on the submitted date
     * and time (`None` when it raises, in which case nothing is inserted);
     * otherwise one pending goal is appended with a fresh id.
     */
    method AddGoal(u: nat, text: string, parsed: Option<Time>) returns (r: Result<nat, Error>)
      requires Valid()
      modifies this`goals, this`nextGoalId
      ensures Valid()
      ensures parsed.None? ==>
                r == Err(InvalidDeadlineFormat) && goals == old(goals) && nextGoalId == old(nextGoalId)
      ensures parsed.Some? ==>
                r == Ok(old(nextGoalId)) && nextGoalId == old(nextGoalId) + 1 &&
                goals == old(goals) + [Goal(old(nextGoalId), u, text, Pending, parsed)]
      ensures r.Ok? ==> forall k :: 0 <= k < |old(goals)| ==> old(goals)[k].id < r.value
    {
      if parsed.None? {
        r := Err(InvalidDeadlineFormat);
        return;
      }
      goals := goals + [Goal(nextGoalId, u, text, Pending, parsed)];
      r := Ok(nextGoalId);
      nextGoalId := nextGoalId + 1;
    }

    /**
     * `remove_goal`: without a row of that id owned by `u` the request fails
     * and the table is unchanged; otherwise exactly that row is deleted.
     */
    method RemoveGoal(id: nat, u: nat) returns (r: Result<(), Error>)
      requires Valid()
      modifies this`goals
      ensures Valid()
      ensures !HasMatch(old(goals), id, u) ==> r == Err(NotFoundOrUnauthorized) && goals == old(goals)
      ensures HasMatch(old(goals), id, u) ==> r == Ok(())
      ensures forall k :: 0 <= k < |old(goals)| && Matches(old(goals)[k], id, u) ==>
                goals == old(goals)[..k] + old(goals)[k + 1..]
    {
      var found := HasGoal(id, u);
      if !found {
        r := Err(NotFoundOrUnauthorized);
        return;
      }
      ghost var before := goals;
      DeleteMatching(id, u);
      forall k | 0 <= k < |before| && Matches(before[k], id, u)
        ensures goals == before[..k] + before[k + 1..]
      {
        DeletedExactlyOne(before, nextGoalId, id, u, k);
      }
      r := Ok(());
    }

    /**
     * `update_status`: "completed" sets the status and moves the deadline to
     * two hours after `now`, "removed" deletes the row, "pending" sets the
     * status only; each only on the row of that id owned by `u`. Any other
     * status string does nothing, and no outcome is reported either way.
     */
    method UpdateStatus(id: nat, u: nat, status: string, now: Time)
      requires Valid()
      modifies this`goals
      ensures Valid()
      ensures status == "completed" ==> goals == Updated(old(goals), id, u, Complete(now))
      ensures status == "removed" ==> goals == Deleted(old(goals), id, u)
      ensures status == "pending" ==> goals == Updated(old(goals), id, u, Reopen)
      ensures status != "completed" && status != "removed" && status != "pending" ==> goals == old(goals)
    {
      if status == "completed" {
        UpdateMatching(id, u, Complete(now));
      } else if status == "removed" {
        DeleteMatching(id, u);
      } else if status == "pending" {
        UpdateMatching(id, u, Reopen);
      }
    }
  }
}

/**
 * An in-memory stand-in for the Spring Data `UserRepository`: a table from
 * id to `User` and the next id the store will assign. Listings come back in
 * ascending id order.
 */
module Persistence {
  import opened Wrappers
  import opened UserModel

  /** The two listing queries the service issues. */
  datatype Query = Everything | ActiveIs(flag: bool)

  predicate Matches(q: Query, u: User) {
    match q
    case Everything => true
    case ActiveIs(flag) => u.active == Some(flag)
  }

  /** The ids below `n` whose records match `q`, in ascending order. */
  function IdsBelow(m: map<nat, User>, n: nat, q: Query): seq<nat>
  {
    if n == 0 then []
    else IdsBelow(m, n - 1, q) + (if n - 1 in m && Matches(q, m[n - 1]) then [n - 1] else [])
  }

  ghost function KeysBelow(m: map<nat, User>, n: nat, q: Query): set<nat> {
    set id | id in m && id < n && Matches(q, m[id])
  }

  /** Every listed id is a key below `n` whose record matches `q`. */
  lemma {:induction false} IdsBelowSound(m: map<nat, User>, n: nat, q: Query, k: nat)
    requires k < |IdsBelow(m, n, q)|
    ensures IdsBelow(m, n, q)[k] in m && IdsBelow(m, n, q)[k] < n && Matches(q, m[IdsBelow(m, n, q)[k]])
  {
    var prev := IdsBelow(m, n - 1, q);
    if k < |prev| {
      IdsBelowSound(m, n - 1, q, k);
    }
  }

  /** Every key below `n` whose record matches `q` is listed. */
  lemma {:induction false} IdsBelowComplete(m: map<nat, User>, n: nat, q: Query, id: nat)
    requires id in m && id < n && Matches(q, m[id])
    ensures id in IdsBelow(m, n, q)
  {
    if id < n - 1 {
      IdsBelowComplete(m, n - 1, q, id);
    }
  }

  /** The listing is strictly ascending, so no id is listed twice. */
  lemma {:induction false} IdsBelowAscending(m: map<nat, User>, n: nat, q: Query, j: nat, k: nat)
    requires j < k < |IdsBelow(m, n, q)|
    ensures IdsBelow(m, n, q)[j] < IdsBelow(m, n, q)[k]
  {
    var prev := IdsBelow(m, n - 1, q);
    if k < |prev| {
      IdsBelowAscending(m, n - 1, q, j, k);
    } else {
      IdsBelowSound(m, n - 1, q, j);
    }
  }

  /** The listing is exactly as long as the set of matching keys below `n`. */
  lemma {:induction false} IdsBelowCount(m: map<nat, User>, n: nat, q: Query)
    ensures |IdsBelow(m, n, q)| == |KeysBelow(m, n, q)|
  {
    if n == 0 {
      assert KeysBelow(m, 0, q) == {};
    } else {
      IdsBelowCount(m, n - 1, q);
      var prev := KeysBelow(m, n - 1, q);
      if n - 1 in m && Matches(q, m[n - 1]) {
        assert KeysBelow(m, n, q) == prev + {n - 1};
      } else {
        assert KeysBelow(m, n, q) == prev;
      }
    }
  }

  /** An email is taken exactly when a complete, sound listing of the table shows it. */
  lemma EmailListed(m: map<nat, User>, all: seq<User>, email: string)
    requires forall k :: 0 <= k < |all| ==> all[k].id.Some? && all[k].id.value in m && m[all[k].id.value] == all[k]
    requires forall id :: id in m ==> exists k :: 0 <= k < |all| && all[k].id == Some(id)
    ensures EmailTaken(m, email) <==> exists k :: 0 <= k < |all| && all[k].email == email
  {
    if EmailTaken(m, email) {
      var id :| id in m && m[id].email == email;
      var k :| 0 <= k < |all| && all[k].id == Some(id);
      assert all[k] == m[id];
    }
  }

  class UserRepository {
    var users: map<nat, User>
    var nextId: nat

    /** Every record sits under its own id, and every id is below `nextId`. */
    ghost predicate Valid()
      reads this
    {
      forall id :: id in users ==> id < nextId && users[id].id == Some(id)
    }

    constructor ()
      ensures Valid() && users == map[] && nextId == 0
    {
      users := map[];
      nextId := 0;
    }

    /** Some stored record holds `email`; equivalently, some listed record does. */
    function ExistsByEmail(email: string): (b: bool)
      reads this
      requires Valid()
      ensures b <==> exists id :: id in users && users[id].email == email
      ensures b <==> exists k :: 0 <= k < |FindAll()| && FindAll()[k].email == email
    {
      EmailListed(users, FindAll(), email);
      EmailTaken(users, email)
    }

    /** `id` is stored exactly when looking it up finds a record. */
    function ExistsById(id: nat): (b: bool)
      reads this
      requires Valid()
      ensures b <==> FindById(id).Some?
      ensures b ==> users[id].id == Some(id)
    {
      id in users
    }

    function FindById(id: nat): (r: Option<User>)
      reads this
      requires Valid()
      ensures r.Some? <==> id in users
      ensures r.Some? ==> r.value == users[id] && r.value.id == Some(id)
    {
      if id in users then Some(users[id]) else None
    }

    /** The stored records matching `q`, in ascending id order. */
    function Select(q: Query): (r: seq<User>)
      reads this
      requires Valid()
      ensures forall k :: 0 <= k < |r| ==>
        r[k].id.Some? && r[k].id.value in users && users[r[k].id.value] == r[k] && Matches(q, r[k])
      ensures forall id :: id in users && Matches(q, users[id]) ==> exists k :: 0 <= k < |r| && r[k].id == Some(id)
      ensures forall j, k :: 0 <= j < k < |r| ==> r[j].id.Some? && r[k].id.Some? && r[j].id.value < r[k].id.value
      ensures |r| == |KeysBelow(users, nextId, q)|
    {
      var m := users;
      var ids := IdsBelow(m, nextId, q);
      assert forall k :: 0 <= k < |ids| ==> ids[k] in m by {
        forall k | 0 <= k < |ids| ensures ids[k] in m {
          IdsBelowSound(m, nextId, q, k);
        }
      }
      var r := seq(|ids|, k requires 0 <= k < |ids| => m[ids[k]]);
      forall k | 0 <= k < |r|
        ensures r[k].id.Some? && r[k].id.value in m && m[r[k].id.value] == r[k] && Matches(q, r[k])
      {
        IdsBelowSound(m, nextId, q, k);
      }
      forall id | id in m && Matches(q, m[id])
        ensures exists k :: 0 <= k < |r| && r[k].id == Some(id)
      {
        IdsBelowComplete(m, nextId, q, id);
        var k := IndexOf(ids, id);
        assert r[k].id == Some(id);
      }
      forall j, k | 0 <= j < k < |r|
        ensures r[j].id.Some? && r[k].id.Some? && r[j].id.value < r[k].id.value
      {
        IdsBelowSound(m, nextId, q, j);
        IdsBelowSound(m, nextId, q, k);
        IdsBelowAscending(m, nextId, q, j, k);
      }
      IdsBelowCount(m, nextId, q);
      r
    }

    /** Every stored record, each exactly once, in ascending id order. */
    function FindAll(): (r: seq<User>)
      reads this
      requires Valid()
      ensures |r| == |users|
      ensures forall k :: 0 <= k < |r| ==> r[k].id.Some? && r[k].id.value in users && users[r[k].id.value] == r[k]
      ensures forall id :: id in users ==> exists k :: 0 <= k < |r| && r[k].id == Some(id)
      ensures forall j, k :: 0 <= j < k < |r| ==> r[j].id.Some? && r[k].id.Some? && r[j].id.value < r[k].id.value
    {
      assert KeysBelow(users, nextId, Everything) == users.Keys;
      Select(Everything)
    }

    /** Exactly the stored records whose active flag is `flag`, in ascending id order. */
    function FindByActive(flag: bool): (r: seq<User>)
      reads this
      requires Valid()
      ensures forall k :: 0 <= k < |r| ==>
        r[k].id.Some? && r[k].id.value in users && users[r[k].id.value] == r[k] && r[k].active == Some(flag)
      ensures forall id :: id in users && users[id].active == Some(flag) ==> exists k :: 0 <= k < |r| && r[k].id == Some(id)
      ensures forall j, k :: 0 <= j < k < |r| ==> r[j].id.Some? && r[k].id.Some? && r[j].id.value < r[k].id.value
    {
      Select(ActiveIs(flag))
    }

    /**
     * Inserts an entity without an id under a fresh id, or overwrites the
     * record under the entity's id; returns the stored form.
     */
    method Save(u: User) returns (saved: User)
      requires Valid()
      modifies this
      ensures Valid()
      ensures u.id.None? ==>
        && old(nextId) !in old(users)
        && saved == u.(id := Some(old(nextId)))
        && users == old(users)[old(nextId) := saved]
        && nextId == old(nextId) + 1
      ensures u.id.Some? ==>
        && saved == u
        && users == old(users)[u.id.value := u]
        && nextId == (if u.id.value < old(nextId) then old(nextId) else u.id.value + 1)
    {
      if u.id.None? {
        saved := u.(id := Some(nextId));
        users := users[nextId := saved];
        nextId := nextId + 1;
      } else {
        saved := u;
        users := users[u.id.value := u];
        if nextId <= u.id.value {
          nextId := u.id.value + 1;
        }
      }
    }

    /** Removes the record under `id`, if any. Ids are never reused. */
    method DeleteById(id: nat)
      requires Valid()
      modifies this
      ensures Valid()
      ensures users == old(users) - {id} && nextId == old(nextId)
    {
      users := users - {id};
    }
  }

  /** The position of `x` in `s`. */
  function IndexOf(s: seq<nat>, x: nat): (k: nat)
    requires x in s
    ensures k < |s| && s[k] == x
  {
    if s[0] == x then 0 else 1 + IndexOf(s[1..], x)
  }
}

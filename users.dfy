/**
 * The user record of the service and the pure list functions that the
 * controller's Add, Update and Delete actions are built from: the LINQ
 * queries `Max(u => u.Id)` and `FirstOrDefault(u => u.Id == id)`, and the
 * C# `int` arithmetic of the id assignment.
 */
module Users {
  import opened Wrappers

  /** A C# `int`. */
  type Int32 = x: int | -0x8000_0000 <= x < 0x8000_0000

  const MinInt32: Int32 := -0x8000_0000
  const MaxInt32: Int32 := 0x7fff_ffff

  /** A registered user: an id assigned by the service, a name, a city and a position in degrees. */
  datatype User = User(id: Int32, name: string, city: string, lat: real, lon: real)

  /** No two users in the list share an id. */
  predicate IdsUnique(users: seq<User>)
  {
    forall i, j :: 0 <= i < j < |users| ==> users[i].id != users[j].id
  }

  /** Some user in the list has the given id. */
  predicate HasId(users: seq<User>, id: Int32)
  {
    exists i :: 0 <= i < |users| && users[i].id == id
  }

  /** `Users.Max(u => u.Id)` on a non-empty list: the largest id, which some user carries. */
  function MaxId(users: seq<User>): (m: Int32)
    requires |users| > 0
    ensures forall i :: 0 <= i < |users| ==> users[i].id <= m
    ensures HasId(users, m)
  {
    if |users| == 1 then users[0].id
    else
      var rest := MaxId(users[1..]);
      assert forall i :: 1 <= i < |users| ==> users[i] == users[1..][i - 1];
      if users[0].id > rest then users[0].id else rest
  }

  /**
   * `x + 1` on a C# `int` in an unchecked context: the exact sum with its high-order
   * bits dropped, read back as a two's-complement 32-bit value. So `int.MaxValue + 1`
   * wraps to `int.MinValue`.
   */
  function Increment(x: Int32): (r: Int32)
    ensures x < MaxInt32 ==> r == x + 1
    ensures x == MaxInt32 ==> r == MinInt32
  {
    (x + 1 + 0x8000_0000) % 0x1_0000_0000 - 0x8000_0000
  }

  /** The largest possible id is already taken, so `Max + 1` wraps around. */
  predicate IdsExhausted(users: seq<User>)
  {
    |users| > 0 && MaxId(users) == MaxInt32
  }

  /**
   * The id that Add gives a new user: `Users.Count > 0 ? Users.Max(u => u.Id) + 1 : 1`.
   * Unless the ids are exhausted it is the least value above every existing id (1 for
   * an empty list); once they are exhausted it is `int.MinValue`.
   */
  function NextId(users: seq<User>): (r: Int32)
    ensures |users| == 0 ==> r == 1
    ensures !IdsExhausted(users) ==> forall i :: 0 <= i < |users| ==> users[i].id < r
    ensures !IdsExhausted(users) && |users| > 0 ==> HasId(users, r - 1)
    ensures IdsExhausted(users) ==> r == MinInt32
  {
    if |users| > 0 then Increment(MaxId(users)) else 1
  }

  /**
   * `Users.FirstOrDefault(u => u.Id == id)`, as a position: the first user with
   * that id, or None when no user has it.
   */
  function FirstIndexOfId(users: seq<User>, id: Int32): (r: Option<nat>)
    ensures r.Some? ==> r.value < |users| && users[r.value].id == id
    ensures r.Some? ==> forall j :: 0 <= j < r.value ==> users[j].id != id
    ensures r.None? <==> !HasId(users, id)
  {
    if |users| == 0 then None
    else if users[0].id == id then Some(0)
    else
      assert forall i :: 1 <= i < |users| ==> users[i] == users[1..][i - 1];
      match FirstIndexOfId(users[1..], id)
      case None => None
      case Some(k) => Some(k + 1)
  }

  /**
   * The stored user after Update copies Name, City, Lat and Lon from `updated`:
   * the submitted record, but with the stored user's id.
   */
  function ApplyUpdate(stored: User, updated: User): (r: User)
    ensures r == updated.(id := stored.id)
  {
    stored.(name := updated.name, city := updated.city, lat := updated.lat, lon := updated.lon)
  }

  /** Appending a user with the id NextId keeps ids unique, unless the ids are exhausted. */
  lemma AddKeepsIdsUnique(users: seq<User>, user: User)
    requires IdsUnique(users)
    requires !IdsExhausted(users)
    ensures IdsUnique(users + [user.(id := NextId(users))])
    ensures !HasId(users, NextId(users))
  {
  }

  /** Updating the user at position k leaves every id, and so their uniqueness, unchanged. */
  lemma UpdateKeepsIds(users: seq<User>, k: nat, updated: User)
    requires k < |users|
    ensures var after := users[k := ApplyUpdate(users[k], updated)];
      |after| == |users| && forall i :: 0 <= i < |users| ==> after[i].id == users[i].id
    ensures IdsUnique(users) ==> IdsUnique(users[k := ApplyUpdate(users[k], updated)])
  {
  }

  /**
   * Removing the first user with the id leaves a list one shorter, in the same order,
   * holding the same users less that one; with unique ids the id is then gone.
   */
  lemma {:induction false} RemoveFirstId(users: seq<User>, id: Int32, k: nat)
    requires FirstIndexOfId(users, id) == Some(k)
    ensures var after := users[..k] + users[k + 1..];
      |after| == |users| - 1 && multiset(after) + multiset{users[k]} == multiset(users)
    ensures IdsUnique(users) ==> IdsUnique(users[..k] + users[k + 1..])
    ensures IdsUnique(users) ==> !HasId(users[..k] + users[k + 1..], id)
  {
    var after := users[..k] + users[k + 1..];
    assert users == users[..k] + [users[k]] + users[k + 1..];
    forall i | 0 <= i < |after|
      ensures after[i] == users[if i < k then i else i + 1]
    {
    }
  }

  /**
   * The id wrap-around of Add: once some user holds `int.MaxValue`, the next Add gives
   * `int.MinValue`, and the Add after that gives `int.MinValue` again.
   */
  lemma WrappedIdRepeats(users: seq<User>, v: User, w: User)
    requires HasId(users, MaxInt32)
    ensures var s2 := users + [v.(id := NextId(users))];
      var s3 := s2 + [w.(id := NextId(s2))];
      && s3[|users|].id == MinInt32 && s3[|users| + 1].id == MinInt32
      && !IdsUnique(s3)
  {
    var i :| 0 <= i < |users| && users[i].id == MaxInt32;
    assert MaxId(users) == MaxInt32;
    var s2 := users + [v.(id := NextId(users))];
    assert s2[i].id == MaxInt32;
    assert MaxId(s2) == MaxInt32;
    var s3 := s2 + [w.(id := NextId(s2))];
    assert s3[|users|].id == s3[|users| + 1].id;
  }
}

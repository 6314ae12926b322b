/**
 * The controller's static user list and its actions. The list is the field
 * `users` of a UserStore, and each action is a method that reassigns it;
 * the HTTP result of an action is an Outcome.
 */
module UsersController {
  import opened Wrappers
  import opened Users
  import opened Nearest

  /** `Ok(user)`, `NotFound()` or `NoContent()`; Overflow is returned only by AddChecked. */
  datatype Outcome = Ok(user: User) | NotFound | NoContent | Overflow

  class UserStore {
    /** `Users`, in list order. */
    var users: seq<User>

    /** The service starts with no users. */
    constructor ()
      ensures users == []
    {
      users := [];
    }

    /**
     * POST: the user gets the id NextId (1 for an empty list, else the largest id
     * plus one with C# `int` wrap-around) and is appended at the end.
     */
    method Add(user: User) returns (r: Outcome)
      modifies this
      ensures r.Ok? && r.user == user.(id := NextId(old(users)))
      ensures users == old(users) + [r.user]
      ensures !IdsExhausted(old(users)) ==> forall i :: 0 <= i < |old(users)| ==> old(users)[i].id < r.user.id
      ensures IdsUnique(old(users)) && !IdsExhausted(old(users)) ==> IdsUnique(users)
    {
      var added := user.(id := NextId(users));
      if IdsUnique(users) && !IdsExhausted(users) {
        AddKeepsIdsUnique(users, user);
      }
      users := users + [added];
      r := Ok(added);
    }

    /**
     * Add with checked arithmetic: when the largest id is `int.MaxValue` there is no
     * fresh id above it, so the list is left alone and Overflow is returned.
     */
    method AddChecked(user: User) returns (r: Outcome)
      modifies this
      ensures IdsExhausted(old(users)) ==> r == Overflow && users == old(users)
      ensures !IdsExhausted(old(users)) ==> r.Ok? && r.user == user.(id := NextId(old(users)))
                                            && users == old(users) + [r.user]
      ensures r.Ok? ==> forall i :: 0 <= i < |old(users)| ==> old(users)[i].id < r.user.id
      ensures IdsUnique(old(users)) ==> IdsUnique(users)
    {
      if IdsExhausted(users) {
        r := Overflow;
      } else {
        var added := user.(id := NextId(users));
        if IdsUnique(users) {
          AddKeepsIdsUnique(users, user);
        }
        users := users + [added];
        r := Ok(added);
      }
    }

    /**
     * PUT {id}: the first user with the id takes Name, City, Lat and Lon from
     * `updated` and keeps its id; no user with the id gives NotFound.
     */
    method Update(id: Int32, updated: User) returns (r: Outcome)
      modifies this
      ensures !HasId(old(users), id) ==> r == NotFound && users == old(users)
      ensures HasId(old(users), id) ==>
        var k := FirstIndexOfId(old(users), id).value;
        && users == old(users)[k := updated.(id := id)]
        && r == Ok(users[k])
      ensures |users| == |old(users)|
      ensures forall i :: 0 <= i < |users| ==> users[i].id == old(users)[i].id
      ensures IdsUnique(old(users)) ==> IdsUnique(users)
    {
      match FirstIndexOfId(users, id)
      case None =>
        r := NotFound;
      case Some(k) =>
        UpdateKeepsIds(users, k, updated);
        users := users[k := ApplyUpdate(users[k], updated)];
        r := Ok(users[k]);
    }

    /**
     * DELETE {id}: the first user with the id is removed and NoContent returned;
     * no user with the id gives NotFound.
     */
    method Delete(id: Int32) returns (r: Outcome)
      modifies this
      ensures !HasId(old(users), id) ==> r == NotFound && users == old(users)
      ensures HasId(old(users), id) ==>
        var k := FirstIndexOfId(old(users), id).value;
        && r == NoContent
        && users == old(users)[..k] + old(users)[k + 1..]
        && |users| == |old(users)| - 1
        && multiset(users) + multiset{old(users)[k]} == multiset(old(users))
      ensures IdsUnique(old(users)) ==> IdsUnique(users) && !HasId(users, id)
    {
      match FirstIndexOfId(users, id)
      case None =>
        r := NotFound;
      case Some(k) =>
        RemoveFirstId(users, id, k);
        users := users[..k] + users[k + 1..];
        r := NoContent;
    }

    /**
     * GET api/users: one row per user, in list order, with the user's fields and the
     * first hotel of least distance among the fixed hotels.
     */
    function GetAllNearest(distance: DistanceFn): (rows: seq<NearestUser>)
      reads this
      ensures |rows| == |users|
      ensures forall i :: 0 <= i < |users| ==> IsNearestReport(users[i], Hotels, distance, rows[i])
    {
      NearestForAll(users, Hotels, distance).value
    }
  }
}

# NearestUser — a Dafny model of the users controller

NearestUser is a small HTTP service. It keeps an in-memory list of users, each with a
name, a city and a latitude/longitude, and a fixed list of four hotels. For every user it
reports the nearest hotel by great-circle distance. All of its logic lives in one
ASP.NET controller, `UsersController`. This project models that controller's logic.

- `Users` (users.dfy): the `User` record, with C# `int` ids as the subset type `Int32`.
  Also the list queries the actions use: `Max(u => u.Id)`, the `+ 1` on an unchecked
  `int`, and `FirstOrDefault(u => u.Id == id)`. Lemmas say what each change to the list
  does to the ids.
- `Nearest` (nearest.dfy): the hotel list and the per-user selection
  `Hotels.Select(...).OrderBy(h => h.Distance).First()`. The distance is a
  function-valued parameter `DistanceFn`, so the selection rule is proved for every
  distance function. `SelectNearest` is the first candidate of least distance. The lemma
  `OrderByFirstIsSelectNearest` shows that this is exactly the head of any stable sort
  by distance, which is what LINQ's `OrderBy` is documented to be.
- `UsersController` (controller.dfy): the class `UserStore`. Its field `users` is the
  static `Users` list. Each action is a method that reassigns the field and returns an
  `Outcome` (`Ok(user)`, `NotFound`, `NoContent`). `GetAllNearest` is a function that
  reads the store.
- `Wrappers` (wrappers.dfy): `Option` and `Result`.

`First()` on an empty sequence throws. This is modelled as the error `EmptySequence`.
The LINQ query is lazy, so the exception is raised only if at least one user is
enumerated against an empty hotel list. `NearestForAll` fails in exactly that case. The
controller's own hotel list has four entries, so `GetAllNearest` never fails.

## Model

| member | source | states |
|---|---|---|
| `Users.MaxId` | NearestApi/NearestAPI/NearestAPI/UsersController.cs:67 | `Users.Max(u => u.Id)` on a non-empty list is an upper bound of every id and is itself the id of some user |
| `Users.Increment` | NearestApi/NearestAPI/NearestAPI/UsersController.cs:67 | `+ 1` on a C# `int`, defined as the sum truncated to 32 bits: it is proved to add one below `int.MaxValue` and to wrap `int.MaxValue` to `int.MinValue` |
| `Users.NextId` | NearestApi/NearestAPI/NearestAPI/UsersController.cs:67 | the new id is 1 for an empty list; unless the largest id is `int.MaxValue`, it is above every existing id and one more than an existing id; otherwise it is `int.MinValue` |
| `Users.FirstIndexOfId` | NearestApi/NearestAPI/NearestAPI/UsersController.cs:75 | `FirstOrDefault(u => u.Id == id)` finds a position holding the id with no earlier position holding it, and finds nothing exactly when no user has the id |
| `Users.ApplyUpdate` | NearestApi/NearestAPI/NearestAPI/UsersController.cs:78-81 | after copying Name, City, Lat and Lon, the stored user equals the submitted one except that it keeps its own id |
| `Users.AddKeepsIdsUnique` | NearestApi/NearestAPI/NearestAPI/UsersController.cs:67-68 | appending a user with the new id keeps pairwise distinct ids distinct, and the new id was not in use, as long as the ids are not exhausted |
| `Users.UpdateKeepsIds` | NearestApi/NearestAPI/NearestAPI/UsersController.cs:75-81 | overwriting one user keeps the length and every user's id, so uniqueness of ids is preserved |
| `Users.RemoveFirstId` | NearestApi/NearestAPI/NearestAPI/UsersController.cs:89-92 | removing the first user with the id makes the list one shorter and removes exactly that user from its multiset; with unique ids, that id is then gone and the others stay unique |
| `Users.WrappedIdRepeats` | NearestApi/NearestAPI/NearestAPI/UsersController.cs:67-68 | for every list in which some user holds `int.MaxValue`, the next two Adds both give the id `int.MinValue`, so the ids are no longer unique |
| `Nearest.HotelsNeverEmpty` | NearestApi/NearestAPI/NearestAPI/UsersController.cs:17-23 | the fixed hotel list `Hotels` has the four hotels A, B, C and D in that order, so the nearest-hotel query over it never fails |
| `Nearest.FirstMinIndex` | NearestApi/NearestAPI/NearestAPI/UsersController.cs:31-38 | the selected position has a distance no greater than any other, and every earlier position has a strictly greater distance; ties go to the earliest hotel |
| `Nearest.SelectNearest` | NearestApi/NearestAPI/NearestAPI/UsersController.cs:37-38 | `OrderBy(...).First()` fails exactly on an empty candidate list; otherwise it gives the first candidate of least distance |
| `Nearest.FirstMinUnique` | NearestApi/NearestAPI/NearestAPI/UsersController.cs:37-38 | the tie-break rule fixes the selection: at most one position is the first of least distance |
| `Nearest.StableHeadIsFirstMin` | NearestApi/NearestAPI/NearestAPI/UsersController.cs:37-38 | after a stable sort by distance, the head comes from the first input position of least distance |
| `Nearest.OrderByFirstIsSelectNearest` | NearestApi/NearestAPI/NearestAPI/UsersController.cs:31-38 | for every stable sort of the candidates by distance, the head of the sorted list is the candidate the linear scan selects |
| `Nearest.Candidates` | NearestApi/NearestAPI/NearestAPI/UsersController.cs:31-36 | one (hotel, distance) pair per hotel, in hotel order, with the distance computed from the user's and that hotel's coordinates |
| `Nearest.NearestForAll` | NearestApi/NearestAPI/NearestAPI/UsersController.cs:29-49 | one row per user in list order, carrying the user's Id, Name, City, Lat and Lon and the name and distance of the first hotel of least distance; it fails only when there are users and no hotels |
| `UsersController.UserStore.constructor` | NearestApi/NearestAPI/NearestAPI/UsersController.cs:15 | the user list starts empty |
| `UsersController.UserStore.Add` | NearestApi/NearestAPI/NearestAPI/UsersController.cs:65-70 | the user is appended with the id NextId and returned; earlier users are unchanged; the new id is above every earlier id and unique ids stay unique unless the ids are exhausted |
| `UsersController.UserStore.AddChecked` | NearestApi/NearestAPI/NearestAPI/UsersController.cs:65-70 | as Add, but when the largest id is `int.MaxValue` it returns Overflow and changes nothing, so unique ids always stay unique |
| `UsersController.UserStore.Update` | NearestApi/NearestAPI/NearestAPI/UsersController.cs:73-84 | an unknown id gives NotFound and no change; otherwise only the first user with the id becomes the submitted record with its id kept, and that user is returned; length, order and all ids are unchanged |
| `UsersController.UserStore.Delete` | NearestApi/NearestAPI/NearestAPI/UsersController.cs:87-94 | an unknown id gives NotFound and no change; otherwise exactly the first user with the id is removed, the rest keep their order and NoContent is returned; with unique ids the id is then gone |
| `UsersController.UserStore.GetAllNearest` | NearestApi/NearestAPI/NearestAPI/UsersController.cs:27-52 | over the fixed four-hotel list: one row per stored user, in order, with the user's fields and its first nearest hotel; it only reads the store |

## Left out

- `HaversineDistance` and `ToRadians` (lines 96-109) are floating-point trigonometry. The distance is the parameter `DistanceFn`. Neither symmetry nor non-negativity is assumed of it. It returns a `real`, so NaN and infinities cannot occur (see the next line).
- Distances are `real`. `OrderBy` on `double` uses `Double.CompareTo`, which places NaN before every number; the model has no NaN.
- Coordinates are `real` values that are only stored and copied. The hotel coordinates (lines 19-22) are the decimal literals of the source.
- `GetAll` (lines 56-61) returns the hotel list unchanged. It is a plain read of the constant `Hotels`.
- ASP.NET routing, attributes, model binding, `IActionResult` and JSON serialisation are not modelled. Action results are the `Outcome` datatype.
- Users are values in a sequence, not shared objects. So the model does not capture aliasing: the object returned by `Ok(user)` is the same object as the one stored in the list. `Users.Remove(user)` removes that object by reference; in the model this is removing the first user with the id.
- `null` strings and `null` request bodies are not modelled.
- Concurrency: the static list is shared between requests without locking. Every action is treated as one sequential step.

## Findings

| source | as written | input that shows it | evidently intended | confidence | as-written member | corrected member |
|---|---|---|---|---|---|---|
| NearestApi/NearestAPI/NearestAPI/UsersController.cs:67 | `Users.Max(u => u.Id) + 1` in C#'s default unchecked context wraps `int.MaxValue` to `int.MinValue`, and the next Add gives `int.MinValue` again | a list whose largest id is 2147483647 (reachable by alternating Add and Delete), followed by two Adds | every Add gives an id that no user has | not executed; low practical impact, since it needs about 2^31 Add requests | `Users.WrappedIdRepeats` (with `UsersController.UserStore.Add`) | `UsersController.UserStore.AddChecked` |

/**
 * Nearest-hotel selection of `GetAllNearest`: every hotel is paired with its
 * distance from the user, the pairs are ordered by distance with LINQ's stable
 * `OrderBy` and the first pair is taken. The distance itself (the Haversine
 * formula over doubles) is a parameter of the model.
 */
module Nearest {
  import opened Wrappers
  import opened Users

  /** A hotel: a name and a position in degrees. */
  datatype Hotel = Hotel(name: string, lat: real, lon: real)

  /** The distance from (lat1, lon1) to (lat2, lon2), as `HaversineDistance` computes it. */
  type DistanceFn = (real, real, real, real) -> real

  /** The fixed, read-only hotel list the controller starts with. */
  const Hotels: seq<Hotel> := [
    Hotel("A", -43.9509, -34.4618),
    Hotel("B", 40.7128, -74.0060),
    Hotel("C", 34.0522, -118.2437),
    Hotel("D", -25.2744, 133.7751)
  ]

  /** The anonymous `{ Hotel, Distance }` pair built for each hotel. */
  datatype Candidate = Candidate(hotel: Hotel, distance: real)

  /** The `NearestHotel = { Name, Distance }` part of a result row. */
  datatype HotelDistance = HotelDistance(name: string, distance: real)

  /** One row of the `GetAllNearest` response: the user's fields and its nearest hotel. */
  datatype NearestUser = NearestUser(id: Int32, name: string, city: string, lat: real, lon: real,
                                     nearestHotel: HotelDistance)

  /** `First()` on an empty sequence throws: "Sequence contains no elements". */
  datatype Error = EmptySequence

  function DistanceTo(u: User, h: Hotel, distance: DistanceFn): (d: real)
  {
    distance(u.lat, u.lon, h.lat, h.lon)
  }

  /** `Hotels.Select(h => new { Hotel = h, Distance = ... })` for one user. */
  function Candidates(u: User, hotels: seq<Hotel>, distance: DistanceFn): (cs: seq<Candidate>)
    ensures |cs| == |hotels|
    ensures forall i :: 0 <= i < |hotels| ==> cs[i] == Candidate(hotels[i], DistanceTo(u, hotels[i], distance))
  {
    seq(|hotels|, i requires 0 <= i < |hotels| => Candidate(hotels[i], DistanceTo(u, hotels[i], distance)))
  }

  /** Position k holds a least distance, and every earlier position a strictly greater one. */
  ghost predicate IsFirstMin(cs: seq<Candidate>, k: int)
  {
    && 0 <= k < |cs|
    && (forall j :: 0 <= j < |cs| ==> cs[k].distance <= cs[j].distance)
    && (forall j :: 0 <= j < k ==> cs[k].distance < cs[j].distance)
  }

  /**
   * A linear scan that keeps the best position so far and replaces it only on a
   * strictly smaller distance: it finds the first position of least distance.
   */
  function FirstMinIndex(cs: seq<Candidate>): (k: nat)
    requires |cs| > 0
    ensures IsFirstMin(cs, k)
  {
    if |cs| == 1 then 0
    else
      var best := FirstMinIndex(cs[..|cs| - 1]);
      if cs[|cs| - 1].distance < cs[best].distance then |cs| - 1 else best
  }

  /**
   * `sorted` is an outcome of a stable sort of `cs` by distance, as LINQ's `OrderBy`
   * documents it: `perm[i]` is the input position of `sorted[i]`, every input position
   * occurs, distances do not decrease, and equal distances keep their input order.
   */
  ghost predicate IsStableOrderBy(cs: seq<Candidate>, sorted: seq<Candidate>, perm: seq<int>)
  {
    && |sorted| == |cs| && |perm| == |cs|
    && (forall i :: 0 <= i < |perm| ==> 0 <= perm[i] < |cs| && sorted[i] == cs[perm[i]])
    && (forall k :: 0 <= k < |cs| ==> k in perm)
    && (forall i, j :: 0 <= i < j < |sorted| ==> sorted[i].distance <= sorted[j].distance)
    && (forall i, j :: 0 <= i < j < |sorted| && sorted[i].distance == sorted[j].distance ==> perm[i] < perm[j])
  }

  /**
   * `.OrderBy(h => h.Distance).First()`: the first candidate of least distance, or
   * the EmptySequence error when there are no candidates.
   */
  function SelectNearest(cs: seq<Candidate>): (r: Result<Candidate, Error>)
    ensures r.Failure? <==> |cs| == 0
    ensures r.Success? ==> exists k :: IsFirstMin(cs, k) && r.value == cs[k]
  {
    if |cs| == 0 then Failure(EmptySequence) else Success(cs[FirstMinIndex(cs)])
  }

  /** At most one position is the first of least distance. */
  lemma FirstMinUnique(cs: seq<Candidate>, a: int, b: int)
    requires IsFirstMin(cs, a) && IsFirstMin(cs, b)
    ensures a == b
  {
    assert cs[a].distance == cs[b].distance;
  }

  /** Under a stable sort by distance, the input position of the head is the first of least distance. */
  lemma {:induction false} StableHeadIsFirstMin(cs: seq<Candidate>, sorted: seq<Candidate>, perm: seq<int>)
    requires |cs| > 0
    requires IsStableOrderBy(cs, sorted, perm)
    ensures IsFirstMin(cs, perm[0])
  {
    var p := perm[0];
    forall j | 0 <= j < |cs|
      ensures cs[p].distance <= cs[j].distance
    {
      assert j in perm;
      var i :| 0 <= i < |perm| && perm[i] == j;
      if i > 0 {
        assert sorted[0].distance <= sorted[i].distance;
      }
    }
    forall j | 0 <= j < p
      ensures cs[p].distance < cs[j].distance
    {
      assert j in perm;
      var i :| 0 <= i < |perm| && perm[i] == j;
      if i > 0 {
        assert sorted[0].distance <= sorted[i].distance;
      }
    }
  }

  /** The head of any stable sort by distance is what the linear scan selects. */
  lemma {:induction false} OrderByFirstIsSelectNearest(cs: seq<Candidate>, sorted: seq<Candidate>, perm: seq<int>)
    requires |cs| > 0
    requires IsStableOrderBy(cs, sorted, perm)
    ensures SelectNearest(cs) == Success(sorted[0])
  {
    StableHeadIsFirstMin(cs, sorted, perm);
    FirstMinUnique(cs, perm[0], FirstMinIndex(cs));
  }

  /** The result row for user u whose nearest candidate is c. */
  function Report(u: User, c: Candidate): (row: NearestUser)
  {
    NearestUser(u.id, u.name, u.city, u.lat, u.lon, HotelDistance(c.hotel.name, c.distance))
  }

  /**
   * r carries u's Id, Name, City, Lat and Lon unchanged, and the name and distance of
   * the first hotel of least distance from u.
   */
  ghost predicate IsNearestReport(u: User, hotels: seq<Hotel>, distance: DistanceFn, r: NearestUser)
  {
    && r.id == u.id && r.name == u.name && r.city == u.city && r.lat == u.lat && r.lon == u.lon
    && exists k :: IsFirstMin(Candidates(u, hotels, distance), k)
                   && r.nearestHotel == HotelDistance(hotels[k].name, DistanceTo(u, hotels[k], distance))
  }

  /**
   * `users.Select(u => ...)` as the response enumerates it: one row per user, in user
   * order. The query is lazy, so `First()` throws only when some user is enumerated
   * against an empty hotel list.
   */
  function NearestForAll(users: seq<User>, hotels: seq<Hotel>, distance: DistanceFn): (r: Result<seq<NearestUser>, Error>)
    ensures r.Failure? <==> |users| > 0 && |hotels| == 0
    ensures r.Success? ==> |r.value| == |users|
    ensures r.Success? ==> forall i :: 0 <= i < |users| ==> IsNearestReport(users[i], hotels, distance, r.value[i])
  {
    if |users| > 0 && |hotels| == 0 then Failure(EmptySequence)
    else
      var rows := seq(|users|, i requires 0 <= i < |users| =>
        Report(users[i], SelectNearest(Candidates(users[i], hotels, distance)).value));
      assert forall i :: 0 <= i < |users| ==> IsNearestReport(users[i], hotels, distance, rows[i]) by {
        forall i | 0 <= i < |users|
          ensures IsNearestReport(users[i], hotels, distance, rows[i])
        {
          var cs := Candidates(users[i], hotels, distance);
          var k :| IsFirstMin(cs, k) && SelectNearest(cs).value == cs[k];
          assert rows[i].nearestHotel == HotelDistance(hotels[k].name, DistanceTo(users[i], hotels[k], distance));
        }
      }
      Success(rows)
  }

  /**
   * The controller's hotel list holds the four hotels A, B, C and D, in that order, so
   * the per-user `First()` never throws.
   */
  lemma HotelsNeverEmpty(users: seq<User>, distance: DistanceFn)
    ensures |Hotels| == 4
    ensures Hotels[0].name == "A" && Hotels[1].name == "B" && Hotels[2].name == "C" && Hotels[3].name == "D"
    ensures NearestForAll(users, Hotels, distance).Success?
  {
  }
}

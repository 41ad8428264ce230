/**
 * The list of trips behind the main screen's RecyclerView (`TripAdapter`).
 * Display notifications are not modelled; each operation maps the list
 * before to the list after.
 */
module TripList {
  import opened Entities

  /** `getItemCount`: the number of rows the list shows. */
  function ItemCount(trips: seq<Trip>): (n: nat)
    ensures n == 0 <==> trips == []
  {
    |trips|
  }

  /** `updateTrips`: the list is cleared and refilled, so it becomes `newTrips` whatever it held. */
  function UpdateTrips(trips: seq<Trip>, newTrips: seq<Trip>): (r: seq<Trip>)
    ensures r == newTrips
    ensures ItemCount(r) == |newTrips|
  {
    newTrips
  }

  /** `addTrip`: the new trip goes first and every other trip moves down one place. */
  function AddTrip(trips: seq<Trip>, trip: Trip): (r: seq<Trip>)
    ensures |r| == |trips| + 1
    ensures r[0] == trip
    ensures forall i :: 0 <= i < |trips| ==> r[i + 1] == trips[i]
  {
    [trip] + trips
  }

  /** `List.indexOf`: the first position holding a trip equal to `trip`, or -1. */
  function IndexOf(trips: seq<Trip>, trip: Trip): (i: int)
    ensures -1 <= i < |trips|
    ensures i == -1 <==> trip !in trips
    ensures i >= 0 ==> trips[i] == trip && trip !in trips[..i]
  {
    if |trips| == 0 then -1
    else if trips[0] == trip then 0
    else
      var k := IndexOf(trips[1..], trip);
      if k == -1 then -1
      else
        assert trips[..k + 1] == [trips[0]] + trips[1..][..k];
        k + 1
  }

  /** `indexOfFirst { it.id == id }`: the first position holding a trip with that id, or -1. */
  function IndexOfId(trips: seq<Trip>, id: int): (i: int)
    ensures -1 <= i < |trips|
    ensures i == -1 <==> forall j :: 0 <= j < |trips| ==> trips[j].id != id
    ensures i >= 0 ==> trips[i].id == id && forall j :: 0 <= j < i ==> trips[j].id != id
  {
    if |trips| == 0 then -1
    else if trips[0].id == id then 0
    else
      var k := IndexOfId(trips[1..], id);
      if k == -1 then -1 else k + 1
  }

  /**
   * `removeTrip`: removes the first trip equal to `trip` (every field
   * compared, as data-class equality does); the list is unchanged when
   * there is none.
   */
  function RemoveTrip(trips: seq<Trip>, trip: Trip): (r: seq<Trip>)
    ensures trip !in trips ==> r == trips
    ensures trip in trips ==> |r| == |trips| - 1
    ensures multiset(r) == multiset(trips) - multiset{trip}
    ensures trip in trips ==>
              exists i :: 0 <= i < |trips| && trips[i] == trip && trip !in trips[..i] && r == trips[..i] + trips[i + 1..]
  {
    var i := IndexOf(trips, trip);
    if i == -1 then trips
    else
      assert trips == trips[..i] + [trips[i]] + trips[i + 1..];
      trips[..i] + trips[i + 1..]
  }

  /**
   * `updateTrip`: the first trip with the same id is replaced by `trip`;
   * nothing changes when no trip has that id.
   */
  function UpdateTrip(trips: seq<Trip>, trip: Trip): (r: seq<Trip>)
    ensures |r| == |trips|
    ensures (forall j :: 0 <= j < |trips| ==> trips[j].id != trip.id) ==> r == trips
    ensures forall j :: 0 <= j < |trips| ==> r[j] == trips[j] || (r[j] == trip && trips[j].id == trip.id)
    ensures forall j :: 0 <= j < |trips| && trips[j].id == trip.id && (forall k :: 0 <= k < j ==> trips[k].id != trip.id) ==>
              r == trips[j := trip]
  {
    var i := IndexOfId(trips, trip.id);
    if i == -1 then trips else trips[i := trip]
  }

  /** Removing a trip just added restores the list. */
  lemma RemoveUndoesAdd(trips: seq<Trip>, trip: Trip)
    ensures RemoveTrip(AddTrip(trips, trip), trip) == trips
  {
    assert IndexOf([trip] + trips, trip) == 0;
  }

  /** No two listed trips share an id, as when the list was read from the table. */
  predicate DistinctIds(trips: seq<Trip>) {
    forall i, j :: 0 <= i < j < |trips| ==> trips[i].id != trips[j].id
  }

  /**
   * Removal compares whole records, so a copy of a listed trip that shares
   * its id but differs in some field removes nothing.
   */
  lemma RemoveIgnoresStaleCopy(trips: seq<Trip>, listed: Trip, stale: Trip)
    requires DistinctIds(trips)
    requires listed in trips && stale.id == listed.id && stale != listed
    ensures stale !in trips
    ensures RemoveTrip(trips, stale) == trips && listed in RemoveTrip(trips, stale)
  {
    var m :| 0 <= m < |trips| && trips[m] == listed;
    forall k | 0 <= k < |trips|
      ensures trips[k] != stale
    {
      if k < m {
        assert trips[k].id != trips[m].id;
      } else if m < k {
        assert trips[m].id != trips[k].id;
      }
    }
  }

  /** Applying the same update twice is the same as applying it once. */
  lemma UpdateTripIdempotent(trips: seq<Trip>, trip: Trip)
    ensures UpdateTrip(UpdateTrip(trips, trip), trip) == UpdateTrip(trips, trip)
  {
    var i := IndexOfId(trips, trip.id);
    if i != -1 {
      var once := trips[i := trip];
      assert once[i].id == trip.id;
      assert forall j :: 0 <= j < i ==> once[j].id != trip.id;
      assert IndexOfId(once, trip.id) == i;
    }
  }
}

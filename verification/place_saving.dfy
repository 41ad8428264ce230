/**
 * How the trip dialog writes its places to the store: the loop that
 * inserts every place with a name and a visit date under the saved trip's
 * id, and, for an edited trip, the loop that first deletes every place
 * the trip had. Each loop is a fold of single gateway calls.
 */
module PlaceSaving {
  import opened Entities
  import opened Rows
  import opened TravelDb
  import opened StoreFacts

  /** The save loop's test: a place is stored only with a non-empty name and visit date. */
  predicate Saveable(p: Place) {
    |p.name| > 0 && |p.visitDate| > 0
  }

  function IsSaveable(): Place -> bool {
    (p: Place) => Saveable(p)
  }

  /** A place as the save loop hands it to the store for trip `tripId`, shown without its row id. */
  function Stamped(places: seq<Place>, tripId: int): (r: seq<Place>)
    ensures |r| == |places|
    ensures forall i :: 0 <= i < |places| ==> r[i] == places[i].(id := 0, tripId := tripId)
  {
    seq(|places|, i requires 0 <= i < |places| => places[i].(id := 0, tripId := tripId))
  }

  /** Rows with their row ids blanked, for comparing stored rows with the places they came from. */
  function Unnumbered(places: seq<Place>): (r: seq<Place>)
    ensures |r| == |places|
    ensures forall i :: 0 <= i < |places| ==> r[i] == places[i].(id := 0)
  {
    seq(|places|, i requires 0 <= i < |places| => places[i].(id := 0))
  }

  /** One turn of the save loop: a saveable place is inserted under the trip `tripId`, any other skipped. */
  function SaveOne(db: Db, place: Place, tripId: int): (r: Db)
    ensures r == db.(places := r.places, placeSeq := r.placeSeq)
    ensures |db.places| <= |r.places| <= |db.places| + 1 && r.places[..|db.places|] == db.places
    ensures |r.places| > |db.places| ==> r.places[|db.places|].tripId == tripId && Saveable(r.places[|db.places|])
  {
    if Saveable(place) then InsertPlace(db, place.(tripId := tripId)).db else db
  }

  /**
   * `places.forEach { if (...) insertPlace(place.copy(tripId = ...)) }`:
   * only rows of the trip `tripId` that pass the test are appended, and
   * nothing but the places table and its sequence changes.
   */
  function SavePlaces(db: Db, places: seq<Place>, tripId: int): (r: Db)
    ensures r == db.(places := r.places, placeSeq := r.placeSeq)
    ensures |db.places| <= |r.places| <= |db.places| + |places|
    ensures r.places[..|db.places|] == db.places
    ensures forall i :: |db.places| <= i < |r.places| ==> r.places[i].tripId == tripId && Saveable(r.places[i])
    decreases |places|
  {
    if |places| == 0 then db
    else
      var next := SaveOne(db, places[0], tripId);
      var r := SavePlaces(next, places[1..], tripId);
      assert r.places[..|db.places|] == r.places[..|next.places|][..|db.places|];
      r
  }

  lemma {:induction false} SavePlacesKeepsValid(db: Db, places: seq<Place>, tripId: int)
    requires Valid(db)
    ensures Valid(SavePlaces(db, places, tripId))
    decreases |places|
  {
    if |places| > 0 {
      InsertPlaceKeepsValid(db, places[0].(tripId := tripId));
      SavePlacesKeepsValid(SaveOne(db, places[0], tripId), places[1..], tripId);
    }
  }

  /** The part of `s` after position `d` when `s` extends `t`, which is at least `d` long. */
  lemma SliceOfExtension<T>(s: seq<T>, t: seq<T>, d: nat)
    requires d <= |t| <= |s| && s[..|t|] == t
    ensures s[d..] == t[d..] + s[|t|..]
  {
    assert s == s[..|t|] + s[|t|..];
  }

  /**
   * With ids to spare and, under foreign keys, an existing trip, every
   * saveable place is stored, in order, under the trip's id.
   */
  lemma {:induction false} SavePlacesAppends(db: Db, places: seq<Place>, tripId: int)
    requires IdsAtMost(db.places, PlaceRowId, db.placeSeq)
    requires db.foreignKeys ==> HasTrip(db, tripId)
    requires db.placeSeq + |places| <= MaxRowId
    ensures var r := SavePlaces(db, places, tripId);
            Unnumbered(r.places[|db.places|..]) == Stamped(Filter(places, IsSaveable()), tripId)
    decreases |places|
  {
    if |places| > 0 {
      var r := SavePlaces(db, places, tripId);
      var next := SaveOne(db, places[0], tripId);
      SaveOneStep(db, places[0], tripId);
      SavePlacesAppends(next, places[1..], tripId);
      assert r == SavePlaces(next, places[1..], tripId);
      SliceOfExtension(r.places, next.places, |db.places|);
      var head := next.places[|db.places|..];
      var tail := r.places[|next.places|..];
      UnnumberedAppend(head, tail);
      var rest := Filter(places[1..], IsSaveable());
      var first := if Saveable(places[0]) then [places[0]] else [];
      assert Filter(places, IsSaveable()) == first + rest;
      StampedAppend(first, rest, tripId);
    }
  }

  lemma UnnumberedAppend(a: seq<Place>, b: seq<Place>)
    ensures Unnumbered(a + b) == Unnumbered(a) + Unnumbered(b)
  {
  }

  lemma StampedAppend(a: seq<Place>, b: seq<Place>, tripId: int)
    ensures Stamped(a + b, tripId) == Stamped(a, tripId) + Stamped(b, tripId)
  {
  }

  /** One turn of the save loop, under the conditions of `SavePlacesAppends`. */
  lemma SaveOneStep(db: Db, place: Place, tripId: int)
    requires IdsAtMost(db.places, PlaceRowId, db.placeSeq)
    requires db.foreignKeys ==> HasTrip(db, tripId)
    requires db.placeSeq < MaxRowId
    ensures var next := SaveOne(db, place, tripId);
            && IdsAtMost(next.places, PlaceRowId, next.placeSeq)
            && (next.foreignKeys ==> HasTrip(next, tripId))
            && next.placeSeq <= db.placeSeq + 1
            && Unnumbered(next.places[|db.places|..]) == Stamped(if Saveable(place) then [place] else [], tripId)
  {
    if Saveable(place) {
      NextIdAfterLast(db.places, PlaceRowId, db.placeSeq);
      var w := InsertPlace(db, place.(tripId := tripId));
      assert w.db.places[|db.places|..] == [place.(tripId := tripId, id := w.value)];
    }
  }

  /** The ids of a list of places, in order. */
  function PlaceIds(places: seq<Place>): (r: seq<int>)
    ensures |r| == |places|
    ensures forall i :: 0 <= i < |places| ==> r[i] == places[i].id
    ensures forall p :: p in places ==> p.id in r
  {
    var r := seq(|places|, i requires 0 <= i < |places| => places[i].id);
    assert forall i :: 0 <= i < |places| ==> r[i] == places[i].id;
    r
  }

  /** `forEach { deletePlace(it.id) }`: every place whose id is listed goes, every other place stays. */
  function DeletePlaces(db: Db, ids: seq<int>): (r: Db)
    ensures r == db.(places := r.places)
    ensures forall p :: p in r.places <==> p in db.places && p.id !in ids
    decreases |ids|
  {
    if |ids| == 0 then db
    else DeletePlaces(DeletePlace(db, ids[0]).db, ids[1..])
  }

  lemma {:induction false} DeletePlacesKeepsValid(db: Db, ids: seq<int>)
    requires Valid(db)
    ensures Valid(DeletePlaces(db, ids))
    decreases |ids|
  {
    if |ids| > 0 {
      DeletePlaceKeepsValid(db, ids[0]);
      DeletePlacesKeepsValid(DeletePlace(db, ids[0]).db, ids[1..]);
    }
  }

  /**
   * `getPlacesByTripId(id).forEach { deletePlace(it.id) }`: the trip is left
   * with no places, and with ids unique no other trip loses one.
   */
  function ClearTripPlaces(db: Db, tripId: int): (r: Db)
    ensures r == db.(places := r.places)
    ensures forall p :: p in r.places ==> p in db.places && p.tripId != tripId
    ensures IdsIncreasing(db.places, PlaceRowId) ==>
              forall p: Place :: p.tripId != tripId ==> (p in r.places <==> p in db.places)
  {
    var doomed := PlacesByTrip(db, tripId);
    var r := DeletePlaces(db, PlaceIds(doomed));
    assert IdsIncreasing(db.places, PlaceRowId) ==>
             forall p: Place :: p.tripId != tripId ==> (p in r.places <==> p in db.places) by {
      if IdsIncreasing(db.places, PlaceRowId) {
        forall p: Place | p.tripId != tripId && p in db.places
          ensures p.id !in PlaceIds(doomed)
        {
          OtherTripIdNotDoomed(db, tripId, p);
        }
      }
    }
    r
  }

  /** With unique ids, a place of another trip shares its id with none of the trip's places. */
  lemma OtherTripIdNotDoomed(db: Db, tripId: int, p: Place)
    requires IdsIncreasing(db.places, PlaceRowId)
    requires p in db.places && p.tripId != tripId
    ensures p.id !in PlaceIds(PlacesByTrip(db, tripId))
  {
    var doomed := PlacesByTrip(db, tripId);
    forall i | 0 <= i < |doomed|
      ensures doomed[i].id != p.id
    {
      IdsIncreasingUnique(db.places, PlaceRowId, p, doomed[i]);
    }
  }

  /**
   * The edited-trip branch of the save: the trip's old places are deleted
   * and the dialog's saveable places stored in their stead.
   */
  function ReplacePlaces(db: Db, tripId: int, places: seq<Place>): (r: Db)
    ensures r == db.(places := r.places, placeSeq := r.placeSeq)
  {
    SavePlaces(ClearTripPlaces(db, tripId), places, tripId)
  }

  /** The replacement touches no other trip's places: none is added, and with ids unique none is lost. */
  lemma ReplacePlacesKeepsOtherTrips(db: Db, tripId: int, places: seq<Place>)
    ensures var r := ReplacePlaces(db, tripId, places);
            forall p :: p in r.places && p.tripId != tripId ==> p in db.places
    ensures var r := ReplacePlaces(db, tripId, places);
            IdsIncreasing(db.places, PlaceRowId) ==> forall p :: p in db.places && p.tripId != tripId ==> p in r.places
  {
    var cleared := ClearTripPlaces(db, tripId);
    var r := SavePlaces(cleared, places, tripId);
    assert forall p :: p in cleared.places ==> p in r.places by {
      forall p | p in cleared.places ensures p in r.places {
        var i := PositionOf(cleared.places, p);
        assert r.places[i] == p;
      }
    }
    assert forall p :: p in r.places && p.tripId != tripId ==> p in cleared.places by {
      forall p | p in r.places && p.tripId != tripId ensures p in cleared.places {
        var i := PositionOf(r.places, p);
        assert i < |cleared.places|;
        assert r.places[..|cleared.places|][i] == p;
      }
    }
  }

  lemma ReplacePlacesKeepsValid(db: Db, tripId: int, places: seq<Place>)
    requires Valid(db)
    ensures Valid(ReplacePlaces(db, tripId, places))
  {
    DeletePlacesKeepsValid(db, PlaceIds(PlacesByTrip(db, tripId)));
    SavePlacesKeepsValid(ClearTripPlaces(db, tripId), places, tripId);
  }

  /** After the replacement the trip's places are exactly the dialog's saveable places, in order. */
  lemma ReplacePlacesExactly(db: Db, tripId: int, places: seq<Place>)
    requires IdsAtMost(db.places, PlaceRowId, db.placeSeq)
    requires db.foreignKeys ==> HasTrip(db, tripId)
    requires db.placeSeq + |places| <= MaxRowId
    ensures var r := ReplacePlaces(db, tripId, places);
            Unnumbered(Filter(r.places, OfTrip(tripId))) == Stamped(Filter(places, IsSaveable()), tripId)
  {
    var cleared := ClearTripPlaces(db, tripId);
    SubsetKeepsIdsAtMost(cleared.places, db.places, PlaceRowId, db.placeSeq);
    assert HasTrip(cleared, tripId) <== HasTrip(db, tripId);
    SavePlacesAppends(cleared, places, tripId);
    var r := SavePlaces(cleared, places, tripId);
    assert ReplacePlaces(db, tripId, places) == r;
    var added := r.places[|cleared.places|..];
    SliceOfExtension(r.places, cleared.places, 0);
    assert r.places == cleared.places + added;
    OnlyAddedRowsMatch(cleared.places, added, tripId);
  }

  /** When only the appended rows belong to the trip, selecting the trip's rows gives back the appended ones. */
  lemma OnlyAddedRowsMatch(kept: seq<Place>, added: seq<Place>, tripId: int)
    requires forall p :: p in kept ==> p.tripId != tripId
    requires forall i :: 0 <= i < |added| ==> added[i].tripId == tripId
    ensures Filter(kept + added, OfTrip(tripId)) == added
  {
    FilterAppend(kept, added, OfTrip(tripId));
    FilterNone(kept, OfTrip(tripId));
    FilterKeepsAll(added, OfTrip(tripId));
  }
}

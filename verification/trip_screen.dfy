/**
 * The decisions of the main screen (`MainActivity`): which trips it lists,
 * the trip form's validation, and what saving and deleting a trip do to
 * the store and to the list on screen. The screen's state is the store
 * together with the list the adapter shows.
 */
module TripScreen {
  import opened Wrappers
  import opened Entities
  import opened KotlinText
  import opened Collation
  import opened Rows
  import opened TravelDb
  import opened StoreFacts
  import TripList
  import opened PlaceEditing
  import opened PlaceSaving

  /** The store and the list of trips on screen. */
  datatype Screen = Screen(db: Db, shown: seq<Trip>)

  // ---------------------------------------------------------------- listing

  /**
   * `loadTrips` (no country chosen) and `filterTripsByCountry`: the user's
   * trips, newest first, narrowed to one country when one is chosen.
   */
  function ShownTrips(db: Db, userId: int, country: Option<string>): (r: seq<Trip>)
    ensures Subsequence(r, TripsByUser(db, userId))
    ensures forall t :: t in r <==> t in db.trips && t.userId == userId && (country.Some? ==> t.country == country.value)
    ensures SortedBy(r, StartDate, Desc)
  {
    match country
    case None =>
      SubsequenceReflexive(TripsByUser(db, userId));
      TripsByUser(db, userId)
    case Some(c) =>
      FilterIsSubsequence(TripsByUser(db, userId), InCountry(c));
      FilterKeepsSorted(TripsByUser(db, userId), InCountry(c), StartDate, Desc);
      Filter(TripsByUser(db, userId), InCountry(c))
  }

  // ---------------------------------------------------------------- the trip form

  /** The trip dialog's fields; the rating is the slider's value already cut to an integer. */
  datatype TripForm = TripForm(name: string, country: string, startDate: string, endDate: string, comment: string, rating: int)

  /** The error `validateTripForm` shows, in the order its checks run. */
  datatype TripFieldError = TripNameMissing | CountryMissing | StartDateMissing | EndDateMissing

  /** `validateTripForm`: the trimmed name, country and dates must all be non-empty. */
  function ValidateTripForm(form: TripForm): (r: Option<TripFieldError>)
    ensures r == None <==>
              !AllWhitespace(form.name) && !AllWhitespace(form.country) &&
              !AllWhitespace(form.startDate) && !AllWhitespace(form.endDate)
    ensures r == Some(TripNameMissing) <==> AllWhitespace(form.name)
    ensures r == Some(CountryMissing) <==> !AllWhitespace(form.name) && AllWhitespace(form.country)
    ensures r == Some(StartDateMissing) <==>
              !AllWhitespace(form.name) && !AllWhitespace(form.country) && AllWhitespace(form.startDate)
    ensures r == Some(EndDateMissing) <==>
              !AllWhitespace(form.name) && !AllWhitespace(form.country) &&
              !AllWhitespace(form.startDate) && AllWhitespace(form.endDate)
  {
    if |Trim(form.name)| == 0 then Some(TripNameMissing)
    else if |Trim(form.country)| == 0 then Some(CountryMissing)
    else if |Trim(form.startDate)| == 0 then Some(StartDateMissing)
    else if |Trim(form.endDate)| == 0 then Some(EndDateMissing)
    else None
  }

  /** The new trip `saveTrip` builds from the form for the logged-in user. */
  function NewTrip(form: TripForm, userId: int): Trip {
    Trip(name := Trim(form.name), country := Trim(form.country), startDate := Trim(form.startDate),
         endDate := Trim(form.endDate), userId := userId, comment := Some(Trim(form.comment)), rating := form.rating)
  }

  /** The copy of `existing` that `saveTrip` builds from the form when editing. */
  function EditedTrip(existing: Trip, form: TripForm): Trip {
    existing.(name := Trim(form.name), country := Trim(form.country), startDate := Trim(form.startDate),
              endDate := Trim(form.endDate), comment := Some(Trim(form.comment)), rating := form.rating)
  }

  // ---------------------------------------------------------------- saving a trip

  /**
   * `saveTrip` for a new trip: the trip is inserted; only when that
   * succeeds are its places saved and the trip, with its new id, put at
   * the head of the list.
   */
  function SaveNewTrip(s: Screen, userId: int, form: TripForm, places: seq<Place>): (r: Screen)
    ensures r.db.users == s.db.users
    ensures InsertTrip(s.db, NewTrip(form, userId)).value == InsertFailed ==> r == s
    ensures InsertTrip(s.db, NewTrip(form, userId)).value != InsertFailed ==>
              && |r.shown| == |s.shown| + 1 && r.shown[1..] == s.shown
              && r.shown[0] in r.db.trips && r.shown[0].userId == userId
              && s.db.tripSeq < r.shown[0].id == r.db.tripSeq
              && (forall t :: t in s.db.trips ==> t.id < r.shown[0].id)
              && r.shown[0] == NewTrip(form, userId).(id := r.shown[0].id)
              && r.db.trips == s.db.trips + [r.shown[0]]
              && |s.db.places| <= |r.db.places| && r.db.places[..|s.db.places|] == s.db.places
              && r.db == s.db.(trips := r.db.trips, tripSeq := r.db.tripSeq, places := r.db.places, placeSeq := r.db.placeSeq)
  {
    var trip := NewTrip(form, userId);
    var w := InsertTrip(s.db, trip);
    if w.value != InsertFailed then
      var saved := trip.(id := w.value);
      var db := SavePlaces(w.db, places, w.value);
      assert saved == w.db.trips[|s.db.trips|];
      assert db.trips == s.db.trips + [saved] && db.users == s.db.users && db.foreignKeys == s.db.foreignKeys;
      assert db.places[..|s.db.places|] == s.db.places;
      Screen(db, TripList.AddTrip(s.shown, saved))
    else s
  }

  /** A successful insert of the new trip leaves the saved places and the new head of the list. */
  lemma SaveNewTripShape(s: Screen, userId: int, form: TripForm, places: seq<Place>)
    ensures var w := InsertTrip(s.db, NewTrip(form, userId));
            w.value != InsertFailed ==>
              SaveNewTrip(s, userId, form, places)
                == Screen(SavePlaces(w.db, places, w.value), [NewTrip(form, userId).(id := w.value)] + s.shown)
  {
  }

  /**
   * A list holding the user's trips (in any order) still holds exactly
   * them after a new trip is saved: the adapter's `addTrip` puts the trip
   * at the head, so the start-date order itself is not kept.
   */
  lemma NewTripKeepsListing(s: Screen, userId: int, form: TripForm, places: seq<Place>)
    requires multiset(s.shown) == multiset(TripsByUser(s.db, userId))
    ensures var r := SaveNewTrip(s, userId, form, places);
            multiset(r.shown) == multiset(TripsByUser(r.db, userId))
  {
    var r := SaveNewTrip(s, userId, form, places);
    if InsertTrip(s.db, NewTrip(form, userId)).value != InsertFailed {
      assert r.shown == [r.shown[0]] + r.shown[1..];
      ListingGainsOne(s.shown, r.shown, s.db.trips, r.db.trips,
                      TripsByUser(s.db, userId), TripsByUser(r.db, userId), r.shown[0], userId);
    }
  }

  /** Counting argument: a trip of the user added both to the table and to the list keeps the two in step. */
  lemma ListingGainsOne(shownBefore: seq<Trip>, shownAfter: seq<Trip>, tripsBefore: seq<Trip>, tripsAfter: seq<Trip>,
                        listingBefore: seq<Trip>, listingAfter: seq<Trip>, h: Trip, userId: int)
    requires shownAfter == [h] + shownBefore && tripsAfter == tripsBefore + [h] && h.userId == userId
    requires multiset(shownBefore) == multiset(listingBefore)
    requires forall t :: multiset(listingBefore)[t] == if t.userId == userId then multiset(tripsBefore)[t] else 0
    requires forall t :: multiset(listingAfter)[t] == if t.userId == userId then multiset(tripsAfter)[t] else 0
    ensures multiset(shownAfter) == multiset(listingAfter)
  {
    assert multiset(tripsAfter) == multiset(tripsBefore) + multiset{h};
    assert multiset(shownAfter) == multiset{h} + multiset(shownBefore);
    forall t ensures multiset(shownAfter)[t] == multiset(listingAfter)[t] {
      assert multiset(shownBefore)[t] == multiset(listingBefore)[t];
    }
  }

  /**
   * With ids to spare and, under foreign keys, a logged-in user that
   * exists, a new trip is stored, the store stays well formed, and the
   * rows appended for its places are the dialog's saveable places.
   */
  lemma SaveNewTripStoresPlaces(s: Screen, userId: int, form: TripForm, places: seq<Place>)
    requires Valid(s.db)
    requires s.db.foreignKeys ==> HasUser(s.db, userId)
    requires s.db.tripSeq < MaxRowId && s.db.placeSeq + |places| <= MaxRowId
    ensures var r := SaveNewTrip(s, userId, form, places);
            && |r.shown| == |s.shown| + 1
            && Valid(r.db)
            && Unnumbered(r.db.places[|s.db.places|..]) == Stamped(Filter(places, IsSaveable()), r.shown[0].id)
  {
    var trip := NewTrip(form, userId);
    NextIdsFollowSequence(s.db);
    InsertTripKeepsValid(s.db, trip);
    var w := InsertTrip(s.db, trip);
    NewTripExists(s.db, trip);
    SavePlacesKeepsValid(w.db, places, w.value);
    SavePlacesAppends(w.db, places, w.value);
    SaveNewTripShape(s, userId, form, places);
  }

  /** After a successful insert, the trip's id names a stored trip and no id exceeds the sequence. */
  lemma NewTripExists(db: Db, trip: Trip)
    requires IdsAtMost(db.places, PlaceRowId, db.placeSeq)
    ensures var w := InsertTrip(db, trip);
            w.value != InsertFailed ==>
              HasTrip(w.db, w.value) && IdsAtMost(w.db.places, PlaceRowId, w.db.placeSeq) && w.db.places == db.places
  {
    var w := InsertTrip(db, trip);
    if w.value != InsertFailed {
      assert w.db.trips[|db.trips|].id == w.value;
    }
  }

  /** Under foreign keys, the new trip's places are exactly the saveable places of the dialog. */
  lemma SaveNewTripOwnsOnlyItsPlaces(s: Screen, userId: int, form: TripForm, places: seq<Place>)
    requires Valid(s.db) && s.db.foreignKeys && HasUser(s.db, userId)
    requires s.db.tripSeq < MaxRowId && s.db.placeSeq + |places| <= MaxRowId
    ensures var r := SaveNewTrip(s, userId, form, places);
            Unnumbered(Filter(r.db.places, OfTrip(r.shown[0].id))) == Stamped(Filter(places, IsSaveable()), r.shown[0].id)
  {
    var trip := NewTrip(form, userId);
    NextIdsFollowSequence(s.db);
    var w := InsertTrip(s.db, trip);
    var id := w.value;
    NewTripExists(s.db, trip);
    SavePlacesAppends(w.db, places, id);
    SaveNewTripShape(s, userId, form, places);
    var saved := SavePlaces(w.db, places, id);
    NewTripHasNoPlacesYet(s.db, id);
    var added := saved.places[|s.db.places|..];
    SliceOfExtension(saved.places, s.db.places, 0);
    OnlyAddedRowsMatch(s.db.places, added, id);
  }

  /** With references intact, no place names a trip id the store has not issued yet. */
  lemma NewTripHasNoPlacesYet(db: Db, id: int)
    requires Valid(db) && db.foreignKeys && id > db.tripSeq
    ensures forall p :: p in db.places ==> p.tripId != id
  {
    forall p | p in db.places ensures p.tripId != id {
      var t :| t in db.trips && t.id == p.tripId;
      var i := PositionOf(db.trips, t);
    }
  }

  /**
   * `saveTrip` for an edited trip: the form's fields are written over the
   * stored row; only when a row was updated are the trip's places replaced
   * and the list's copy of the trip updated.
   */
  function SaveEditedTrip(s: Screen, existing: Trip, form: TripForm, places: seq<Place>): (r: Screen)
    ensures r.db.users == s.db.users
    ensures !HasTrip(s.db, existing.id) ==> r == s
    ensures |r.db.trips| == |s.db.trips| && |r.shown| == |s.shown|
    ensures forall i :: 0 <= i < |s.db.trips| && s.db.trips[i].id != existing.id ==> r.db.trips[i] == s.db.trips[i]
    ensures forall i :: 0 <= i < |s.db.trips| && s.db.trips[i].id == existing.id ==>
              r.db.trips[i] == EditedTrip(existing, form).(userId := s.db.trips[i].userId)
    ensures forall j :: 0 <= j < |s.shown| ==>
              r.shown[j] == s.shown[j] || (r.shown[j] == EditedTrip(existing, form) && s.shown[j].id == existing.id)
    ensures HasTrip(s.db, existing.id) ==> r.shown == TripList.UpdateTrip(s.shown, EditedTrip(existing, form))
    ensures r.db == s.db.(trips := r.db.trips, places := r.db.places, placeSeq := r.db.placeSeq)
  {
    var trip := EditedTrip(existing, form);
    var w := UpdateTrip(s.db, trip);
    if w.value > 0 then Screen(ReplacePlaces(w.db, trip.id, places), TripList.UpdateTrip(s.shown, trip))
    else s
  }

  /**
   * When the edited trip exists and ids remain, its places afterwards are
   * exactly the dialog's saveable places, in order; no other trip's place
   * is added or lost; and the store stays well formed.
   */
  lemma SaveEditedTripReplacesPlaces(s: Screen, existing: Trip, form: TripForm, places: seq<Place>)
    requires Valid(s.db)
    requires HasTrip(s.db, existing.id)
    requires s.db.placeSeq + |places| <= MaxRowId
    ensures var r := SaveEditedTrip(s, existing, form, places);
            && Valid(r.db)
            && Unnumbered(Filter(r.db.places, OfTrip(existing.id))) == Stamped(Filter(places, IsSaveable()), existing.id)
            && (forall p: Place :: p.tripId != existing.id ==> (p in r.db.places <==> p in s.db.places))
  {
    var trip := EditedTrip(existing, form);
    UpdateTripKeepsValid(s.db, trip);
    var w := UpdateTrip(s.db, trip);
    var t :| t in s.db.trips && t.id == existing.id;
    var i := PositionOf(s.db.trips, t);
    assert w.db.trips[i].id == existing.id;
    assert HasTrip(w.db, existing.id);
    ReplacePlacesKeepsValid(w.db, trip.id, places);
    ReplacePlacesExactly(w.db, trip.id, places);
    ReplacePlacesKeepsOtherTrips(w.db, trip.id, places);
  }

  /**
   * The trip dialog's save button: an invalid form changes nothing; a
   * valid one rebuilds the places from their labels under the dialog's
   * trip and saves the trip as new or as an edit.
   */
  function SubmitTripDialog(s: Screen, userId: int, editing: Option<Trip>, form: TripForm, places: seq<Place>): (r: Screen)
    ensures ValidateTripForm(form).Some? ==> r == s
    ensures r.db.users == s.db.users
    ensures editing.Some? && !HasTrip(s.db, editing.value.id) ==> r == s
    ensures ValidateTripForm(form) == None && editing.None? &&
            InsertTrip(s.db, NewTrip(form, userId)).value != InsertFailed ==>
              && |r.shown| == |s.shown| + 1 && r.shown[1..] == s.shown
              && r.shown[0] == NewTrip(form, userId).(id := r.shown[0].id)
              && r.db.trips == s.db.trips + [r.shown[0]]
    ensures ValidateTripForm(form) == None && editing.Some? && HasTrip(s.db, editing.value.id) ==>
              r.shown == TripList.UpdateTrip(s.shown, EditedTrip(editing.value, form))
  {
    if ValidateTripForm(form).Some? then s
    else
      var rebuilt := ReparsePlaces(places, OwnerId(editing));
      match editing
      case None => SaveNewTrip(s, userId, form, rebuilt)
      case Some(existing) => SaveEditedTrip(s, existing, form, rebuilt)
  }

  /**
   * Saving a new trip through the dialog, with ids to spare and, under
   * foreign keys, an existing user, keeps the store well formed and
   * appends exactly the places read back from the dialog's labels that
   * still have a name and a date, under the new trip's id.
   */
  lemma SubmitNewStoresReparsedPlaces(s: Screen, userId: int, form: TripForm, places: seq<Place>)
    requires Valid(s.db)
    requires s.db.foreignKeys ==> HasUser(s.db, userId)
    requires s.db.tripSeq < MaxRowId && s.db.placeSeq + |places| <= MaxRowId
    requires ValidateTripForm(form) == None
    ensures var r := SubmitTripDialog(s, userId, None, form, places);
            && |r.shown| == |s.shown| + 1
            && Valid(r.db)
            && |s.db.places| <= |r.db.places|
            && Unnumbered(r.db.places[|s.db.places|..]) == Stamped(Filter(ReparsePlaces(places, 0), IsSaveable()), r.shown[0].id)
  {
    var rebuilt := ReparsePlaces(places, 0);
    assert SubmitTripDialog(s, userId, None, form, places) == SaveNewTrip(s, userId, form, rebuilt);
    SaveNewTripStoresPlaces(s, userId, form, rebuilt);
  }

  /**
   * Editing an existing trip through the dialog leaves it with the places
   * read back from the dialog's labels that still have a name and a date.
   */
  lemma SubmitEditStoresReparsedPlaces(s: Screen, userId: int, existing: Trip, form: TripForm, places: seq<Place>)
    requires Valid(s.db)
    requires HasTrip(s.db, existing.id)
    requires s.db.placeSeq + |places| <= MaxRowId
    requires ValidateTripForm(form) == None
    ensures var r := SubmitTripDialog(s, userId, Some(existing), form, places);
            Unnumbered(Filter(r.db.places, OfTrip(existing.id)))
              == Stamped(Filter(ReparsePlaces(places, existing.id), IsSaveable()), existing.id)
  {
    SaveEditedTripReplacesPlaces(s, existing, form, ReparsePlaces(places, existing.id));
  }

  // ---------------------------------------------------------------- deleting a trip

  /** `deleteTrip`: the trip leaves the list only when the store reports a deleted row. */
  function DeleteTripAction(s: Screen, trip: Trip): (r: Screen)
    ensures r.db.users == s.db.users
    ensures forall t :: t in r.db.trips <==> t in s.db.trips && t.id != trip.id
    ensures !HasTrip(s.db, trip.id) ==> r == s
    ensures HasTrip(s.db, trip.id) ==> multiset(r.shown) == multiset(s.shown) - multiset{trip}
    ensures HasTrip(s.db, trip.id) && trip !in s.shown ==> r.shown == s.shown
    ensures HasTrip(s.db, trip.id) ==> r.shown == TripList.RemoveTrip(s.shown, trip)
    ensures r.db == s.db.(trips := r.db.trips, places := r.db.places)
    ensures !s.db.foreignKeys ==> r.db.places == s.db.places
    ensures s.db.foreignKeys && HasTrip(s.db, trip.id) ==>
              forall p :: p in r.db.places <==> p in s.db.places && p.tripId != trip.id
  {
    var w := DeleteTrip(s.db, trip.id);
    if w.value > 0 then Screen(w.db, TripList.RemoveTrip(s.shown, trip)) else Screen(w.db, s.shown)
  }

  /**
   * When the list shows exactly the user's trips and the deleted trip is
   * one of them, the list afterwards still shows exactly the user's trips.
   */
  lemma DeleteKeepsListInStep(s: Screen, userId: int, trip: Trip)
    requires Valid(s.db)
    requires multiset(s.shown) == multiset(TripsByUser(s.db, userId))
    requires trip in s.shown
    ensures var r := DeleteTripAction(s, trip);
            multiset(r.shown) == multiset(TripsByUser(r.db, userId))
  {
    var listing := TripsByUser(s.db, userId);
    assert trip in multiset(listing);
    var gone := DeleteTrip(s.db, trip.id);
    assert HasTrip(s.db, trip.id);
    assert DeleteTripAction(s, trip) == Screen(gone.db, TripList.RemoveTrip(s.shown, trip));
    DeleteDropsOneListing(s.db, userId, trip);
  }

  /** Deleting one of the user's trips takes exactly that trip out of the user's listing. */
  lemma DeleteDropsOneListing(db: Db, userId: int, trip: Trip)
    requires IdsIncreasing(db.trips, TripRowId)
    requires trip in TripsByUser(db, userId)
    ensures multiset(TripsByUser(DeleteTrip(db, trip.id).db, userId)) == multiset(TripsByUser(db, userId)) - multiset{trip}
  {
    var gone := DeleteTrip(db, trip.id).db;
    forall t
      ensures multiset(gone.trips)[t] == if t.id == trip.id then 0 else multiset(db.trips)[t]
    {
      DeleteTripCounts(db, trip.id, t);
    }
    ListingWithoutOneTrip(db, gone, userId, trip);
  }

  /** A store that holds every trip of `db` but those with the id of `trip` lists the user's trips less `trip`. */
  lemma ListingWithoutOneTrip(db: Db, gone: Db, userId: int, trip: Trip)
    requires IdsIncreasing(db.trips, TripRowId)
    requires trip in db.trips && trip.userId == userId
    requires forall t :: multiset(gone.trips)[t] == if t.id == trip.id then 0 else multiset(db.trips)[t]
    ensures multiset(TripsByUser(gone, userId)) == multiset(TripsByUser(db, userId)) - multiset{trip}
  {
    IdsIncreasingNoDuplicates(db.trips, TripRowId, trip);
    ListingCountsWithoutTrip(db, gone, userId, trip);
    MultisetLessOne(multiset(TripsByUser(db, userId)), multiset(TripsByUser(gone, userId)), trip);
  }

  /** Pointwise: the listing of `gone` counts every trip as the listing of `db` does, except `trip` itself. */
  lemma ListingCountsWithoutTrip(db: Db, gone: Db, userId: int, trip: Trip)
    requires IdsIncreasing(db.trips, TripRowId)
    requires trip in db.trips
    requires forall t :: multiset(gone.trips)[t] == if t.id == trip.id then 0 else multiset(db.trips)[t]
    ensures forall t :: multiset(TripsByUser(gone, userId))[t] ==
                          if t == trip then 0 else multiset(TripsByUser(db, userId))[t]
  {
    forall t
      ensures multiset(TripsByUser(gone, userId))[t] == if t == trip then 0 else multiset(TripsByUser(db, userId))[t]
    {
      SameIdSameTrip(db, trip, t);
    }
  }

  lemma MultisetLessOne<T>(before: multiset<T>, after: multiset<T>, x: T)
    requires before[x] == 1
    requires forall t :: after[t] == if t == x then 0 else before[t]
    ensures after == before - multiset{x}
  {
    assert forall t :: after[t] == (before - multiset{x})[t];
  }

  lemma SameIdSameTrip(db: Db, trip: Trip, t: Trip)
    requires IdsIncreasing(db.trips, TripRowId)
    requires trip in db.trips
    ensures t.id == trip.id && t != trip ==> multiset(db.trips)[t] == 0
  {
    if t in db.trips {
      IdsIncreasingUnique(db.trips, TripRowId, t, trip);
    }
  }

  /** `deleteTrip` removes every copy of the rows with the id and keeps every copy of the others. */
  lemma DeleteTripCounts(db: Db, tripId: int, t: Trip)
    ensures multiset(DeleteTrip(db, tripId).db.trips)[t] == if t.id == tripId then 0 else multiset(db.trips)[t]
  {
    assert DeleteTrip(db, tripId).db.trips == Filter(db.trips, IdOtherThan(TripRowId, tripId));
    FilterCounts(db.trips, IdOtherThan(TripRowId, tripId));
  }
}

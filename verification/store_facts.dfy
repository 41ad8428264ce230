/**
 * Properties of the gateway across calls: every write keeps the database
 * `Valid`, an inserted row reads back through the matching query, the
 * declared cascade empties a deleted trip's places only when foreign keys
 * are enforced, and AUTOINCREMENT never hands out an id twice.
 */
module StoreFacts {
  import opened Wrappers
  import opened Entities
  import opened Rows
  import opened TravelDb

  // ---------------------------------------------------------------- Valid is kept

  lemma InsertUserKeepsValid(db: Db, user: User)
    requires Valid(db)
    ensures Valid(InsertUser(db, user).db)
  {
    var r := InsertUser(db, user);
    if r.value != InsertFailed {
      var n := |db.users|;
      assert !UserExists(db, user.username);
      assert r.db.users[n].username == user.username;
      forall i, j | 0 <= i < j < |r.db.users|
        ensures r.db.users[i].username != r.db.users[j].username
      {
        assert r.db.users[i] == db.users[i];
        if j < n {
          assert r.db.users[j] == db.users[j];
        }
      }
      forall i | 0 <= i < |r.db.users|
        ensures UserRowId(r.db.users[i]) <= r.db.userSeq
      {
        if i < n {
          assert r.db.users[i] == db.users[i];
        }
      }
      if db.foreignKeys {
        forall t | t in r.db.trips
          ensures HasUser(r.db, t.userId)
        {
          var u :| u in db.users && u.id == t.userId;
          assert u in r.db.users;
        }
      }
    }
  }

  lemma InsertTripKeepsValid(db: Db, trip: Trip)
    requires Valid(db)
    ensures Valid(InsertTrip(db, trip).db)
  {
    var r := InsertTrip(db, trip);
    if r.value != InsertFailed {
      var n := |db.trips|;
      forall i | 0 <= i < |r.db.trips|
        ensures TripRowId(r.db.trips[i]) <= r.db.tripSeq
      {
        if i < n {
          assert r.db.trips[i] == db.trips[i];
        }
      }
      if db.foreignKeys {
        forall p | p in r.db.places
          ensures HasTrip(r.db, p.tripId)
        {
          var t :| t in db.trips && t.id == p.tripId;
          assert t in r.db.trips;
        }
      }
    }
  }

  lemma InsertPlaceKeepsValid(db: Db, place: Place)
    requires Valid(db)
    ensures Valid(InsertPlace(db, place).db)
  {
    var r := InsertPlace(db, place);
    if r.value != InsertFailed {
      var n := |db.places|;
      forall i | 0 <= i < |r.db.places|
        ensures PlaceRowId(r.db.places[i]) <= r.db.placeSeq
      {
        if i < n {
          assert r.db.places[i] == db.places[i];
        }
      }
    }
  }

  /** The columns an update leaves alone: same length, and each row keeps its id and its owner. */
  predicate SameTripKeys(a: seq<Trip>, b: seq<Trip>) {
    |a| == |b| && forall i :: 0 <= i < |a| ==> a[i].id == b[i].id && a[i].userId == b[i].userId
  }

  predicate SamePlaceKeys(a: seq<Place>, b: seq<Place>) {
    |a| == |b| && forall i :: 0 <= i < |a| ==> a[i].id == b[i].id && a[i].tripId == b[i].tripId
  }

  /** `updateTrip` never moves a row or changes its id or owner. */
  lemma UpdateTripKeepsKeys(db: Db, trip: Trip)
    ensures SameTripKeys(db.trips, UpdateTrip(db, trip).db.trips)
  {
  }

  /** `updatePlace` never moves a row or changes its id or trip. */
  lemma UpdatePlaceKeepsKeys(db: Db, place: Place)
    ensures SamePlaceKeys(db.places, UpdatePlace(db, place).db.places)
  {
  }

  lemma TripRewriteKeepsValid(db: Db, trips: seq<Trip>)
    requires Valid(db) && SameTripKeys(db.trips, trips)
    ensures Valid(db.(trips := trips))
  {
    var db' := db.(trips := trips);
    assert forall i :: 0 <= i < |trips| ==> TripRowId(trips[i]) == TripRowId(db.trips[i]);
    if db.foreignKeys {
      forall t | t in trips
        ensures HasUser(db', t.userId)
      {
        var i := PositionOf(trips, t);
        assert db.trips[i] in db.trips;
      }
      forall p | p in db'.places
        ensures HasTrip(db', p.tripId)
      {
        var t :| t in db.trips && t.id == p.tripId;
        var k := PositionOf(db.trips, t);
        assert trips[k] in trips;
      }
    }
  }

  lemma PlaceRewriteKeepsValid(db: Db, places: seq<Place>)
    requires Valid(db) && SamePlaceKeys(db.places, places)
    ensures Valid(db.(places := places))
  {
    assert forall i :: 0 <= i < |places| ==> PlaceRowId(places[i]) == PlaceRowId(db.places[i]);
    if db.foreignKeys {
      forall p | p in places
        ensures HasTrip(db, p.tripId)
      {
        var i := PositionOf(places, p);
        assert db.places[i] in db.places;
      }
    }
  }

  lemma UpdateTripKeepsValid(db: Db, trip: Trip)
    requires Valid(db)
    ensures Valid(UpdateTrip(db, trip).db)
  {
    UpdateTripKeepsKeys(db, trip);
    TripRewriteKeepsValid(db, UpdateTrip(db, trip).db.trips);
  }

  lemma UpdatePlaceKeepsValid(db: Db, place: Place)
    requires Valid(db)
    ensures Valid(UpdatePlace(db, place).db)
  {
    UpdatePlaceKeepsKeys(db, place);
    PlaceRewriteKeepsValid(db, UpdatePlace(db, place).db.places);
  }

  lemma DeleteTripKeepsValid(db: Db, tripId: int)
    requires Valid(db)
    ensures Valid(DeleteTrip(db, tripId).db)
  {
    var r := DeleteTrip(db, tripId);
    assert r.db.trips == WithoutId(db.trips, TripRowId, tripId);
    SubsetKeepsIdsAtMost(r.db.trips, db.trips, TripRowId, db.tripSeq);
    if db.foreignKeys && r.value > 0 {
      var keep := (p: Place) => p.tripId != tripId;
      assert r.db.places == Filter(db.places, keep);
      FilterKeepsIdsIncreasing(db.places, keep, PlaceRowId);
      SubsetKeepsIdsAtMost(r.db.places, db.places, PlaceRowId, db.placeSeq);
      DeleteTripKeepsReferences(db, tripId);
    }
  }

  lemma DeleteTripKeepsReferences(db: Db, tripId: int)
    requires db.foreignKeys && ReferencesIntact(db)
    ensures ReferencesIntact(DeleteTrip(db, tripId).db)
  {
    var r := DeleteTrip(db, tripId);
    forall p | p in r.db.places
      ensures HasTrip(r.db, p.tripId)
    {
      var t :| t in db.trips && t.id == p.tripId;
      if r.value > 0 {
        assert t in r.db.trips;
      }
    }
  }

  lemma DeletePlaceKeepsValid(db: Db, placeId: int)
    requires Valid(db)
    ensures Valid(DeletePlace(db, placeId).db)
  {
    var r := DeletePlace(db, placeId);
    assert r.db.places == WithoutId(db.places, PlaceRowId, placeId);
    SubsetKeepsIdsAtMost(r.db.places, db.places, PlaceRowId, db.placeSeq);
  }

  // ---------------------------------------------------------------- read-back

  /** A user inserted under a new username can log in with the stored password and gets that record back. */
  lemma InsertUserThenAuthenticate(db: Db, user: User)
    ensures var r := InsertUser(db, user);
            r.value != InsertFailed ==>
              AuthenticateUser(r.db, user.username, user.password)
                == Some(User(r.value, user.username, user.password, user.fullName))
  {
    var r := InsertUser(db, user);
    if r.value != InsertFailed {
      var u := User(r.value, user.username, user.password, user.fullName);
      var a := AuthenticateUser(r.db, user.username, user.password);
      assert r.db.users[|db.users|] == u;
      forall i | 0 <= i < |db.users|
        ensures r.db.users[i] != a.value
      {
        assert r.db.users[i] == db.users[i];
      }
    }
  }

  /** After `insertUser`, the username is taken whether or not this call stored it; a second insert fails. */
  lemma InsertUserTakesName(db: Db, user: User, again: User)
    requires NextId(db.users, UserRowId, db.userSeq) <= MaxRowId
    requires again.username == user.username
    ensures UserExists(InsertUser(db, user).db, user.username)
    ensures InsertUser(InsertUser(db, user).db, again).value == InsertFailed
  {
    var r := InsertUser(db, user);
    if r.value != InsertFailed {
      assert r.db.users[|db.users|].username == user.username;
    }
  }

  /** A stored trip is listed among its owner's trips. */
  lemma InsertTripReadBack(db: Db, trip: Trip)
    ensures var r := InsertTrip(db, trip);
            r.value != InsertFailed ==> trip.(id := r.value) in TripsByUser(r.db, trip.userId)
  {
    var r := InsertTrip(db, trip);
    if r.value != InsertFailed {
      assert r.db.trips[|db.trips|] == trip.(id := r.value);
    }
  }

  /** A stored place is listed among its trip's places with the optional fields it was given. */
  lemma InsertPlaceReadBack(db: Db, place: Place)
    ensures var r := InsertPlace(db, place);
            r.value != InsertFailed ==>
              exists p :: p in PlacesByTrip(r.db, place.tripId) && p.id == r.value
                          && p.notes == place.notes && p.comments == place.comments
  {
    var r := InsertPlace(db, place);
    if r.value != InsertFailed {
      assert r.db.places[|db.places|] == place.(id := r.value);
    }
  }

  /** Updating a trip twice with the same record is the same as updating it once. */
  lemma UpdateTripIdempotent(db: Db, trip: Trip)
    ensures var once := UpdateTrip(db, trip).db;
            UpdateTrip(once, trip).db == once
  {
    var once := UpdateTrip(db, trip).db;
    var twice := UpdateTrip(once, trip).db;
    assert twice.trips == once.trips;
  }

  // ---------------------------------------------------------------- cascade

  /** With foreign keys enforced, deleting a trip leaves no place of it behind. */
  lemma DeleteTripCascades(db: Db, tripId: int)
    requires db.foreignKeys
    ensures var r := DeleteTrip(db, tripId);
            r.value > 0 ==> PlacesByTrip(r.db, tripId) == []
  {
  }

  /**
   * As the app opens the database (no enforcement), deleting a trip leaves
   * its places in the table, referring to a trip id that no longer exists.
   */
  lemma DeleteTripOrphansPlaces(db: Db, tripId: int, p: Place)
    requires !db.foreignKeys
    requires p in db.places && p.tripId == tripId
    ensures var r := DeleteTrip(db, tripId);
            p in PlacesByTrip(r.db, tripId) && !HasTrip(r.db, tripId)
  {
    var r := DeleteTrip(db, tripId);
    forall k | 0 <= k < |r.db.trips|
      ensures r.db.trips[k].id != tripId
    {
      assert r.db.trips[k] in r.db.trips;
    }
  }

  // ---------------------------------------------------------------- ids

  /** AUTOINCREMENT never reissues the id of a trip that was deleted. */
  lemma DeletedTripIdNotReused(db: Db, tripId: int, trip: Trip)
    requires Valid(db) && HasTrip(db, tripId)
    ensures var gone := DeleteTrip(db, tripId).db;
            var r := InsertTrip(gone, trip);
            r.value == InsertFailed || r.value > tripId
  {
    var k :| 0 <= k < |db.trips| && db.trips[k].id == tripId;
    assert TripRowId(db.trips[k]) <= db.tripSeq;
  }

  /** Under `Valid`, the next id of every table is its sqlite_sequence entry plus one. */
  lemma NextIdsFollowSequence(db: Db)
    requires Valid(db)
    ensures NextId(db.users, UserRowId, db.userSeq) == db.userSeq + 1
    ensures NextId(db.trips, TripRowId, db.tripSeq) == db.tripSeq + 1
    ensures NextId(db.places, PlaceRowId, db.placeSeq) == db.placeSeq + 1
  {
    NextIdAfterLast(db.users, UserRowId, db.userSeq);
    NextIdAfterLast(db.trips, TripRowId, db.tripSeq);
    NextIdAfterLast(db.places, PlaceRowId, db.placeSeq);
  }

  /** After `onUpgrade` every query is empty and ids start again from 1. */
  lemma UpgradeResets(db: Db, oldVersion: int, newVersion: int, userId: int, tripId: int, user: User)
    ensures var reset := Upgrade(db, oldVersion, newVersion);
            && TripsByUser(reset, userId) == []
            && PlacesByTrip(reset, tripId) == []
            && InsertUser(reset, user).value == 1
  {
  }
}

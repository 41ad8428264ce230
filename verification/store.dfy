/**
 * The persistence gateway (`TravelDbHelper`) over an abstract database.
 *
 * The database holds the three tables created by `onCreate`, each a
 * sequence of rows in rowid order, together with the table's
 * sqlite_sequence entry (the last id AUTOINCREMENT issued) and whether the
 * connection enforces foreign keys. The helper never turns enforcement on,
 * so the app's database is `Open()`, with `foreignKeys == false`; the
 * declared `ON DELETE CASCADE` and the rejection of dangling owner ids
 * happen only when the flag is set.
 *
 * Writes return a `Written`: the new database and the value the Kotlin
 * method returns (a new id or -1 for inserts, an affected-row count for
 * updates and deletes). A failed statement changes nothing.
 */
module TravelDb {
  import opened Wrappers
  import opened Entities
  import opened Collation
  import opened Rows

  /** The largest rowid SQLite can issue; past it AUTOINCREMENT fails with SQLITE_FULL. */
  const MaxRowId: int := 0x7FFF_FFFF_FFFF_FFFF

  /** What `SQLiteDatabase.insert` returns when the statement fails. */
  const InsertFailed: int := -1

  datatype Db = Db(
    users: seq<User>,
    trips: seq<Trip>,
    places: seq<Place>,
    userSeq: nat,
    tripSeq: nat,
    placeSeq: nat,
    foreignKeys: bool)

  /** A write's new database and the value the gateway method returns. */
  datatype Written = Written(db: Db, value: int)

  // ---------------------------------------------------------------- invariants

  predicate HasUser(db: Db, id: int) {
    exists u :: u in db.users && u.id == id
  }

  predicate HasTrip(db: Db, id: int) {
    exists t :: t in db.trips && t.id == id
  }

  /** The `UNIQUE` constraint on `users.username`. */
  predicate UsernamesUnique(users: seq<User>) {
    forall i, j :: 0 <= i < j < |users| ==> users[i].username != users[j].username
  }

  /** Every trip's owner and every place's trip exist. */
  predicate ReferencesIntact(db: Db) {
    && (forall t :: t in db.trips ==> HasUser(db, t.userId))
    && (forall p :: p in db.places ==> HasTrip(db, p.tripId))
  }

  /**
   * What every database the gateway produces satisfies: tables in rowid
   * order (so ids are unique), no id above the table's sqlite_sequence
   * entry, unique usernames, and, when the connection enforces foreign
   * keys, no dangling owner reference.
   */
  predicate Valid(db: Db) {
    && IdsIncreasing(db.users, UserRowId)
    && IdsIncreasing(db.trips, TripRowId)
    && IdsIncreasing(db.places, PlaceRowId)
    && IdsAtMost(db.users, UserRowId, db.userSeq)
    && IdsAtMost(db.trips, TripRowId, db.tripSeq)
    && IdsAtMost(db.places, PlaceRowId, db.placeSeq)
    && UsernamesUnique(db.users)
    && (db.foreignKeys ==> ReferencesIntact(db))
  }

  // ---------------------------------------------------------------- schema

  /** `onCreate`: three empty tables and no ids issued yet. */
  function Create(foreignKeys: bool): (db: Db)
    ensures Valid(db)
    ensures db.foreignKeys == foreignKeys
    ensures forall id :: !HasUser(db, id) && !HasTrip(db, id)
    ensures |db.places| == 0
  {
    Db([], [], [], 0, 0, 0, foreignKeys)
  }

  /** The database the app opens: enforcement of foreign keys is off, SQLite's default. */
  function Open(): (db: Db)
    ensures Valid(db) && !db.foreignKeys
  {
    Create(false)
  }

  /**
   * `onUpgrade`: drops places, trips and users (dropping a table also drops
   * its sqlite_sequence entry) and recreates them empty, whatever the versions.
   */
  function Upgrade(db: Db, oldVersion: int, newVersion: int): (r: Db)
    ensures Valid(r)
    ensures r.users == [] && r.trips == [] && r.places == []
    ensures r.foreignKeys == db.foreignKeys
  {
    Create(db.foreignKeys)
  }

  // ---------------------------------------------------------------- users

  function Named(username: string): User -> bool {
    (u: User) => u.username == username
  }

  function WithCredentials(username: string, password: string): User -> bool {
    (u: User) => u.username == username && u.password == password
  }

  /** `userExists`: `SELECT id FROM users WHERE username = ?` returned at least one row. */
  function UserExists(db: Db, username: string): (r: bool)
    ensures r <==> exists i :: 0 <= i < |db.users| && db.users[i].username == username
  {
    var m := Filter(db.users, Named(username));
    assert |m| > 0 ==> m[0] in db.users;
    assert forall i :: 0 <= i < |db.users| && db.users[i].username == username ==> db.users[i] in m by {
      forall i | 0 <= i < |db.users| && db.users[i].username == username ensures db.users[i] in m {
        assert Named(username)(db.users[i]);
      }
    }
    |m| > 0
  }

  /**
   * `authenticateUser`: the first row of
   * `SELECT * FROM users WHERE username = ? AND password = ?`, or null.
   */
  function AuthenticateUser(db: Db, username: string, password: string): (r: Option<User>)
    ensures r.Some? <==> exists i :: 0 <= i < |db.users| && db.users[i].username == username && db.users[i].password == password
    ensures r.Some? ==> r.value in db.users && r.value.username == username && r.value.password == password
    ensures UsernamesUnique(db.users) ==>
              forall i :: 0 <= i < |db.users| && db.users[i].username == username && db.users[i].password == password ==>
                r == Some(db.users[i])
  {
    var m := Filter(db.users, WithCredentials(username, password));
    assert forall i :: 0 <= i < |db.users| && db.users[i].username == username && db.users[i].password == password ==>
             db.users[i] in m by {
      forall i | 0 <= i < |db.users| && db.users[i].username == username && db.users[i].password == password
        ensures db.users[i] in m
      {
        assert WithCredentials(username, password)(db.users[i]);
      }
    }
    if |m| == 0 then None
    else
      assert m[0] in db.users;
      Some(m[0])
  }

  /**
   * `insertUser`: inserts username, password and full name; the id is
   * assigned by AUTOINCREMENT. Fails on the `UNIQUE` username and when
   * no id is left.
   */
  function InsertUser(db: Db, user: User): (r: Written)
    ensures r.value == InsertFailed ==> r.db == db
    ensures UserExists(db, user.username) ==> r.value == InsertFailed
    ensures !UserExists(db, user.username) && NextId(db.users, UserRowId, db.userSeq) <= MaxRowId ==>
              r.value != InsertFailed
    ensures r.value != InsertFailed ==>
              && db.userSeq < r.value <= MaxRowId
              && (forall i :: 0 <= i < |db.users| ==> db.users[i].id < r.value)
              && r.db.users == db.users + [User(r.value, user.username, user.password, user.fullName)]
              && r.db == db.(users := r.db.users, userSeq := r.value)
  {
    var id := NextId(db.users, UserRowId, db.userSeq);
    if UserExists(db, user.username) || id > MaxRowId then Written(db, InsertFailed)
    else Written(db.(users := db.users + [user.(id := id)], userSeq := id), id)
  }

  // ---------------------------------------------------------------- trips

  function OwnedBy(userId: int): Trip -> bool {
    (t: Trip) => t.userId == userId
  }

  function InCountry(country: string): Trip -> bool {
    (t: Trip) => t.country == country
  }

  /**
   * `insertTrip`: inserts every column but the id. With foreign keys
   * enforced, an owner id naming no user makes the insert fail.
   */
  function InsertTrip(db: Db, trip: Trip): (r: Written)
    ensures r.value == InsertFailed ==> r.db == db
    ensures db.foreignKeys && !HasUser(db, trip.userId) ==> r.value == InsertFailed
    ensures (!db.foreignKeys || HasUser(db, trip.userId)) && NextId(db.trips, TripRowId, db.tripSeq) <= MaxRowId ==>
              r.value != InsertFailed
    ensures r.value != InsertFailed ==>
              && db.tripSeq < r.value <= MaxRowId
              && (forall i :: 0 <= i < |db.trips| ==> db.trips[i].id < r.value)
              && r.db.trips == db.trips + [trip.(id := r.value)]
              && r.db == db.(trips := r.db.trips, tripSeq := r.value)
  {
    var id := NextId(db.trips, TripRowId, db.tripSeq);
    if (db.foreignKeys && !HasUser(db, trip.userId)) || id > MaxRowId then Written(db, InsertFailed)
    else Written(db.(trips := db.trips + [trip.(id := id)], tripSeq := id), id)
  }

  /** `getTripsByUserId`: `SELECT * FROM trips WHERE user_id = ? ORDER BY start_date DESC`. */
  function TripsByUser(db: Db, userId: int): (r: seq<Trip>)
    ensures forall t :: t in r <==> t in db.trips && t.userId == userId
    ensures forall t :: multiset(r)[t] == if t.userId == userId then multiset(db.trips)[t] else 0
    ensures SortedBy(r, StartDate, Desc)
  {
    FilterCounts(db.trips, OwnedBy(userId));
    SortBy(Filter(db.trips, OwnedBy(userId)), StartDate, Desc)
  }

  /** A trip as `getTripsByCountry` materialises it: comment and rating are not read back. */
  function WithoutReview(t: Trip): Trip {
    Trip(id := t.id, name := t.name, country := t.country, startDate := t.startDate,
         endDate := t.endDate, userId := t.userId)
  }

  function WithoutReviews(rows: seq<Trip>): (r: seq<Trip>)
    ensures |r| == |rows|
    ensures forall i :: 0 <= i < |rows| ==> r[i] == WithoutReview(rows[i])
  {
    if |rows| == 0 then [] else [WithoutReview(rows[0])] + WithoutReviews(rows[1..])
  }

  /** The rows `getTripsByCountry` selects, in the order it returns them. */
  function TripsInCountry(db: Db, country: string): (r: seq<Trip>)
    ensures forall t :: t in r <==> t in db.trips && t.country == country
    ensures |r| == |Filter(db.trips, InCountry(country))|
    ensures forall t :: multiset(r)[t] == if t.country == country then multiset(db.trips)[t] else 0
    ensures SortedBy(r, StartDate, Desc)
  {
    FilterCounts(db.trips, InCountry(country));
    var selected := Filter(db.trips, InCountry(country));
    var r := SortBy(selected, StartDate, Desc);
    assert forall t :: t in r <==> t in multiset(selected);
    assert |r| == |multiset(r)| == |multiset(selected)| == |selected|;
    r
  }

  /**
   * `getTripsByCountry`: `SELECT * FROM trips WHERE country = ? ORDER BY
   * start_date DESC`, across all users; the records it builds leave comment
   * and rating at their defaults whatever is stored.
   */
  function TripsByCountry(db: Db, country: string): (r: seq<Trip>)
    ensures |r| == |Filter(db.trips, InCountry(country))|
    ensures forall i :: 0 <= i < |r| ==> r[i].comment == None && r[i].rating == 0
    ensures forall t :: t in db.trips && t.country == country ==> WithoutReview(t) in r
    ensures forall x :: x in r ==> exists t :: t in db.trips && t.country == country && x == WithoutReview(t)
    ensures SortedBy(r, StartDate, Desc)
  {
    var rows := TripsInCountry(db, country);
    var r := WithoutReviews(rows);
    WithoutReviewsMembers(rows);
    WithoutReviewsKeepOrder(rows);
    r
  }

  lemma WithoutReviewsMembers(rows: seq<Trip>)
    ensures forall t :: t in rows ==> WithoutReview(t) in WithoutReviews(rows)
    ensures forall x :: x in WithoutReviews(rows) ==> exists t :: t in rows && x == WithoutReview(t)
  {
    var r := WithoutReviews(rows);
    forall x | x in r
      ensures exists t :: t in rows && x == WithoutReview(t)
    {
      var i :| 0 <= i < |r| && r[i] == x;
      assert rows[i] in rows;
    }
    forall t | t in rows
      ensures WithoutReview(t) in r
    {
      var j :| 0 <= j < |rows| && rows[j] == t;
      assert r[j] == WithoutReview(t);
    }
  }

  lemma WithoutReviewsKeepOrder(rows: seq<Trip>)
    ensures SortedBy(rows, StartDate, Desc) ==> SortedBy(WithoutReviews(rows), StartDate, Desc)
  {
    var r := WithoutReviews(rows);
    assert forall i :: 0 <= i < |r| ==> StartDate(r[i]) == StartDate(rows[i]);
  }

  /** The `SET` list of `updateTrip`: every column but the id and the owner. */
  function Revise(row: Trip, trip: Trip): Trip {
    row.(name := trip.name, country := trip.country, startDate := trip.startDate,
         endDate := trip.endDate, comment := trip.comment, rating := trip.rating)
  }

  function RevisedBy(trip: Trip): Trip -> Trip {
    (row: Trip) => Revise(row, trip)
  }

  lemma RevisedRows(rows: seq<Trip>, trip: Trip)
    ensures forall i :: 0 <= i < |rows| && rows[i].id == trip.id ==>
              ReplaceWhereId(rows, TripRowId, trip.id, RevisedBy(trip))[i] == trip.(userId := rows[i].userId)
  {
    var r := ReplaceWhereId(rows, TripRowId, trip.id, RevisedBy(trip));
    forall i | 0 <= i < |rows| && rows[i].id == trip.id
      ensures r[i] == trip.(userId := rows[i].userId)
    {
      assert r[i] == Revise(rows[i], trip);
    }
  }

  /** `updateTrip`: `UPDATE trips SET ... WHERE id = ?`, returning the number of rows changed. */
  function UpdateTrip(db: Db, trip: Trip): (r: Written)
    ensures r.db == db.(trips := r.db.trips)
    ensures |r.db.trips| == |db.trips|
    ensures forall i :: 0 <= i < |db.trips| && db.trips[i].id == trip.id ==>
              r.db.trips[i] == trip.(userId := db.trips[i].userId)
    ensures forall i :: 0 <= i < |db.trips| && db.trips[i].id != trip.id ==> r.db.trips[i] == db.trips[i]
    ensures r.value == 0 <==> !HasTrip(db, trip.id)
    ensures r.value == 0 ==> r.db == db
    ensures IdsIncreasing(db.trips, TripRowId) ==> r.value <= 1
  {
    var trips := ReplaceWhereId(db.trips, TripRowId, trip.id, RevisedBy(trip));
    RevisedRows(db.trips, trip);
    var n := CountId(db.trips, TripRowId, trip.id);
    assert n == 0 <==> !HasTrip(db, trip.id) by {
      assert forall i :: 0 <= i < |db.trips| ==> TripRowId(db.trips[i]) == db.trips[i].id;
    }
    Written(db.(trips := trips), n)
  }

  /**
   * `deleteTrip`: `DELETE FROM trips WHERE id = ?`, returning the number of
   * rows removed. With foreign keys enforced, `ON DELETE CASCADE` also
   * removes the places of the removed trip.
   */
  function DeleteTrip(db: Db, tripId: int): (r: Written)
    ensures r.db == db.(trips := r.db.trips, places := r.db.places)
    ensures r.value == |db.trips| - |r.db.trips|
    ensures forall t :: t in r.db.trips <==> t in db.trips && t.id != tripId
    ensures Subsequence(r.db.trips, db.trips)
    ensures r.value == 0 <==> !HasTrip(db, tripId)
    ensures r.value == 0 ==> r.db == db
    ensures IdsIncreasing(db.trips, TripRowId) ==> r.value <= 1
    ensures db.foreignKeys && r.value > 0 ==>
              forall p :: p in r.db.places <==> p in db.places && p.tripId != tripId
    ensures !db.foreignKeys ==> r.db.places == db.places
  {
    var trips := WithoutId(db.trips, TripRowId, tripId);
    var n := |db.trips| - |trips|;
    assert n == 0 <==> !HasTrip(db, tripId) by {
      assert forall i :: 0 <= i < |db.trips| ==> TripRowId(db.trips[i]) == db.trips[i].id;
    }
    var places := if db.foreignKeys && n > 0 then Filter(db.places, (p: Place) => p.tripId != tripId) else db.places;
    Written(db.(trips := trips, places := places), n)
  }

  // ---------------------------------------------------------------- places

  function OfTrip(tripId: int): Place -> bool {
    (p: Place) => p.tripId == tripId
  }

  /**
   * `insertPlace`: inserts every column but the id. With foreign keys
   * enforced, a trip id naming no trip makes the insert fail.
   */
  function InsertPlace(db: Db, place: Place): (r: Written)
    ensures r.value == InsertFailed ==> r.db == db
    ensures db.foreignKeys && !HasTrip(db, place.tripId) ==> r.value == InsertFailed
    ensures (!db.foreignKeys || HasTrip(db, place.tripId)) && NextId(db.places, PlaceRowId, db.placeSeq) <= MaxRowId ==>
              r.value != InsertFailed
    ensures r.value != InsertFailed ==>
              && db.placeSeq < r.value <= MaxRowId
              && (forall i :: 0 <= i < |db.places| ==> db.places[i].id < r.value)
              && r.db.places == db.places + [place.(id := r.value)]
              && r.db == db.(places := r.db.places, placeSeq := r.value)
  {
    var id := NextId(db.places, PlaceRowId, db.placeSeq);
    if (db.foreignKeys && !HasTrip(db, place.tripId)) || id > MaxRowId then Written(db, InsertFailed)
    else Written(db.(places := db.places + [place.(id := id)], placeSeq := id), id)
  }

  /** `getPlacesByTripId`: `SELECT * FROM places WHERE trip_id = ? ORDER BY visit_date ASC`. */
  function PlacesByTrip(db: Db, tripId: int): (r: seq<Place>)
    ensures forall p :: p in r <==> p in db.places && p.tripId == tripId
    ensures forall p :: multiset(r)[p] == if p.tripId == tripId then multiset(db.places)[p] else 0
    ensures SortedBy(r, VisitDate, Asc)
  {
    FilterCounts(db.places, OfTrip(tripId));
    SortBy(Filter(db.places, OfTrip(tripId)), VisitDate, Asc)
  }

  /** The `SET` list of `updatePlace`: name, notes, comments and visit date. */
  function RevisePlace(row: Place, place: Place): Place {
    row.(name := place.name, notes := place.notes, comments := place.comments, visitDate := place.visitDate)
  }

  function PlaceRevisedBy(place: Place): Place -> Place {
    (row: Place) => RevisePlace(row, place)
  }

  /** `updatePlace`: `UPDATE places SET ... WHERE id = ?`, returning the number of rows changed. */
  function UpdatePlace(db: Db, place: Place): (r: Written)
    ensures r.db == db.(places := r.db.places)
    ensures |r.db.places| == |db.places|
    ensures forall i :: 0 <= i < |db.places| && db.places[i].id == place.id ==>
              r.db.places[i] == place.(tripId := db.places[i].tripId)
    ensures forall i :: 0 <= i < |db.places| && db.places[i].id != place.id ==> r.db.places[i] == db.places[i]
    ensures r.value == 0 <==> forall i :: 0 <= i < |db.places| ==> db.places[i].id != place.id
    ensures r.value == 0 ==> r.db == db
    ensures IdsIncreasing(db.places, PlaceRowId) ==> r.value <= 1
  {
    var places := ReplaceWhereId(db.places, PlaceRowId, place.id, PlaceRevisedBy(place));
    var n := CountId(db.places, PlaceRowId, place.id);
    Written(db.(places := places), n)
  }

  /** `deletePlace`: `DELETE FROM places WHERE id = ?`, returning the number of rows removed. */
  function DeletePlace(db: Db, placeId: int): (r: Written)
    ensures r.db == db.(places := r.db.places)
    ensures r.value == |db.places| - |r.db.places|
    ensures forall p :: p in r.db.places <==> p in db.places && p.id != placeId
    ensures r.value == 0 <==> forall i :: 0 <= i < |db.places| ==> db.places[i].id != placeId
    ensures r.value == 0 ==> r.db == db
    ensures IdsIncreasing(db.places, PlaceRowId) ==> r.value <= 1
  {
    var places := WithoutId(db.places, PlaceRowId, placeId);
    Written(db.(places := places), |db.places| - |places|)
  }
}

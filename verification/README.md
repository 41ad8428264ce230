# Travel diary — a Dafny model

Diário de Viagens is an Android app for keeping a diary of trips. A user
logs in or registers. They then list their trips, newest start date first,
optionally limited to one country. They can add, edit and delete trips. Each
trip carries a list of visited places, edited inside the trip dialog and
written to the database when the trip is saved. Everything is stored in a
local SQLite database with three tables (`users`, `trips`, `places`).

This project models the core of that app as pure functions over immutable
values:

- `Entities` (entities.dfy): the three records, with the Kotlin defaults
  (`id = 0`, `comment = null`, `rating = 0`).
- `TravelDb` (store.dfy): the database helper as a value `Db`. It holds the
  three tables as sequences, the three AUTOINCREMENT counters of
  `sqlite_sequence`, and whether SQLite enforces foreign keys. Every write
  returns the new database together with the value the Kotlin method
  returns: the row id or -1 for inserts, the number of rows affected for
  updates and deletes. `Valid` is the table invariant:
  - row ids increase along each table and never exceed the table's counter;
  - usernames are unique;
  - when foreign keys are enforced, every reference resolves.
- `StoreFacts` (store_facts.dfy): the store operations keep `Valid`; what is
  written can be read back; the ON DELETE CASCADE behaviour, and what
  happens without it.
- `Rows` and `Collation` (rows.dfy, collation.dfy): the SQL vocabulary:
  - `WHERE` as `Filter`;
  - `ORDER BY ... ASC/DESC` as a sort on the binary string collation;
  - AUTOINCREMENT as `NextId`.
- `KotlinText` (text.dfy): `trim()`, `length` in UTF-16 code units,
  `split` and `replace`.
- `PlaceLabel` (label.dfy): the `name (date)` label under which a place is
  shown in the trip dialog, and the parse that reads the label back.
- `TripList` (trip_list.dfy): `TripAdapter`'s list operations.
- `Login` (login.dfy): field validation, login, registration and the
  default `admin` account.
- `PlaceEditing` (place_editing.dfy): the trip dialog's in-memory list of
  places: add, edit, remove, and the re-read from the labels before saving.
- `PlaceSaving` (place_saving.dfy): the loops that save a trip's places:
  insert the saveable ones; when editing, first delete the old ones.
- `TripScreen` (trip_screen.dfy): the main screen. It covers the listing and
  the country filter, trip form validation, saving a new or edited trip
  with its places, and deleting a trip while keeping the on-screen list in
  step with the database.

Two behaviours of the code deserve a note:

- The schema declares `ON DELETE CASCADE` on both foreign keys
  (lines 74 and 87 of `TravelDbHelper.kt`). The helper never enables
  foreign keys, though: there is no `onConfigure` and no
  `PRAGMA foreign_keys`. SQLite therefore ignores these clauses while the
  app runs. The model keeps both behaviours behind the `foreignKeys` flag,
  and `TravelDb.Open` sets it to false. `StoreFacts.DeleteTripCascades`
  states what the schema declares. `StoreFacts.DeleteTripOrphansPlaces`
  states what happens in the app: the places stay, pointing at a missing
  trip.
- Dates are compared as text, as `ORDER BY start_date` does. They are
  ordered chronologically only when they are well-formed `yyyy-MM-dd`
  strings, and nothing checks that form.

One behaviour of the code is modelled as written although it loses data.
Before saving, the trip dialog re-reads every place from its
`name (date)` label (lines 330-331 of `MainActivity.kt`). The name read back is
the text before the first `(` of the label, trimmed. The date read back is
the text between the first and the second `(` of the label, with every
`)` removed, trimmed. A `(` in the name therefore cuts the name and also
replaces the date; a `(` or `)` in the date alters the date. Such a place
is stored altered. See `PlaceLabel.NameWithParenthesisIsCut` and the
`Recoverable` clause of `PlaceEditing.Reparse`.

All paths below are relative to
`app/src/main/java/com/trabalhofinal/diariodeviagens/`. In the table they
are written in full.

## Model

| member | source | states |
|---|---|---|
| TravelDb.Create | app/src/main/java/com/trabalhofinal/diariodeviagens/data/TravelDbHelper.kt:52-94 | the three new tables are empty, no user or trip id resolves, and the invariant (unique usernames, increasing ids bounded by the counters, intact references) holds |
| TravelDb.Open | app/src/main/java/com/trabalhofinal/diariodeviagens/data/TravelDbHelper.kt:15-19 | the database the app opens satisfies the invariant and does not enforce foreign keys |
| TravelDb.Upgrade | app/src/main/java/com/trabalhofinal/diariodeviagens/data/TravelDbHelper.kt:99-105 | dropping and recreating the tables leaves all three empty and keeps the invariant |
| TravelDb.UserExists | app/src/main/java/com/trabalhofinal/diariodeviagens/data/TravelDbHelper.kt:129-141 | true exactly when some row has that username |
| TravelDb.AuthenticateUser | app/src/main/java/com/trabalhofinal/diariodeviagens/data/TravelDbHelper.kt:149-172 | a user is returned exactly when a row matches both username and password; the returned user is such a row, and with unique usernames it is the only one |
| TravelDb.InsertUser | app/src/main/java/com/trabalhofinal/diariodeviagens/data/TravelDbHelper.kt:114-122 | -1 and no change when the username is taken or ids are exhausted; otherwise the row is appended with the next AUTOINCREMENT id, which is returned |
| TravelDb.InsertTrip | app/src/main/java/com/trabalhofinal/diariodeviagens/data/TravelDbHelper.kt:181-193 | -1 and no change when an enforced foreign key names no user or ids are exhausted; otherwise the trip is appended under the next id, which is returned |
| TravelDb.TripsByUser | app/src/main/java/com/trabalhofinal/diariodeviagens/data/TravelDbHelper.kt:200-227 | the user's trips, each as often as stored and no other row, ordered by start date descending |
| TravelDb.TripsInCountry | app/src/main/java/com/trabalhofinal/diariodeviagens/data/TravelDbHelper.kt:237-243 | the rows of that country, each as often as stored and no other row, ordered by start date descending |
| TravelDb.TripsByCountry | app/src/main/java/com/trabalhofinal/diariodeviagens/data/TravelDbHelper.kt:234-259 | one result per trip of that country, in start-date order, each read back without comment and rating, and every such trip appears |
| TravelDb.WithoutReviews | app/src/main/java/com/trabalhofinal/diariodeviagens/data/TravelDbHelper.kt:247-255 | pointwise, each row loses its comment and rating and keeps everything else |
| TravelDb.WithoutReviewsMembers | app/src/main/java/com/trabalhofinal/diariodeviagens/data/TravelDbHelper.kt:247-255 | a trip is read back exactly when it was selected: no row is lost or invented by the cursor loop |
| TravelDb.WithoutReviewsKeepOrder | app/src/main/java/com/trabalhofinal/diariodeviagens/data/TravelDbHelper.kt:243-255 | dropping the comment and rating keeps the start-date order of the query |
| TravelDb.RevisedRows | app/src/main/java/com/trabalhofinal/diariodeviagens/data/TravelDbHelper.kt:266-282 | the `SET` list rewrites every column of the matching row except its id and owner |
| TravelDb.UpdateTrip | app/src/main/java/com/trabalhofinal/diariodeviagens/data/TravelDbHelper.kt:266-282 | only the trips table changes; rows with that id take the new values except the owner, the rest are untouched; 0 rows (and no change) exactly when the id is absent, at most 1 with unique ids |
| TravelDb.DeleteTrip | app/src/main/java/com/trabalhofinal/diariodeviagens/data/TravelDbHelper.kt:289-296 | exactly the trips with that id are gone, the rest keep their order; the count is the rows removed (0 exactly when absent, at most 1); places are cascaded only when foreign keys are enforced |
| TravelDb.InsertPlace | app/src/main/java/com/trabalhofinal/diariodeviagens/data/TravelDbHelper.kt:305-315 | -1 and no change when an enforced foreign key names no trip or ids are exhausted; otherwise appended under the next id |
| TravelDb.PlacesByTrip | app/src/main/java/com/trabalhofinal/diariodeviagens/data/TravelDbHelper.kt:322-347 | the trip's places, each as often as stored and nothing else, ordered by visit date ascending |
| TravelDb.UpdatePlace | app/src/main/java/com/trabalhofinal/diariodeviagens/data/TravelDbHelper.kt:354-368 | only the places table changes; the row with that id gets the new name, notes, comments and date and keeps id and trip; 0 rows exactly when absent |
| TravelDb.DeletePlace | app/src/main/java/com/trabalhofinal/diariodeviagens/data/TravelDbHelper.kt:375-382 | exactly the places with that id go; the count is the rows removed, 0 exactly when absent, at most 1 |
| Rows.NextId | app/src/main/java/com/trabalhofinal/diariodeviagens/data/TravelDbHelper.kt:56 | AUTOINCREMENT: the new id exceeds every id ever issued and every id present, and is one past one of them |
| Rows.IdsIncreasingUnique | app/src/main/java/com/trabalhofinal/diariodeviagens/data/TravelDbHelper.kt:56 | an `INTEGER PRIMARY KEY` identifies its row: two rows with one id are the same row |
| Rows.SortBy | app/src/main/java/com/trabalhofinal/diariodeviagens/data/TravelDbHelper.kt:209 | `ORDER BY`: the result is sorted in the requested direction and is a permutation of the input |
| Rows.FilterKeepsSorted | app/src/main/java/com/trabalhofinal/diariodeviagens/ui/MainActivity.kt:141-146 | filtering a sorted listing, as the country filter does, keeps it sorted |
| Collation.LeTransitive | app/src/main/java/com/trabalhofinal/diariodeviagens/data/TravelDbHelper.kt:209 | the text order used by `ORDER BY` on a date column is transitive |
| Collation.LeAntisymmetric | app/src/main/java/com/trabalhofinal/diariodeviagens/data/TravelDbHelper.kt:209 | two texts each at or before the other are equal |
| Collation.LeTotal | app/src/main/java/com/trabalhofinal/diariodeviagens/data/TravelDbHelper.kt:209 | any two texts are comparable |
| StoreFacts.InsertUserKeepsValid | app/src/main/java/com/trabalhofinal/diariodeviagens/data/TravelDbHelper.kt:55-62 | inserting a user keeps the UNIQUE username, id and reference invariants |
| StoreFacts.InsertTripKeepsValid | app/src/main/java/com/trabalhofinal/diariodeviagens/data/TravelDbHelper.kt:65-76 | inserting a trip keeps the invariant |
| StoreFacts.InsertPlaceKeepsValid | app/src/main/java/com/trabalhofinal/diariodeviagens/data/TravelDbHelper.kt:80-89 | inserting a place keeps the invariant |
| StoreFacts.UpdateTripKeepsValid | app/src/main/java/com/trabalhofinal/diariodeviagens/data/TravelDbHelper.kt:266-282 | updating a trip keeps the invariant, because ids and owners are left alone |
| StoreFacts.UpdatePlaceKeepsValid | app/src/main/java/com/trabalhofinal/diariodeviagens/data/TravelDbHelper.kt:354-368 | updating a place keeps the invariant |
| StoreFacts.DeleteTripKeepsValid | app/src/main/java/com/trabalhofinal/diariodeviagens/data/TravelDbHelper.kt:289-296 | deleting a trip keeps the invariant, including intact references when foreign keys are enforced |
| StoreFacts.DeleteTripKeepsReferences | app/src/main/java/com/trabalhofinal/diariodeviagens/data/TravelDbHelper.kt:87 | with enforcement, the cascade leaves no place pointing at a missing trip |
| StoreFacts.DeletePlaceKeepsValid | app/src/main/java/com/trabalhofinal/diariodeviagens/data/TravelDbHelper.kt:375-382 | deleting a place keeps the invariant |
| StoreFacts.InsertUserThenAuthenticate | app/src/main/java/com/trabalhofinal/diariodeviagens/data/TravelDbHelper.kt:114-172 | a user just inserted authenticates with its username and password and comes back with the returned id |
| StoreFacts.InsertUserTakesName | app/src/main/java/com/trabalhofinal/diariodeviagens/data/TravelDbHelper.kt:57 | after an insert the username exists and a second insert under that name fails |
| StoreFacts.InsertTripReadBack | app/src/main/java/com/trabalhofinal/diariodeviagens/data/TravelDbHelper.kt:181-227 | a trip just inserted is listed among its user's trips with the returned id |
| StoreFacts.InsertPlaceReadBack | app/src/main/java/com/trabalhofinal/diariodeviagens/data/TravelDbHelper.kt:305-347 | a place just inserted is listed among its trip's places with its notes and comments |
| StoreFacts.UpdateTripIdempotent | app/src/main/java/com/trabalhofinal/diariodeviagens/data/TravelDbHelper.kt:266-282 | running the same update twice changes nothing the first did not |
| StoreFacts.DeleteTripCascades | app/src/main/java/com/trabalhofinal/diariodeviagens/data/TravelDbHelper.kt:87 | with enforcement, a deleted trip has no places left |
| StoreFacts.DeleteTripOrphansPlaces | app/src/main/java/com/trabalhofinal/diariodeviagens/data/TravelDbHelper.kt:289-296 | without enforcement, a deleted trip's places stay and refer to a trip that no longer exists |
| StoreFacts.DeletedTripIdNotReused | app/src/main/java/com/trabalhofinal/diariodeviagens/data/TravelDbHelper.kt:66 | AUTOINCREMENT never hands out the id of a deleted trip again |
| StoreFacts.NextIdsFollowSequence | app/src/main/java/com/trabalhofinal/diariodeviagens/data/TravelDbHelper.kt:56-81 | under the invariant each table's next id is its sequence counter plus one |
| StoreFacts.UpgradeResets | app/src/main/java/com/trabalhofinal/diariodeviagens/data/TravelDbHelper.kt:99-105 | after an upgrade every listing is empty and the next user gets id 1 |
| KotlinText.Trim | app/src/main/java/com/trabalhofinal/diariodeviagens/ui/LoginActivity.kt:69-70 | `trim()` gives a string with no whitespace at either end, no longer than the input, unchanged when already trimmed, and empty exactly when the input is all whitespace |
| KotlinText.TrimIsSlice | app/src/main/java/com/trabalhofinal/diariodeviagens/ui/LoginActivity.kt:69-70 | what `trim()` returns is a slice of its input, with only whitespace cut off before and after it |
| KotlinText.TrimIdempotent | app/src/main/java/com/trabalhofinal/diariodeviagens/ui/MainActivity.kt:228-230 | trimming twice is trimming once |
| KotlinText.Utf16Length | app/src/main/java/com/trabalhofinal/diariodeviagens/ui/LoginActivity.kt:153 | `length` counts UTF-16 code units: exactly the number of characters plus one for each character beyond the Basic Multilingual Plane |
| KotlinText.Split | app/src/main/java/com/trabalhofinal/diariodeviagens/ui/MainActivity.kt:330-331 | `split` gives at least one piece, none containing the separator, which joined back give the input; a single piece exactly when the separator is absent |
| KotlinText.SplitJoin | app/src/main/java/com/trabalhofinal/diariodeviagens/ui/MainActivity.kt:330-331 | splitting the join of separator-free pieces gives the pieces back |
| KotlinText.RemoveAll | app/src/main/java/com/trabalhofinal/diariodeviagens/ui/MainActivity.kt:331 | `replace(")", "")` is the input filtered to the characters other than the removed one: same order, nothing added, no longer than before |
| KotlinText.RemoveAllAppend | app/src/main/java/com/trabalhofinal/diariodeviagens/ui/MainActivity.kt:331 | removing a character distributes over concatenation |
| PlaceLabel.Label | app/src/main/java/com/trabalhofinal/diariodeviagens/ui/MainActivity.kt:203 | the label always contains `(`, so the parse can index its second piece |
| PlaceLabel.ParseLabel | app/src/main/java/com/trabalhofinal/diariodeviagens/ui/MainActivity.kt:330-331 | the name read back is trimmed and free of `(`; the date is trimmed and free of both parentheses |
| PlaceLabel.LabelRoundTrip | app/src/main/java/com/trabalhofinal/diariodeviagens/ui/MainActivity.kt:203-331 | a label parses back to its name and date exactly when both are trimmed, neither holds `(`, and the date holds no `)` |
| PlaceLabel.NameWithParenthesisIsCut | app/src/main/java/com/trabalhofinal/diariodeviagens/ui/MainActivity.kt:330 | a name containing `(` never survives the label |
| PlaceLabel.ParseLabelStable | app/src/main/java/com/trabalhofinal/diariodeviagens/ui/MainActivity.kt:323-334 | relabelling what was read back and reading again changes nothing |
| TripList.ItemCount | app/src/main/java/com/trabalhofinal/diariodeviagens/ui/adapter/TripAdapter.kt:72 | the count is zero exactly when the list is empty |
| TripList.UpdateTrips | app/src/main/java/com/trabalhofinal/diariodeviagens/ui/adapter/TripAdapter.kt:78-82 | the adapter shows exactly the new list, whatever it showed before |
| TripList.AddTrip | app/src/main/java/com/trabalhofinal/diariodeviagens/ui/adapter/TripAdapter.kt:88-91 | the trip becomes the first item and the old items follow, shifted by one |
| TripList.IndexOf | app/src/main/java/com/trabalhofinal/diariodeviagens/ui/adapter/TripAdapter.kt:98 | -1 exactly when the trip is absent, else the first position holding an equal trip |
| TripList.IndexOfId | app/src/main/java/com/trabalhofinal/diariodeviagens/ui/adapter/TripAdapter.kt:110 | -1 exactly when no item has the id, else the first position with it |
| TripList.RemoveTrip | app/src/main/java/com/trabalhofinal/diariodeviagens/ui/adapter/TripAdapter.kt:97-103 | one occurrence of an equal trip goes (the first), the rest keep their order; nothing changes when none is listed |
| TripList.UpdateTrip | app/src/main/java/com/trabalhofinal/diariodeviagens/ui/adapter/TripAdapter.kt:109-115 | the first item with the trip's id is replaced and nothing else changes; nothing changes when the id is not listed |
| TripList.RemoveUndoesAdd | app/src/main/java/com/trabalhofinal/diariodeviagens/ui/adapter/TripAdapter.kt:88-103 | removing the trip just added restores the list |
| TripList.RemoveIgnoresStaleCopy | app/src/main/java/com/trabalhofinal/diariodeviagens/ui/adapter/TripAdapter.kt:97-103 | in a list with distinct ids, a copy of a listed trip that shares its id but differs in a field is not in the list, and removing it removes nothing |
| TripList.UpdateTripIdempotent | app/src/main/java/com/trabalhofinal/diariodeviagens/ui/adapter/TripAdapter.kt:109-115 | applying the same update twice equals applying it once |
| Login.ValidateFields | app/src/main/java/com/trabalhofinal/diariodeviagens/ui/LoginActivity.kt:145-173 | accepted exactly when the username has at least 3 and the password at least 4 UTF-16 units; otherwise the first failing check, each as an if-and-only-if |
| Login.SurrogatePairCountsTwice | app/src/main/java/com/trabalhofinal/diariodeviagens/ui/LoginActivity.kt:166 | a password of one emoji and one letter is three UTF-16 units long and so rejected as too short |
| Login.PerformLogin | app/src/main/java/com/trabalhofinal/diariodeviagens/ui/LoginActivity.kt:68-95 | on the trimmed fields: rejected exactly when invalid; logged in exactly when valid and a row matches both; the session names a stored user with those credentials |
| Login.PerformRegister | app/src/main/java/com/trabalhofinal/diariodeviagens/ui/LoginActivity.kt:100-137 | rejected exactly when invalid, "taken" exactly when valid and the name exists; the store changes only on success, which appends one user whose full name is the username under an id above the counter, and changes nothing else but the counter |
| Login.RegisterSucceedsWhenFree | app/src/main/java/com/trabalhofinal/diariodeviagens/ui/LoginActivity.kt:100-137 | valid fields, a free name and an id left always register |
| Login.RegisterThenLogin | app/src/main/java/com/trabalhofinal/diariodeviagens/ui/LoginActivity.kt:68-137 | after registering, logging in with the same fields succeeds with the new id |
| Login.RegisterTwiceTaken | app/src/main/java/com/trabalhofinal/diariodeviagens/ui/LoginActivity.kt:112-115 | registering the same name again is refused as taken, whatever the password |
| Login.CreateDefaultUser | app/src/main/java/com/trabalhofinal/diariodeviagens/ui/LoginActivity.kt:54-63 | nothing changes when `admin` exists or no id is left; otherwise exactly the account admin / 123456 / Administrador is appended, only the users and their counter change, and admin can then authenticate |
| Login.CreateDefaultUserKeepsValid | app/src/main/java/com/trabalhofinal/diariodeviagens/ui/LoginActivity.kt:54-63 | creating the default account keeps the store invariant |
| Login.CreateDefaultUserIdempotent | app/src/main/java/com/trabalhofinal/diariodeviagens/ui/LoginActivity.kt:54-63 | reopening the login screen adds nothing more |
| Login.UniqueNamesCountAtMostOne | app/src/main/java/com/trabalhofinal/diariodeviagens/data/TravelDbHelper.kt:57 | under the UNIQUE constraint a lookup by username selects at most one row |
| Login.ExactlyOneAdmin | app/src/main/java/com/trabalhofinal/diariodeviagens/ui/LoginActivity.kt:54-63 | after the login screen opens, exactly one account is named admin |
| PlaceEditing.ReadPlaceDialog | app/src/main/java/com/trabalhofinal/diariodeviagens/ui/MainActivity.kt:276-287 | name missing exactly when the name is all whitespace, date missing exactly when the name is present and the date is not; accepted fields are the non-empty trimmed texts |
| PlaceEditing.AddPlace | app/src/main/java/com/trabalhofinal/diariodeviagens/ui/MainActivity.kt:276-291 | an accepted entry is appended with id 0, no notes, its comment and the owner; a rejected one changes nothing |
| PlaceEditing.EditPlaceAt | app/src/main/java/com/trabalhofinal/diariodeviagens/ui/MainActivity.kt:227-242 | only entry i changes: new name, date and comment, same id, notes and trip |
| PlaceEditing.RemovePlaceAt | app/src/main/java/com/trabalhofinal/diariodeviagens/ui/MainActivity.kt:245-249 | entry i goes, earlier entries stay, later ones move up: the multiset loses exactly that entry |
| PlaceEditing.RemoveUndoesAdd | app/src/main/java/com/trabalhofinal/diariodeviagens/ui/MainActivity.kt:245-291 | removing the entry just added restores the list |
| PlaceEditing.EditPlaceIdempotent | app/src/main/java/com/trabalhofinal/diariodeviagens/ui/MainActivity.kt:227-242 | saving the same edit twice equals saving it once |
| PlaceEditing.Reparse | app/src/main/java/com/trabalhofinal/diariodeviagens/ui/MainActivity.kt:326-334 | the rebuilt place has id 0, no notes, the dialog's trip, the trimmed comment line, and keeps its name and date exactly when they are recoverable from the label |
| PlaceEditing.ReparsePlaces | app/src/main/java/com/trabalhofinal/diariodeviagens/ui/MainActivity.kt:326-334 | every entry is rebuilt in place with id 0, no notes and the dialog's trip; every rebuilt name and date is recoverable from its label, and an entry keeps its name and date exactly when they were recoverable |
| PlaceEditing.ReparsePlacesIdempotent | app/src/main/java/com/trabalhofinal/diariodeviagens/ui/MainActivity.kt:326-334 | re-reading the whole list a second time changes nothing |
| PlaceEditing.ReparseIdempotent | app/src/main/java/com/trabalhofinal/diariodeviagens/ui/MainActivity.kt:326-334 | rebuilding a rebuilt place changes nothing |
| PlaceEditing.DialogPlaceSurvivesReparse | app/src/main/java/com/trabalhofinal/diariodeviagens/ui/MainActivity.kt:276-334 | an entry made in the place dialog with no parentheses keeps its name, date and comment through the re-read |
| PlaceSaving.SaveOne | app/src/main/java/com/trabalhofinal/diariodeviagens/ui/MainActivity.kt:435-439 | one loop turn touches only the places and their counter and appends at most one row, saveable and under the trip |
| PlaceSaving.SavePlaces | app/src/main/java/com/trabalhofinal/diariodeviagens/ui/MainActivity.kt:435-439 | the loop touches only the places; existing rows stay as a prefix; every new row belongs to the trip and has a name and a date |
| PlaceSaving.SavePlacesKeepsValid | app/src/main/java/com/trabalhofinal/diariodeviagens/ui/MainActivity.kt:435-439 | the loop keeps the store invariant |
| PlaceSaving.SavePlacesAppends | app/src/main/java/com/trabalhofinal/diariodeviagens/ui/MainActivity.kt:435-439 | when the inserts can succeed, the appended rows are exactly the saveable places, in order, stamped with the trip |
| PlaceSaving.DeletePlaces | app/src/main/java/com/trabalhofinal/diariodeviagens/ui/MainActivity.kt:461 | a place remains exactly when it was there and its id was not listed |
| PlaceSaving.DeletePlacesKeepsValid | app/src/main/java/com/trabalhofinal/diariodeviagens/ui/MainActivity.kt:461 | deleting the listed places keeps the invariant |
| PlaceSaving.ClearTripPlaces | app/src/main/java/com/trabalhofinal/diariodeviagens/ui/MainActivity.kt:461 | no place of the trip remains, nothing is added, and with unique ids every other trip's place is kept |
| PlaceSaving.ReplacePlaces | app/src/main/java/com/trabalhofinal/diariodeviagens/ui/MainActivity.kt:460-466 | only the places and their counter change |
| PlaceSaving.ReplacePlacesKeepsOtherTrips | app/src/main/java/com/trabalhofinal/diariodeviagens/ui/MainActivity.kt:460-466 | no other trip gains a place, and with unique ids none loses one |
| PlaceSaving.ReplacePlacesKeepsValid | app/src/main/java/com/trabalhofinal/diariodeviagens/ui/MainActivity.kt:460-466 | the replacement keeps the invariant |
| PlaceSaving.ReplacePlacesExactly | app/src/main/java/com/trabalhofinal/diariodeviagens/ui/MainActivity.kt:460-466 | afterwards the trip's places are exactly the dialog's saveable places, in order |
| TripScreen.ShownTrips | app/src/main/java/com/trabalhofinal/diariodeviagens/ui/MainActivity.kt:105-146 | the list shown is a subsequence of the user's trips, holds exactly the user's trips of the chosen country (all countries for the first spinner entry), newest first |
| TripScreen.ValidateTripForm | app/src/main/java/com/trabalhofinal/diariodeviagens/ui/MainActivity.kt:380-407 | valid exactly when name, country and both dates are not all whitespace; otherwise the first missing one, each as an if-and-only-if |
| TripScreen.SaveNewTrip | app/src/main/java/com/trabalhofinal/diariodeviagens/ui/MainActivity.kt:420-446 | nothing changes when the insert fails; otherwise the trip built from the trimmed form is appended to the trips table under an id above every earlier trip's, the earlier places stay as a prefix, nothing but the trips, the places and their counters changes, and the same trip heads the list with the old items after it |
| TripScreen.NewTripKeepsListing | app/src/main/java/com/trabalhofinal/diariodeviagens/ui/MainActivity.kt:440-441 | a list holding the user's trips, as a multiset, still holds exactly them after a new trip is saved and put at its head |
| TripScreen.SaveNewTripStoresPlaces | app/src/main/java/com/trabalhofinal/diariodeviagens/ui/MainActivity.kt:432-441 | with ids left, the store stays valid and the rows appended are the saveable places stamped with the new trip's id |
| TripScreen.SaveNewTripOwnsOnlyItsPlaces | app/src/main/java/com/trabalhofinal/diariodeviagens/ui/MainActivity.kt:432-441 | with enforcement, the new trip's places are exactly its saveable places, in order |
| TripScreen.NewTripHasNoPlacesYet | app/src/main/java/com/trabalhofinal/diariodeviagens/data/TravelDbHelper.kt:66-87 | no place refers to a trip id not yet issued |
| TripScreen.SaveEditedTrip | app/src/main/java/com/trabalhofinal/diariodeviagens/ui/MainActivity.kt:447-471 | nothing changes when the trip is gone; otherwise only the edited row changes (keeping its owner), users are untouched, only the trips, places and place counter of the store can change, and the list is the adapter's update with the edited trip: the first item with that id is replaced |
| TripScreen.SaveEditedTripReplacesPlaces | app/src/main/java/com/trabalhofinal/diariodeviagens/ui/MainActivity.kt:458-467 | the store stays valid, the trip's places are exactly the saveable dialog places, and another trip has a place afterwards exactly when it had it before |
| TripScreen.SubmitTripDialog | app/src/main/java/com/trabalhofinal/diariodeviagens/ui/MainActivity.kt:323-338 | an invalid form changes nothing, users are never touched, and editing a trip that is gone changes nothing; a valid new trip that gets an id is appended to the table and put at the head of the list, with the form's fields; a valid edit of a stored trip updates its list item in place |
| TripScreen.SubmitNewStoresReparsedPlaces | app/src/main/java/com/trabalhofinal/diariodeviagens/ui/MainActivity.kt:323-441 | after a valid new trip is saved with ids to spare, the store stays valid and the rows appended are the places re-read from their labels that are saveable, stamped with the new trip's id |
| TripScreen.SubmitEditStoresReparsedPlaces | app/src/main/java/com/trabalhofinal/diariodeviagens/ui/MainActivity.kt:323-471 | after a valid edit the trip's places are the saveable places as re-read from their labels |
| TripScreen.DeleteTripAction | app/src/main/java/com/trabalhofinal/diariodeviagens/ui/MainActivity.kt:492-505 | the trip's id leaves the store and nothing but trips and places can change; the places stay unless foreign keys are on, and then exactly that trip's places go; the list changes only when a row was deleted, and then becomes the adapter's removal of that trip |
| TripScreen.DeleteKeepsListInStep | app/src/main/java/com/trabalhofinal/diariodeviagens/ui/MainActivity.kt:492-505 | a list holding the user's trips still holds exactly them after a delete |
| TripScreen.DeleteDropsOneListing | app/src/main/java/com/trabalhofinal/diariodeviagens/data/TravelDbHelper.kt:289-296 | deleting one of the user's trips removes exactly that trip from the user's listing |

## Left out

- Activities, layouts, toasts, intents, the date pickers (MainActivity.kt 344-375) and the empty-state view are left out: they only display state.
- The rating slider's float value (MainActivity.kt 418) is taken as an integer already cut by `toInt()`.
- The country lists of the spinner and the trip dialog (MainActivity.kt 44-46, 100) are not modelled. The filter takes any country text, and the first spinner entry is `None`.
- The places replacement on edit is not atomic in the app. A crash between the deletes and the inserts is not modelled; the model assumes no concurrency.
- Integer widths: only the 64-bit row-id limit is modelled, by failing inserts past `MaxRowId`. Java `Long`/`Int` overflow in ratings and the 32-bit `rowsAffected` are not.
- The app ignores the result of `insertPlace` while saving places. The model records it the same way: a failed insert simply adds no row.
- `getTripsByCountry` is modelled (`TravelDb.TripsByCountry`) but the app never calls it: the country filter filters the user's listing in memory.
- `openTripDetails` (MainActivity.kt 510-540) only displays a trip's places; it is covered by `TravelDb.PlacesByTrip`.
- TripScreen.SaveNewTrip: the list is proved to match the user's trips only as a multiset, and only for the unfiltered listing (`TripScreen.NewTripKeepsListing`). With a country filter active, the app adds the new trip to the top whatever its country.
- TripScreen.SaveEditedTrip: the adapter's `addTrip` puts a new trip at the head, and `updateTrip` replaces an edited trip where it stands. Either can leave the list out of start-date order until the next `loadTrips`; the model promises no order for the list after a save.
- TripList.UpdateTrips: states only that the list is replaced; the adapter's notification is UI.
- Foreign-key enforcement is a flag because the app never enables it. The cascade lemmas are stated with the flag set, and the app's own behaviour with it unset.
- Password storage in clear text and the absence of hashing are reproduced as is, not judged.

/**
 * The three persisted records of the travel diary. Identifiers are the
 * rowids SQLite assigns; a record built by the app before insertion carries
 * the default id 0, and a trip built without them carries no comment and
 * rating 0.
 */
module Entities {
  import opened Wrappers

  /** A local login account; the password is stored as plain text. */
  datatype User = User(id: int := 0, username: string, password: string, fullName: string)

  /** A trip owned by the user `userId`; dates are `yyyy-MM-dd` text. */
  datatype Trip = Trip(
    id: int := 0,
    name: string,
    country: string,
    startDate: string,
    endDate: string,
    userId: int,
    comment: Option<string> := None,
    rating: int := 0)

  /** A place visited during the trip `tripId`. */
  datatype Place = Place(
    id: int := 0,
    name: string,
    notes: Option<string>,
    comments: Option<string>,
    visitDate: string,
    tripId: int)

  // Column accessors, passed as function values to the generic table code.

  function UserRowId(u: User): int { u.id }
  function TripRowId(t: Trip): int { t.id }
  function PlaceRowId(p: Place): int { p.id }
  function StartDate(t: Trip): string { t.startDate }
  function VisitDate(p: Place): string { p.visitDate }
}

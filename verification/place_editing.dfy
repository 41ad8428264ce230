/**
 * The list of visited places the trip dialog keeps while it is open: the
 * place dialog that adds or edits an entry, the long press that removes
 * one, and the step that reads every entry back from its on-screen label
 * before the trip is saved. None of this touches the store.
 */
module PlaceEditing {
  import opened Wrappers
  import opened Entities
  import opened KotlinText
  import opened PlaceLabel

  /** The error the place dialog shows, in the order its checks run. */
  datatype PlaceFieldError = PlaceNameMissing | PlaceDateMissing

  /** What the place dialog's save button reads from its three fields. */
  datatype PlaceEntry = PlaceRejected(error: PlaceFieldError) | PlaceAccepted(name: string, date: string, comment: string)

  /** Trims the three fields and requires a name and a date; the comment may be empty. */
  function ReadPlaceDialog(nameField: string, dateField: string, commentField: string): (r: PlaceEntry)
    ensures r == PlaceRejected(PlaceNameMissing) <==> AllWhitespace(nameField)
    ensures r == PlaceRejected(PlaceDateMissing) <==> !AllWhitespace(nameField) && AllWhitespace(dateField)
    ensures r.PlaceAccepted? ==>
              && |r.name| > 0 && IsTrimmed(r.name) && r.name == Trim(nameField)
              && |r.date| > 0 && IsTrimmed(r.date) && r.date == Trim(dateField)
              && IsTrimmed(r.comment) && r.comment == Trim(commentField)
  {
    var name, date, comment := Trim(nameField), Trim(dateField), Trim(commentField);
    if |name| == 0 then PlaceRejected(PlaceNameMissing)
    else if |date| == 0 then PlaceRejected(PlaceDateMissing)
    else PlaceAccepted(name, date, comment)
  }

  /** The trip a place in the dialog belongs to: the trip being edited, or 0 for a trip not yet saved. */
  function OwnerId(editing: Option<Trip>): (id: int)
    ensures editing.Some? ==> id == editing.value.id
    ensures editing.None? ==> id == 0
  {
    match editing
    case None => 0
    case Some(t) => t.id
  }

  /** The add-place button: an accepted entry is appended as a place with no notes and id 0. */
  function AddPlace(places: seq<Place>, editing: Option<Trip>, entry: PlaceEntry): (r: seq<Place>)
    ensures entry.PlaceRejected? ==> r == places
    ensures entry.PlaceAccepted? ==>
              && |r| == |places| + 1 && r[..|places|] == places
              && r[|places|].id == 0 && r[|places|].notes == None
              && r[|places|].name == entry.name && r[|places|].visitDate == entry.date
              && r[|places|].comments == Some(entry.comment)
              && r[|places|].tripId == OwnerId(editing)
  {
    match entry
    case PlaceRejected(_) => places
    case PlaceAccepted(name, date, comment) =>
      places + [Place(name := name, notes := None, comments := Some(comment), visitDate := date, tripId := OwnerId(editing))]
  }

  /** A click on entry `i` and an accepted dialog: name, date and comment are replaced, the rest kept. */
  function EditPlaceAt(places: seq<Place>, i: nat, entry: PlaceEntry): (r: seq<Place>)
    requires i < |places|
    ensures |r| == |places|
    ensures entry.PlaceRejected? ==> r == places
    ensures forall j :: 0 <= j < |places| && j != i ==> r[j] == places[j]
    ensures entry.PlaceAccepted? ==>
              && r[i].name == entry.name && r[i].visitDate == entry.date && r[i].comments == Some(entry.comment)
              && r[i].id == places[i].id && r[i].notes == places[i].notes && r[i].tripId == places[i].tripId
  {
    match entry
    case PlaceRejected(_) => places
    case PlaceAccepted(name, date, comment) =>
      places[i := places[i].(name := name, visitDate := date, comments := Some(comment))]
  }

  /** A long press on entry `i`: that entry goes and the later ones move up. */
  function RemovePlaceAt(places: seq<Place>, i: nat): (r: seq<Place>)
    requires i < |places|
    ensures |r| == |places| - 1
    ensures r[..i] == places[..i]
    ensures forall j :: i <= j < |r| ==> r[j] == places[j + 1]
    ensures multiset(r) == multiset(places) - multiset{places[i]}
  {
    assert places == places[..i] + [places[i]] + places[i + 1..];
    places[..i] + places[i + 1..]
  }

  /** Removing the entry just added gives the list back. */
  lemma RemoveUndoesAdd(places: seq<Place>, editing: Option<Trip>, entry: PlaceEntry)
    requires entry.PlaceAccepted?
    ensures RemovePlaceAt(AddPlace(places, editing, entry), |places|) == places
  {
  }

  /** Saving the same edit twice is the same as saving it once. */
  lemma EditPlaceIdempotent(places: seq<Place>, i: nat, entry: PlaceEntry)
    requires i < |places|
    ensures EditPlaceAt(EditPlaceAt(places, i, entry), i, entry) == EditPlaceAt(places, i, entry)
  {
  }

  // ---------------------------------------------------------------- reading the labels back

  /** The second line under a place's label: its comment, or nothing. */
  function CommentLine(place: Place): (r: string)
    ensures place.comments.Some? ==> r == place.comments.value
    ensures place.comments.None? ==> r == ""
  {
    place.comments.GetOr("")
  }

  /**
   * The place the save button rebuilds from one entry's two lines: the name
   * and date parsed from `name (date)`, the trimmed comment line, no notes,
   * id 0 and the dialog's trip.
   */
  function Reparse(place: Place, ownerId: int): (r: Place)
    ensures r.id == 0 && r.notes == None && r.tripId == ownerId
    ensures r.comments == Some(Trim(CommentLine(place)))
    ensures IsTrimmed(r.name) && '(' !in r.name
    ensures IsTrimmed(r.visitDate) && '(' !in r.visitDate && ')' !in r.visitDate
    ensures r.name == place.name && r.visitDate == place.visitDate <==> Recoverable(place.name, place.visitDate)
  {
    var parsed := ParseLabel(Label(place.name, place.visitDate));
    LabelRoundTrip(place.name, place.visitDate);
    Place(name := parsed.name, notes := None, comments := Some(Trim(CommentLine(place))), visitDate := parsed.date, tripId := ownerId)
  }

  /** The loop over the dialog's entries before saving: every entry is rebuilt from its label. */
  function ReparsePlaces(places: seq<Place>, ownerId: int): (r: seq<Place>)
    ensures |r| == |places|
    ensures forall i :: 0 <= i < |places| ==> r[i] == Reparse(places[i], ownerId)
    ensures forall i :: 0 <= i < |r| ==> r[i].id == 0 && r[i].notes == None && r[i].tripId == ownerId
    ensures forall i :: 0 <= i < |r| ==> Recoverable(r[i].name, r[i].visitDate)
    ensures forall i :: 0 <= i < |r| ==>
              (r[i].name == places[i].name && r[i].visitDate == places[i].visitDate <==>
               Recoverable(places[i].name, places[i].visitDate))
  {
    seq(|places|, i requires 0 <= i < |places| => Reparse(places[i], ownerId))
  }

  /** Reading the whole list back a second time changes nothing more. */
  lemma ReparsePlacesIdempotent(places: seq<Place>, ownerId: int)
    ensures ReparsePlaces(ReparsePlaces(places, ownerId), ownerId) == ReparsePlaces(places, ownerId)
  {
    var once := ReparsePlaces(places, ownerId);
    forall i | 0 <= i < |places|
      ensures ReparsePlaces(once, ownerId)[i] == once[i]
    {
      ReparseIdempotent(places[i], ownerId);
    }
  }

  /** Reading the labels back a second time changes nothing more. */
  lemma ReparseIdempotent(place: Place, ownerId: int)
    ensures Reparse(Reparse(place, ownerId), ownerId) == Reparse(place, ownerId)
  {
    var once := Reparse(place, ownerId);
    LabelRoundTrip(once.name, once.visitDate);
    TrimIdempotent(CommentLine(place));
  }

  /** An entry made through the place dialog keeps its name, date and comment across the save when neither name nor date holds a parenthesis. */
  lemma DialogPlaceSurvivesReparse(places: seq<Place>, editing: Option<Trip>, nameField: string, dateField: string, commentField: string)
    requires ReadPlaceDialog(nameField, dateField, commentField).PlaceAccepted?
    requires '(' !in nameField && '(' !in dateField && ')' !in dateField
    ensures var entry := ReadPlaceDialog(nameField, dateField, commentField);
            var back := Reparse(AddPlace(places, editing, entry)[|places|], OwnerId(editing));
            back.name == entry.name && back.visitDate == entry.date && back.comments == Some(entry.comment)
  {
    var entry := ReadPlaceDialog(nameField, dateField, commentField);
    var added := AddPlace(places, editing, entry)[|places|];
    assert Recoverable(added.name, added.visitDate);
    TrimIdempotent(commentField);
  }
}

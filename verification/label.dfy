/**
 * The one-line label the trip dialog shows for a visited place,
 * `name (date)`, and the way the dialog reads a place back from that label
 * before saving: the name is the text before the first `(`, trimmed; the
 * date is the text between the first and the second `(` with every `)`
 * removed, trimmed.
 */
module PlaceLabel {
  import opened KotlinText

  /** The label shown for a place called `name` visited on `date`. */
  function Label(name: string, date: string): (r: string)
    ensures '(' in r
    ensures |r| == |name| + |date| + 3
  {
    name + " (" + date + ")"
  }

  /** A name and a date read back from a label. */
  datatype Parsed = Parsed(name: string, date: string)

  /**
   * Reads a label back. Indexing the second piece of the split throws when
   * the label has no `(`, so a label without one is outside the domain.
   */
  function ParseLabel(shown: string): (r: Parsed)
    requires '(' in shown
    ensures IsTrimmed(r.name) && '(' !in r.name
    ensures IsTrimmed(r.date) && '(' !in r.date && ')' !in r.date
  {
    var parts := Split(shown, '(');
    TrimKeepsOut(parts[0], '(');
    TrimKeepsOut(RemoveAll(parts[1], ')'), '(');
    TrimKeepsOut(RemoveAll(parts[1], ')'), ')');
    Parsed(Trim(parts[0]), Trim(RemoveAll(parts[1], ')')))
  }

  /** The names and dates that survive the label unchanged. */
  predicate Recoverable(name: string, date: string) {
    && IsTrimmed(name) && '(' !in name
    && IsTrimmed(date) && '(' !in date && ')' !in date
  }

  /**
   * Reading a label back gives the original name and date exactly when the
   * name is trimmed and has no `(`, and the date is trimmed and has neither
   * parenthesis.
   */
  lemma LabelRoundTrip(name: string, date: string)
    ensures ParseLabel(Label(name, date)) == Parsed(name, date) <==> Recoverable(name, date)
  {
    if '(' in name {
      NameWithParenthesisIsCut(name, date);
    } else {
      NameRoundTrip(name, date);
      DateRoundTrip(name, date);
    }
  }

  /** With no `(` in the name, the label splits into the name plus a space, then the pieces of `date)`. */
  lemma LabelPieces(name: string, date: string)
    requires '(' !in name
    ensures Split(Label(name, date), '(') == [name + " "] + Split(date + ")", '(')
  {
    assert Label(name, date) == (name + " ") + ['('] + (date + ")");
    SplitAtFirst(name + " ", date + ")", '(');
  }

  lemma NameRoundTrip(name: string, date: string)
    requires '(' !in name
    ensures ParseLabel(Label(name, date)).name == name <==> IsTrimmed(name)
  {
    LabelPieces(name, date);
    TrimDropsAppendedWhitespace(name, ' ');
  }

  lemma DateRoundTrip(name: string, date: string)
    requires '(' !in name
    ensures ParseLabel(Label(name, date)).date == date <==> IsTrimmed(date) && '(' !in date && ')' !in date
  {
    LabelPieces(name, date);
    var piece := Split(date + ")", '(')[0];
    assert ParseLabel(Label(name, date)).date == Trim(RemoveAll(piece, ')'));
    if '(' in date {
      PrefixBeforeParenthesis(date, ")", piece);
    } else {
      ClosingParenthesisDropped(date);
    }
  }

  /** Without a `(` in the date, the date piece of the label, cleared of `)`, is the date cleared of `)`. */
  lemma ClosingParenthesisDropped(date: string)
    requires '(' !in date
    ensures RemoveAll(Split(date + ")", '(')[0], ')') == RemoveAll(date, ')')
  {
    assert '(' !in date + ")";
    RemoveAllAppend(date, ")", ')');
    assert RemoveAll(")", ')') == "";
  }

  /** A name containing `(` is cut at it, so it does not come back. */
  lemma NameWithParenthesisIsCut(name: string, date: string)
    requires '(' in name
    ensures ParseLabel(Label(name, date)).name != name
  {
    var shown := Label(name, date);
    assert shown == name + (" (" + date + ")");
    PrefixBeforeParenthesis(name, " (" + date + ")", Split(shown, '(')[0]);
  }

  /** The piece before the first `(` of `a + b` is shorter than `a` when `a` has one. */
  lemma PrefixBeforeParenthesis(a: string, b: string, first: string)
    requires '(' in a
    requires first == Split(a + b, '(')[0]
    ensures |first| < |a|
  {
    var j :| 0 <= j < |a| && a[j] == '(';
    assert (a + b)[j] == '(';
  }

  /** Reading back the label of what was read back changes nothing: the parse is a normal form. */
  lemma ParseLabelStable(shown: string)
    requires '(' in shown
    ensures var p := ParseLabel(shown);
            ParseLabel(Label(p.name, p.date)) == p
  {
    var p := ParseLabel(shown);
    LabelRoundTrip(p.name, p.date);
  }
}

/**
 * The Kotlin `String` operations the screens apply to user input: `trim()`,
 * `length`, `isEmpty()`, `split(sep)` with a one-character delimiter and
 * `replace(c, "")`. A Dafny `string` is a sequence of Unicode scalar
 * values, while a Kotlin string is a sequence of UTF-16 code units, so
 * `length` is modelled by `Utf16Length`.
 */
module KotlinText {
  import opened Rows

  // ---------------------------------------------------------------- whitespace

  /**
   * Kotlin's `Char.isWhitespace()` on the JVM: `Character.isWhitespace`
   * (the ASCII controls TAB to CR and FS to US, and every space, line and
   * paragraph separator but the non-breaking ones) together with
   * `Character.isSpaceChar` (every space, line and paragraph separator).
   */
  predicate IsWhitespace(c: char) {
    c in WhitespaceChars
  }

  const WhitespaceChars: set<char> := {
    '\t', '\n', '\U{000B}', '\U{000C}', '\r',
    '\U{001C}', '\U{001D}', '\U{001E}', '\U{001F}', ' ',
    '\U{00A0}', '\U{1680}',
    '\U{2000}', '\U{2001}', '\U{2002}', '\U{2003}', '\U{2004}', '\U{2005}',
    '\U{2006}', '\U{2007}', '\U{2008}', '\U{2009}', '\U{200A}',
    '\U{2028}', '\U{2029}', '\U{202F}', '\U{205F}', '\U{3000}'
  }

  /** `s` neither starts nor ends with whitespace. */
  predicate IsTrimmed(s: string) {
    |s| == 0 || (!IsWhitespace(s[0]) && !IsWhitespace(s[|s| - 1]))
  }

  predicate AllWhitespace(s: string) {
    forall i :: 0 <= i < |s| ==> IsWhitespace(s[i])
  }

  /** The first position at or after `i` that does not hold whitespace, or `|s|`. */
  function FirstNonSpace(s: string, i: nat): (k: nat)
    requires i <= |s|
    ensures i <= k <= |s|
    ensures forall j :: i <= j < k ==> IsWhitespace(s[j])
    ensures k < |s| ==> !IsWhitespace(s[k])
    decreases |s| - i
  {
    if i < |s| && IsWhitespace(s[i]) then FirstNonSpace(s, i + 1) else i
  }

  /** The end of `s[..j]` once its trailing whitespace is dropped. */
  function EndNonSpace(s: string, j: nat): (e: nat)
    requires j <= |s|
    ensures e <= j
    ensures forall m :: e <= m < j ==> IsWhitespace(s[m])
    ensures e > 0 ==> !IsWhitespace(s[e - 1])
  {
    if j > 0 && IsWhitespace(s[j - 1]) then EndNonSpace(s, j - 1) else j
  }

  /** `FirstNonSpace` is the only position with its two properties. */
  lemma FirstNonSpaceUnique(s: string, i: nat, k: nat)
    requires i <= k <= |s|
    requires forall j :: i <= j < k ==> IsWhitespace(s[j])
    requires k < |s| ==> !IsWhitespace(s[k])
    ensures FirstNonSpace(s, i) == k
  {
  }

  /** `EndNonSpace` is the only position with its two properties. */
  lemma EndNonSpaceUnique(s: string, j: nat, e: nat)
    requires e <= j <= |s|
    requires forall m :: e <= m < j ==> IsWhitespace(s[m])
    requires e > 0 ==> !IsWhitespace(s[e - 1])
    ensures EndNonSpace(s, j) == e
  {
  }

  /** Kotlin's `trim()`: the longest slice of `s` that starts and ends with a non-whitespace character. */
  function Trim(s: string): (r: string)
    ensures IsTrimmed(r)
    ensures |r| <= |s|
    ensures IsTrimmed(s) ==> r == s
    ensures |r| == 0 <==> AllWhitespace(s)
  {
    var a := FirstNonSpace(s, 0);
    if a == |s| then ""
    else
      var e := EndNonSpace(s, |s|);
      assert !IsWhitespace(s[a]);
      s[a..e]
  }

  /** What `trim()` returns is a slice of its input, and only whitespace is cut off at either end. */
  lemma TrimIsSlice(s: string)
    ensures exists a, e :: 0 <= a <= e <= |s| && Trim(s) == s[a..e] && AllWhitespace(s[..a]) && AllWhitespace(s[e..])
  {
    var a := FirstNonSpace(s, 0);
    if a == |s| {
      assert Trim(s) == s[a..a] && AllWhitespace(s[..a]) && AllWhitespace(s[a..]);
    } else {
      var e := EndNonSpace(s, |s|);
      assert Trim(s) == s[a..e] && AllWhitespace(s[..a]) && AllWhitespace(s[e..]);
    }
  }

  lemma TrimIdempotent(s: string)
    ensures Trim(Trim(s)) == Trim(s)
  {
  }

  /** Whitespace appended to a string disappears under `trim()`. */
  lemma TrimDropsAppendedWhitespace(s: string, w: char)
    requires IsWhitespace(w)
    ensures Trim(s + [w]) == Trim(s)
  {
    var u := s + [w];
    var a := FirstNonSpace(s, 0);
    if a == |s| {
      assert AllWhitespace(u);
    } else {
      assert u[a] == s[a];
      FirstNonSpaceUnique(u, 0, a);
      var e := EndNonSpace(s, |s|);
      assert u[e - 1] == s[e - 1];
      EndNonSpaceUnique(u, |u|, e);
      SliceOfAppend(s, w, a, e);
    }
  }

  /** Trimming only removes characters: one absent from `s` is absent from its trimmed form. */
  lemma TrimKeepsOut(s: string, c: char)
    requires c !in s
    ensures c !in Trim(s)
  {
  }

  /** A slice that ends inside `s` does not see what is appended to `s`. */
  lemma SliceOfAppend<T>(s: seq<T>, x: T, i: nat, j: nat)
    requires i <= j <= |s|
    ensures (s + [x])[i..j] == s[i..j]
  {
  }

  // ---------------------------------------------------------------- length

  /** A character outside the Basic Multilingual Plane, which UTF-16 encodes as a surrogate pair. */
  predicate IsSupplementary(c: char) {
    c >= '\U{10000}'
  }

  /** Kotlin's `String.length`: the number of UTF-16 code units, two for a character beyond the BMP. */
  function Utf16Length(s: string): (n: nat)
    ensures |s| <= n <= 2 * |s|
    ensures n == 0 <==> |s| == 0
    ensures (forall i :: 0 <= i < |s| ==> s[i] < '\U{10000}') ==> n == |s|
    ensures n == |s| + |Filter(s, IsSupplementary)|
  {
    if |s| == 0 then 0
    else (if s[0] < '\U{10000}' then 1 else 2) + Utf16Length(s[1..])
  }

  // ---------------------------------------------------------------- split and join

  /** The inverse of `Split`: the pieces separated by `sep`. */
  function Join(parts: seq<string>, sep: char): string {
    if |parts| == 0 then ""
    else if |parts| == 1 then parts[0]
    else parts[0] + [sep] + Join(parts[1..], sep)
  }

  /**
   * `r` is a split of `s` at `sep`: at least one piece, none containing
   * `sep`, joining back to `s`; the first piece is a prefix of `s`, and
   * there is a single piece exactly when `s` has no `sep`.
   */
  predicate SplitsInto(s: string, sep: char, r: seq<string>) {
    && |r| >= 1
    && (forall i :: 0 <= i < |r| ==> sep !in r[i])
    && Join(r, sep) == s
    && |r[0]| <= |s| && r[0] == s[..|r[0]|]
    && (sep !in s <==> r == [s])
  }

  /**
   * Kotlin's `split(sep)` for a one-character delimiter and no limit: the
   * pieces between occurrences of `sep`, empty pieces included.
   */
  function Split(s: string, sep: char): (r: seq<string>)
    ensures SplitsInto(s, sep, r)
    decreases |s|
  {
    if |s| == 0 then [""]
    else
      var rest := Split(s[1..], sep);
      if s[0] == sep then
        SplitAtSeparator(s, sep, rest);
        [""] + rest
      else
        SplitInsidePiece(s, sep, rest);
        [[s[0]] + rest[0]] + rest[1..]
  }

  /** A leading separator closes an empty first piece. */
  lemma SplitAtSeparator(s: string, sep: char, rest: seq<string>)
    requires |s| > 0 && s[0] == sep
    requires SplitsInto(s[1..], sep, rest)
    ensures SplitsInto(s, sep, [""] + rest)
  {
    assert s == [sep] + s[1..];
  }

  /** Any other leading character joins the first piece. */
  lemma SplitInsidePiece(s: string, sep: char, rest: seq<string>)
    requires |s| > 0 && s[0] != sep
    requires SplitsInto(s[1..], sep, rest)
    ensures SplitsInto(s, sep, [[s[0]] + rest[0]] + rest[1..])
  {
    var r := [[s[0]] + rest[0]] + rest[1..];
    assert s == [s[0]] + s[1..];
    JoinExtendsHead(s[0], rest, sep);
    assert forall i :: 1 <= i < |r| ==> r[i] == rest[i];
  }

  /** Prepending a character to the first piece prepends it to the joined string. */
  lemma JoinExtendsHead(c: char, parts: seq<string>, sep: char)
    requires |parts| >= 1
    ensures Join([[c] + parts[0]] + parts[1..], sep) == [c] + Join(parts, sep)
  {
    var r := [[c] + parts[0]] + parts[1..];
    if |parts| > 1 {
      assert r[1..] == parts[1..];
    }
  }

  /** Splitting at the first separator: the piece before it, then the pieces of the remainder. */
  lemma {:induction false} SplitAtFirst(a: string, b: string, sep: char)
    requires sep !in a
    ensures Split(a + [sep] + b, sep) == [a] + Split(b, sep)
    decreases |a|
  {
    var s := a + [sep] + b;
    if |a| == 0 {
      assert s[1..] == b;
    } else {
      assert s[0] == a[0] && s[1..] == a[1..] + [sep] + b;
      SplitAtFirst(a[1..], b, sep);
      assert [a[0]] + a[1..] == a;
    }
  }

  /** `Split` undoes `Join` on pieces free of the separator. */
  lemma {:induction false} SplitJoin(parts: seq<string>, sep: char)
    requires |parts| >= 1
    requires forall i :: 0 <= i < |parts| ==> sep !in parts[i]
    ensures Split(Join(parts, sep), sep) == parts
    decreases |parts|
  {
    if |parts| > 1 {
      SplitJoin(parts[1..], sep);
      SplitAtFirst(parts[0], Join(parts[1..], sep), sep);
      assert [parts[0]] + parts[1..] == parts;
    }
  }

  // ---------------------------------------------------------------- replace

  /** Keeps every character except `c`. */
  function IsNot(c: char): char -> bool {
    (x: char) => x != c
  }

  /** Kotlin's `replace(c.toString(), "")`: `s` with every `c` removed. */
  function RemoveAll(s: string, c: char): (r: string)
    ensures |r| <= |s|
    ensures forall x :: x in r <==> x in s && x != c
    ensures c !in s ==> r == s
    ensures r == Filter(s, IsNot(c))
  {
    if |s| == 0 then ""
    else
      assert s == [s[0]] + s[1..];
      (if s[0] == c then "" else [s[0]]) + RemoveAll(s[1..], c)
  }

  lemma {:induction false} RemoveAllAppend(s: string, t: string, c: char)
    ensures RemoveAll(s + t, c) == RemoveAll(s, c) + RemoveAll(t, c)
  {
    FilterAppend(s, t, IsNot(c));
  }
}

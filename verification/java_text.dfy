/**
 * The pieces of `java.lang.String`, `java.lang.Character` and Spring's
 * `StringUtils` that the endorsement service relies on, over `seq<char>`.
 * A Java `String` reference is a `JString`, whose `None` is `null`.
 */
module JavaText {
  import opened Wrappers

  type JString = Option<string>

  // ---------------------------------------------------------------------------
  // String.trim
  // ---------------------------------------------------------------------------

  /** `String.trim` removes every leading and trailing character at or below U+0020. */
  predicate IsTrimmed(c: char) {
    c <= ' '
  }

  /** `s` with its leading trimmable characters removed. */
  function TrimStart(s: string): (r: string)
    ensures |r| <= |s| && r == s[|s| - |r|..]
    ensures r == [] || !IsTrimmed(r[0])
    ensures forall i :: 0 <= i < |s| - |r| ==> IsTrimmed(s[i])
  {
    if |s| > 0 && IsTrimmed(s[0]) then TrimStart(s[1..]) else s
  }

  /** `s` with its trailing trimmable characters removed. */
  function TrimEnd(s: string): (r: string)
    ensures |r| <= |s| && r == s[..|r|]
    ensures r == [] || !IsTrimmed(r[|r| - 1])
    ensures forall i :: |r| <= i < |s| ==> IsTrimmed(s[i])
  {
    if |s| > 0 && IsTrimmed(s[|s| - 1]) then
      var r := TrimEnd(s[..|s| - 1]);
      assert s[..|s| - 1][..|r|] == s[..|r|];
      r
    else s
  }

  /** `String.trim`: empty, or starting and ending with a kept character. */
  function Trim(s: string): (r: string)
    ensures r == [] || (!IsTrimmed(r[0]) && !IsTrimmed(r[|r| - 1]))
    ensures r == [] <==> forall i :: 0 <= i < |s| ==> IsTrimmed(s[i])
  {
    var t := TrimStart(s);
    var r := TrimEnd(t);
    var k := |s| - |t|;
    assert forall i :: k <= i < |s| ==> s[i] == t[i - k];
    assert r != [] ==> s[k] == r[0];
    r
  }

  /** `s.trim().isEmpty()`. */
  predicate IsBlank(s: string) {
    Trim(s) == []
  }

  // ---------------------------------------------------------------------------
  // Character.isWhitespace and StringUtils.hasText
  // ---------------------------------------------------------------------------

  /**
   * `Character.isWhitespace`: the Unicode space, line and paragraph separators
   * other than the non-breaking ones (U+00A0, U+2007, U+202F), plus the control
   * characters U+0009..U+000D and U+001C..U+001F.
   */
  predicate IsJavaWhitespace(c: char) {
    || '\t' <= c <= '\r'
    || '\U{1C}' <= c <= ' '
    || c == '\U{1680}'
    || '\U{2000}' <= c <= '\U{2006}'
    || '\U{2008}' <= c <= '\U{200A}'
    || c == '\U{2028}' || c == '\U{2029}'
    || c == '\U{205F}' || c == '\U{3000}'
  }

  /** Spring's `StringUtils.hasText`: non-null with some non-whitespace character. */
  predicate HasText(v: JString) {
    v.Some? && exists i :: 0 <= i < |v.value| && !IsJavaWhitespace(v.value[i])
  }

  // ---------------------------------------------------------------------------
  // String.equalsIgnoreCase
  // ---------------------------------------------------------------------------

  /** Lower-cases an ASCII letter and leaves every other character alone. */
  function ToLowerAscii(c: char): char {
    if 'A' <= c <= 'Z' then (c as int + 32) as char else c
  }

  predicate CharEqualsIgnoreCase(a: char, b: char) {
    ToLowerAscii(a) == ToLowerAscii(b)
  }

  /** `a.equalsIgnoreCase(b)` for a non-null `b`, folding ASCII case. */
  predicate EqualsIgnoreCase(a: string, b: string) {
    |a| == |b| && forall i :: 0 <= i < |a| ==> CharEqualsIgnoreCase(a[i], b[i])
  }

  /** `a.equalsIgnoreCase(b)` where `b` may be `null`, which is never equal. */
  predicate EqualsIgnoreCaseNullable(a: string, b: JString) {
    b.Some? && EqualsIgnoreCase(a, b.value)
  }

  /** Whether `s` equals one of `words`, ignoring case. */
  predicate InIgnoringCase(s: string, words: seq<string>) {
    exists i :: 0 <= i < |words| && EqualsIgnoreCase(s, words[i])
  }

  // ---------------------------------------------------------------------------
  // String.indexOf and String.split
  // ---------------------------------------------------------------------------

  /** `s.indexOf(c)`, with `None` for -1. */
  function IndexOf(s: string, c: char): (r: Option<nat>)
    ensures r.None? <==> c !in s
    ensures r.Some? ==> r.value < |s| && s[r.value] == c && c !in s[..r.value]
  {
    if |s| == 0 then None
    else if s[0] == c then Some(0)
    else
      match IndexOf(s[1..], c)
      case None => None
      case Some(i) =>
        assert s[1..][..i] == s[1..i + 1];
        Some(i + 1)
  }

  /**
   * Every stretch of `s` between occurrences of `sep`, empty ones included:
   * `n` separators give `n + 1` pieces.
   */
  function Pieces(s: string, sep: char): (r: seq<string>)
    ensures |r| >= 1
    decreases |s|
  {
    match IndexOf(s, sep)
    case None => [s]
    case Some(i) => [s[..i]] + Pieces(s[i + 1..], sep)
  }

  /** No piece holds the separator. */
  lemma {:induction false} PiecesSeparatorFree(s: string, sep: char)
    ensures forall i :: 0 <= i < |Pieces(s, sep)| ==> sep !in Pieces(s, sep)[i]
    decreases |s|
  {
    match IndexOf(s, sep)
    case None =>
    case Some(i) =>
      PiecesSeparatorFree(s[i + 1..], sep);
  }

  /** The pieces written back with `sep` between neighbours. */
  function Join(ps: seq<string>, sep: char): string
    requires |ps| >= 1
  {
    if |ps| == 1 then ps[0] else ps[0] + [sep] + Join(ps[1..], sep)
  }

  /** Cutting a string at its separators loses nothing. */
  lemma {:induction false} JoinPieces(s: string, sep: char)
    ensures Join(Pieces(s, sep), sep) == s
    decreases |s|
  {
    match IndexOf(s, sep)
    case None =>
    case Some(i) =>
      var rest := Pieces(s[i + 1..], sep);
      assert Pieces(s, sep) == [s[..i]] + rest;
      assert ([s[..i]] + rest)[1..] == rest;
      JoinPieces(s[i + 1..], sep);
      assert s == s[..i] + [sep] + s[i + 1..];
  }

  /** The first piece is everything before the first separator. */
  lemma PiecesCons(a: string, sep: char, b: string)
    requires sep !in a
    ensures Pieces(a + [sep] + b, sep) == [a] + Pieces(b, sep)
  {
    var s := a + [sep] + b;
    assert s[..|a|] == a;
    assert s[|a| + 1..] == b;
    assert s[|a|] == sep;
    assert forall j :: 0 <= j < |a| ==> s[j] == a[j];
    assert forall k :: |a| < k <= |s| ==> s[..k][|a|] == sep;
    assert IndexOf(s, sep) == Some(|a|);
  }

  /** Joining separator-free pieces and cutting again gives them back. */
  lemma {:induction false} PiecesJoin(ps: seq<string>, sep: char)
    requires |ps| >= 1
    requires forall i :: 0 <= i < |ps| ==> sep !in ps[i]
    ensures Pieces(Join(ps, sep), sep) == ps
  {
    if |ps| > 1 {
      PiecesJoin(ps[1..], sep);
      PiecesCons(ps[0], sep, Join(ps[1..], sep));
      assert ps == [ps[0]] + ps[1..];
    }
  }

  /** Removes the empty strings at the end of `ps`. */
  function DropTrailingEmpty(ps: seq<string>): (r: seq<string>)
    ensures r <= ps
    ensures r == [] || r[|r| - 1] != []
    ensures forall i :: |r| <= i < |ps| ==> ps[i] == []
  {
    if |ps| > 0 && ps[|ps| - 1] == [] then DropTrailingEmpty(ps[..|ps| - 1]) else ps
  }

  /** Trailing empties of a tail are dropped as if the tail stood alone. */
  lemma {:induction false} DropTrailingEmptyAppend(a: seq<string>, b: seq<string>)
    requires |a| > 0 && a[|a| - 1] != []
    ensures DropTrailingEmpty(a + b) == a + DropTrailingEmpty(b)
    decreases |b|
  {
    if |b| > 0 && b[|b| - 1] == [] {
      assert (a + b)[..|a + b| - 1] == a + b[..|b| - 1];
      DropTrailingEmptyAppend(a, b[..|b| - 1]);
    } else if |b| == 0 {
      assert a + b == a;
    }
  }

  /**
   * `s.split(String.valueOf(sep))` for a separator that is not a regular
   * expression metacharacter: without any separator the result is `[s]`;
   * otherwise it is the pieces of `s` with the trailing empty ones removed.
   */
  function Split(s: string, sep: char): (r: seq<string>)
    ensures sep !in s ==> r == [s]
    ensures r <= Pieces(s, sep)
    ensures sep in s ==> r == [] || r[|r| - 1] != []
    ensures sep in s ==> forall i :: |r| <= i < |Pieces(s, sep)| ==> Pieces(s, sep)[i] == []
  {
    if sep !in s then [s] else DropTrailingEmpty(Pieces(s, sep))
  }

  /**
   * `trim().isEmpty()` and `!hasText` disagree both ways: U+2000 is
   * whitespace but above U+0020, and U+0001 is below U+0020 but not whitespace.
   */
  lemma BlankAndHasTextDiffer()
    ensures !IsBlank("\U{2000}") && !HasText(Some("\U{2000}"))
    ensures IsBlank("\U{0001}") && HasText(Some("\U{0001}"))
  {
    assert !IsJavaWhitespace("\U{0001}"[0]);
  }
}

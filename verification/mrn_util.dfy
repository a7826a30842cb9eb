/**
 * Validation of Maritime Resource Names (MRNs):
 * `urn:mrn:mcp:<type>:<org>:<name-specific string>`, matched ignoring ASCII
 * case, with an extra rule for MRNs whose type segment is exactly `service`.
 */
module MrnUtil {
  import opened Wrappers
  import opened JavaText

  /** The fixed start of every MRN (matched ignoring case). */
  const Prefix: string := "urn:mrn:mcp:"
  /** The alternatives of the type group of `MRN_PATTERN`. */
  const EntityTypes: seq<string> := ["device", "org", "user", "vessel", "service", "mms"]
  /** The only alternative of the type position of `MRN_SERVICE_PATTERN`. */
  const ServiceTypes: seq<string> := ["service"]
  /** The alternatives of the service-level pattern. */
  const ServiceLevels: seq<string> := ["specification", "design", "instance"]

  // ---------------------------------------------------------------------------
  // Character classes, as Pattern.CASE_INSENSITIVE reads them (ASCII folding)
  // ---------------------------------------------------------------------------

  /** `[a-z0-9]` ignoring case. */
  predicate IsAlnum(c: char) {
    'a' <= c <= 'z' || 'A' <= c <= 'Z' || '0' <= c <= '9'
  }

  /** `[0-9a-f]` ignoring case. */
  predicate IsHexDigit(c: char) {
    '0' <= c <= '9' || 'a' <= c <= 'f' || 'A' <= c <= 'F'
  }

  /** The single-character alternatives of a `pchar`: `[-._a-z0-9]`, `~`, `[!$&'()*+,;=]`, `:`, `@`. */
  predicate IsPcharChar(c: char) {
    || IsAlnum(c)
    || c == '-' || c == '.' || c == '_' || c == '~'
    || c == '!' || c == '$' || c == '&' || c == '\'' || c == '(' || c == ')'
    || c == '*' || c == '+' || c == ',' || c == ';' || c == '='
    || c == ':' || c == '@'
  }

  /** `[a-z0-9]([a-z0-9]|-){0,20}[a-z0-9]`: 2 to 22 characters, hyphens only inside. */
  predicate IsOrgSegment(o: string) {
    && 2 <= |o| <= 22
    && IsAlnum(o[0])
    && IsAlnum(o[|o| - 1])
    && forall i :: 0 < i < |o| - 1 ==> IsAlnum(o[i]) || o[i] == '-'
  }

  /**
   * `(pchar | "/")*`, read token by token as the pattern does: a `%` always
   * opens a percent-escape `%[0-9a-f][0-9a-f]`.
   */
  predicate PathChars(r: string)
    decreases |r|
  {
    if |r| == 0 then true
    else if r[0] == '%' then |r| >= 3 && IsHexDigit(r[1]) && IsHexDigit(r[2]) && PathChars(r[3..])
    else (IsPcharChar(r[0]) || r[0] == '/') && PathChars(r[1..])
  }

  /** The name-specific string: one `pchar` followed by `(pchar | "/")*`. */
  predicate IsNss(r: string) {
    |r| > 0 && r[0] != '/' && PathChars(r)
  }

  /** Every `%` of `r` opens two hexadecimal digits. */
  ghost predicate EscapesWellFormed(r: string) {
    forall i :: 0 <= i < |r| && r[i] == '%' ==> i + 2 < |r| && IsHexDigit(r[i + 1]) && IsHexDigit(r[i + 2])
  }

  /** The token-by-token reading agrees with a character-by-character one. */
  lemma {:induction false} PathCharsCharacterization(r: string)
    ensures PathChars(r) <==>
      && (forall i :: 0 <= i < |r| ==> IsPcharChar(r[i]) || r[i] == '/' || r[i] == '%')
      && EscapesWellFormed(r)
    decreases |r|
  {
    if |r| == 0 {
    } else if r[0] == '%' {
      if |r| >= 3 {
        PathCharsCharacterization(r[3..]);
        assert forall i :: 3 <= i < |r| ==> r[i] == r[3..][i - 3];
        if IsHexDigit(r[1]) && IsHexDigit(r[2]) {
          assert IsPcharChar(r[1]) && IsPcharChar(r[2]);
        }
      }
    } else {
      PathCharsCharacterization(r[1..]);
      assert forall i :: 1 <= i < |r| ==> r[i] == r[1..][i - 1];
    }
  }

  // ---------------------------------------------------------------------------
  // The general and the service pattern
  // ---------------------------------------------------------------------------

  /** The three segments after the prefix. */
  datatype Parsed = Parsed(entityType: string, org: string, nss: string)

  /** `s` starts with the prefix, ignoring case. */
  predicate HasPrefix(s: string) {
    |s| >= |Prefix| && EqualsIgnoreCase(s[..|Prefix|], Prefix)
  }

  /** `s` reads as the prefix (ignoring case), then `t:o:n`. */
  predicate Splits(s: string, t: string, o: string, n: string) {
    HasPrefix(s) && s[|Prefix|..] == t + ":" + o + ":" + n
  }

  /** A string is its part before and after a colon it holds. */
  lemma CutAt(x: string, i: nat)
    requires i < |x| && x[i] == ':'
    ensures x == x[..i] + ":" + x[i + 1..]
  {
  }

  /**
   * Cuts an MRN after its prefix at the next two colons. Every segment of the
   * pattern before the name-specific string is free of colons, so this is the
   * only way the pattern can match.
   */
  function Decompose(s: string): (r: Option<Parsed>)
    ensures r.Some? ==> Splits(s, r.value.entityType, r.value.org, r.value.nss)
    ensures r.Some? ==> ':' !in r.value.entityType && ':' !in r.value.org
  {
    if !HasPrefix(s) then None
    else
      var body := s[|Prefix|..];
      match IndexOf(body, ':')
      case None => None
      case Some(i) =>
        var tail := body[i + 1..];
        match IndexOf(tail, ':')
        case None => None
        case Some(j) =>
          CutAt(tail, j);
          CutAt(body, i);
          Regroup(body[..i], ":", tail[..j], ":", tail[j + 1..]);
          Some(Parsed(body[..i], tail[..j], tail[j + 1..]))
  }

  /** A colon-free split is the one `Decompose` finds. */
  lemma DecomposeUnique(s: string, t: string, o: string, n: string)
    requires Splits(s, t, o, n) && ':' !in t && ':' !in o
    ensures Decompose(s) == Some(Parsed(t, o, n))
  {
    var body := s[|Prefix|..];
    var tail := o + ":" + n;
    assert body == t + [':'] + tail;
    PiecesCons(t, ':', tail);
    IndexOfConcat(t, ':', tail);
    assert body[..|t|] == t && body[|t| + 1..] == tail;
    IndexOfConcat(o, ':', n);
    assert tail[..|o|] == o && tail[|o| + 1..] == n;
  }

  /** The first `c` of `a + [c] + b` is the one after `a` when `a` has none. */
  lemma IndexOfConcat(a: string, c: char, b: string)
    requires c !in a
    ensures IndexOf(a + [c] + b, c) == Some(|a|)
  {
    var s := a + [c] + b;
    assert s[|a|] == c;
    assert forall j :: 0 <= j < |a| ==> s[j] == a[j];
    assert forall k :: |a| < k <= |s| ==> s[..k][|a|] == c;
  }

  /**
   * `MRN_PATTERN` (with `types == EntityTypes`) and `MRN_SERVICE_PATTERN`
   * (with `types == ServiceTypes`), both matched case-insensitively against
   * the whole input.
   */
  predicate MatchesPattern(s: string, types: seq<string>) {
    match Decompose(s)
    case None => false
    case Some(p) => InIgnoringCase(p.entityType, types) && IsOrgSegment(p.org) && IsNss(p.nss)
  }

  /** A word equal, ignoring case, to a colon-free word is colon-free. */
  lemma NoColonIgnoringCase(t: string, words: seq<string>)
    requires InIgnoringCase(t, words)
    requires forall i :: 0 <= i < |words| ==> ':' !in words[i]
    ensures ':' !in t
  {
    var i :| 0 <= i < |words| && EqualsIgnoreCase(t, words[i]);
    forall k | 0 <= k < |t|
      ensures t[k] != ':'
    {
      assert CharEqualsIgnoreCase(t[k], words[i][k]);
      assert words[i][k] != ':';
    }
  }

  /** The pattern, stated as the grammar: some split of `s` whose segments fit. */
  lemma MatchesPatternIff(s: string, types: seq<string>)
    requires forall i :: 0 <= i < |types| ==> ':' !in types[i]
    ensures MatchesPattern(s, types) <==>
      exists t, o, n :: Splits(s, t, o, n) && InIgnoringCase(t, types) && IsOrgSegment(o) && IsNss(n)
  {
    if MatchesPattern(s, types) {
      var p := Decompose(s).value;
      assert Splits(s, p.entityType, p.org, p.nss);
    }
    if exists t, o, n :: Splits(s, t, o, n) && InIgnoringCase(t, types) && IsOrgSegment(o) && IsNss(n) {
      var t, o, n :| Splits(s, t, o, n) && InIgnoringCase(t, types) && IsOrgSegment(o) && IsNss(n);
      GrammarGivesMatch(s, types, t, o, n);
    }
  }

  /** A split whose segments fit is the one the pattern reads. */
  lemma GrammarGivesMatch(s: string, types: seq<string>, t: string, o: string, n: string)
    requires forall i :: 0 <= i < |types| ==> ':' !in types[i]
    requires Splits(s, t, o, n) && InIgnoringCase(t, types) && IsOrgSegment(o) && IsNss(n)
    ensures MatchesPattern(s, types)
  {
    NoColonIgnoringCase(t, types);
    OrgSegmentNoColon(o);
    DecomposeUnique(s, t, o, n);
  }

  /** An organization segment holds no colon. */
  lemma OrgSegmentNoColon(o: string)
    requires IsOrgSegment(o)
    ensures ':' !in o
  {
    assert forall k :: 0 <= k < |o| ==> o[k] != ':';
  }

  // ---------------------------------------------------------------------------
  // Splitting a matched MRN at its colons
  // ---------------------------------------------------------------------------

  /** The first piece is everything before the first colon. */
  lemma PiecesAt(x: string, i: nat)
    requires i < |x| && x[i] == ':' && ':' !in x[..i]
    ensures Pieces(x, ':') == [x[..i]] + Pieces(x[i + 1..], ':')
  {
    assert forall k :: i < k <= |x| ==> x[..k][i] == ':';
    assert IndexOf(x, ':') == Some(i);
  }

  /** The prefix holds colons at 3, 7 and 11 and none elsewhere. */
  lemma PrefixColons(s: string)
    requires HasPrefix(s)
    ensures s[3] == ':' && s[7] == ':' && s[11] == ':'
    ensures ':' !in s[..3] && ':' !in s[4..7] && ':' !in s[8..11]
  {
    var head := s[..|Prefix|];
    forall k | 0 <= k < |Prefix|
      ensures s[k] == ':' <==> Prefix[k] == ':'
    {
      assert CharEqualsIgnoreCase(head[k], Prefix[k]);
    }
    assert forall k :: 0 <= k < 3 ==> s[..3][k] == s[k];
    assert forall k :: 0 <= k < 3 ==> s[4..7][k] == s[k + 4];
    assert forall k :: 0 <= k < 3 ==> s[8..11][k] == s[k + 8];
  }

  /**
   * `mrn.split(":")` of a matched MRN: the three prefix words, the type, the
   * org segment, then the pieces of the name-specific string without the
   * trailing empty ones.
   */
  lemma MatchedSplit(s: string, p: Parsed)
    requires Splits(s, p.entityType, p.org, p.nss)
    requires ':' !in p.entityType && ':' !in p.org && p.org != []
    ensures Split(s, ':') == [s[..3], s[4..7], s[8..11], p.entityType, p.org] + DropTrailingEmpty(Pieces(p.nss, ':'))
  {
    MatchedPieces(s, p);
    SplitAfterHead(s, [s[..3], s[4..7], s[8..11], p.entityType, p.org], Pieces(p.nss, ':'));
  }

  /** The pieces of a matched MRN before dropping trailing empties. */
  lemma MatchedPieces(s: string, p: Parsed)
    requires Splits(s, p.entityType, p.org, p.nss)
    requires ':' !in p.entityType && ':' !in p.org
    ensures s[3] == ':'
    ensures Pieces(s, ':') == [s[..3], s[4..7], s[8..11], p.entityType, p.org] + Pieces(p.nss, ':')
  {
    var ws, pb, rest := [s[..3], s[4..7], s[8..11]], Pieces(s[|Prefix|..], ':'), Pieces(p.nss, ':');
    PrefixPieces(s);
    BodyPieces(s[|Prefix|..], p.entityType, p.org, p.nss);
    AppendHead(s[..3], s[4..7], s[8..11], p.entityType, p.org, rest);
  }

  /** Regrouping a list of pieces; generic, so element equality is never unfolded. */
  lemma AppendHead<T>(a: T, b: T, c: T, d: T, e: T, rest: seq<T>)
    ensures [a, b, c] + ([d, e] + rest) == [a, b, c, d, e] + rest
  {
  }

  /** Splitting keeps a head whose last piece is non-empty and trims only the tail. */
  lemma SplitAfterHead(s: string, head: seq<string>, tail: seq<string>)
    requires |s| > 3 && s[3] == ':'
    requires |head| > 0 && head[|head| - 1] != []
    requires Pieces(s, ':') == head + tail
    ensures Split(s, ':') == head + DropTrailingEmpty(tail)
  {
    assert ':' in s;
    DropTrailingEmptyAppend(head, tail);
  }

  /** The type and org segments are the next two pieces. */
  lemma BodyPieces(x: string, t: string, o: string, n: string)
    requires x == t + ":" + o + ":" + n
    requires ':' !in t && ':' !in o
    ensures Pieces(x, ':') == [t, o] + Pieces(n, ':')
  {
    assert x == t + [':'] + (o + [':'] + n);
    PiecesCons(t, ':', o + [':'] + n);
    PiecesCons(o, ':', n);
  }

  /** The prefix contributes its three words as the first three pieces. */
  lemma PrefixPieces(s: string)
    requires HasPrefix(s)
    ensures s[3] == ':'
    ensures Pieces(s, ':') == [s[..3], s[4..7], s[8..11]] + Pieces(s[|Prefix|..], ':')
  {
    PrefixColons(s);
    ThreeWordPieces(s);
  }

  /** Three colon-free words of three letters, each closed by a colon, are the first three pieces. */
  lemma ThreeWordPieces(s: string)
    requires |s| >= 12 && s[3] == ':' && s[7] == ':' && s[11] == ':'
    requires ':' !in s[..3] && ':' !in s[4..7] && ':' !in s[8..11]
    ensures Pieces(s, ':') == [s[..3], s[4..7], s[8..11]] + Pieces(s[12..], ':')
  {
    var s1 := s[4..];
    var s2 := s[8..];
    var body := s[12..];
    var w0, w1, w2 := s[..3], s[4..7], s[8..11];
    var rest := Pieces(body, ':');
    var p2 := Pieces(s2, ':');
    var p1 := Pieces(s1, ':');
    var p0 := Pieces(s, ':');
    assert p2 == [w2] + rest by {
      assert s2[..3] == w2 && s2[3] == ':' && s2[4..] == body;
      PiecesAt(s2, 3);
    }
    assert p1 == [w1] + p2 by {
      assert s1[..3] == w1 && s1[3] == ':' && s1[4..] == s2;
      PiecesAt(s1, 3);
    }
    assert p0 == [w0] + p1 by {
      PiecesAt(s, 3);
    }
    ConsThree(w0, w1, w2, rest);
  }

  /** Regrouping three single pieces; generic, so element equality is never unfolded. */
  lemma ConsThree<T>(a: T, b: T, c: T, rest: seq<T>)
    ensures [a] + ([b] + ([c] + rest)) == [a, b, c] + rest
  {
  }

  // ---------------------------------------------------------------------------
  // validateMrn
  // ---------------------------------------------------------------------------

  /** The three failures of `validateMrn`, each an `IllegalArgumentException`. */
  datatype MrnError = Empty | InvalidFormat | InvalidServiceFormat {
    function Message(): string {
      match this
      case Empty => "MRN is empty"
      case InvalidFormat => "MRN is not in a valid format"
      case InvalidServiceFormat => "MRN is not in a valid format for a service"
    }
  }

  /** Nothing that matches the pattern is blank: it starts with `u` or `U`. */
  lemma MatchedIsNotBlank(s: string, types: seq<string>)
    ensures MatchesPattern(s, types) ==> !IsBlank(s)
  {
    if MatchesPattern(s, types) {
      assert CharEqualsIgnoreCase(s[..|Prefix|][0], Prefix[0]);
      assert !IsTrimmed(s[0]);
    }
  }

  /**
   * `validateMrn`: `Failure` stands for the thrown exception. Blankness is
   * tested first, then the general pattern, then, only for a type segment
   * spelled exactly `service`, the service rule.
   */
  function ValidateMrn(mrn: JString): (r: Result<bool, MrnError>)
    ensures r.Success? ==> r.value
    ensures r == Failure(Empty) <==> mrn.None? || IsBlank(mrn.value)
    ensures r == Failure(InvalidFormat) <==> mrn.Some? && !IsBlank(mrn.value) && !MatchesPattern(mrn.value, EntityTypes)
    ensures r.Success? ==> MatchesPattern(mrn.value, EntityTypes)
  {
    if mrn.None? || IsBlank(mrn.value) then Failure(Empty)
    else if !MatchesPattern(mrn.value, EntityTypes) then Failure(InvalidFormat)
    else
      var s := mrn.value;
      var parts := Split(s, ':');
      MatchedSplit(s, Decompose(s).value);
      if parts[3] == "service" then
        if !MatchesPattern(s, ServiceTypes) || |parts| < 8 || !InIgnoringCase(parts[6], ServiceLevels) then
          Failure(InvalidServiceFormat)
        else
          Success(true)
      else
        Success(true)
  }

  // ---------------------------------------------------------------------------
  // The service rule, stated on the name-specific string
  // ---------------------------------------------------------------------------

  /** `b` holds a character other than a colon. */
  predicate HasNonColon(b: string) {
    exists k :: 0 <= k < |b| && b[k] != ':'
  }

  /** `n` reads as `a:lvl:b` with colon-free `a` and `lvl`. */
  predicate LevelSplit(n: string, a: string, lvl: string, b: string) {
    n == a + ":" + lvl + ":" + b && ':' !in a && ':' !in lvl
  }

  /**
   * What the service rule asks of the name-specific string: its second
   * segment is a service level and something other than colons follows it.
   */
  ghost predicate HasServiceLevelSegment(n: string) {
    exists a, lvl, b :: LevelSplit(n, a, lvl, b) && InIgnoringCase(lvl, ServiceLevels) && HasNonColon(b)
  }

  /** A string of colons only cuts into empty pieces. */
  lemma {:induction false} AllColonPieces(b: string)
    requires forall k :: 0 <= k < |b| ==> b[k] == ':'
    ensures forall i :: 0 <= i < |Pieces(b, ':')| ==> Pieces(b, ':')[i] == []
    decreases |b|
  {
    if b != [] {
      PiecesAt(b, 0);
      AllColonPieces(b[1..]);
    }
  }

  /** A character other than a colon at `k` lies in a non-empty piece, the `j`-th. */
  lemma {:induction false} NonColonPiece(b: string, k: nat) returns (j: nat)
    requires k < |b| && b[k] != ':'
    ensures j < |Pieces(b, ':')| && Pieces(b, ':')[j] != []
    decreases |b|
  {
    if ':' !in b {
      j := 0;
    } else {
      var i := IndexOf(b, ':').value;
      PiecesAt(b, i);
      if k < i {
        j := 0;
      } else {
        assert k > i;
        var rest := b[i + 1..];
        assert rest[k - i - 1] == b[k];
        var j' := NonColonPiece(rest, k - i - 1);
        j := j' + 1;
        ShiftIndex(b[..i], Pieces(rest, ':'), j');
      }
    }
  }

  /** Past a single leading element, indices shift by one. */
  lemma ShiftIndex<T>(x: T, rest: seq<T>, j: nat)
    requires j < |rest|
    ensures ([x] + rest)[j + 1] == rest[j]
  {
  }

  /** Some piece is non-empty exactly when some character is not a colon. */
  lemma NonEmptyPiece(b: string)
    ensures HasNonColon(b) <==> exists i :: 0 <= i < |Pieces(b, ':')| && Pieces(b, ':')[i] != []
  {
    if HasNonColon(b) {
      var k :| 0 <= k < |b| && b[k] != ':';
      var j := NonColonPiece(b, k);
    } else {
      AllColonPieces(b);
    }
  }

  /** A string with at least two pieces reads as `a:m` with a colon-free `a`, cut there. */
  lemma CutFirst(n: string) returns (a: string, m: string)
    requires |Pieces(n, ':')| >= 2
    ensures n == a + ":" + m && ':' !in a
    ensures Pieces(n, ':') == [a] + Pieces(m, ':')
  {
    var i := IndexOf(n, ':').value;
    a, m := n[..i], n[i + 1..];
    PiecesAt(n, i);
    CutAt(n, i);
  }

  /** A string with at least three pieces reads as `a:lvl:b`, cut there. */
  lemma LevelCut(n: string) returns (a: string, lvl: string, b: string)
    requires |Pieces(n, ':')| >= 3
    ensures LevelSplit(n, a, lvl, b)
    ensures Pieces(n, ':') == [a, lvl] + Pieces(b, ':')
  {
    var m;
    a, m := CutFirst(n);
    lvl, b := CutFirst(m);
    Regroup(a, ":", lvl, ":", b);
    ConsTwo(a, lvl, Pieces(b, ':'));
  }

  /** Cutting `a:lvl:b` gives `a`, `lvl` and the pieces of `b`. */
  lemma LevelPieces(n: string, a: string, lvl: string, b: string)
    requires LevelSplit(n, a, lvl, b)
    ensures Pieces(n, ':') == [a, lvl] + Pieces(b, ':')
  {
    var tail := lvl + [':'] + b;
    assert n == a + [':'] + tail by {
      Regroup(a, [':'], lvl, [':'], b);
    }
    assert Pieces(tail, ':') == [lvl] + Pieces(b, ':') by {
      PiecesCons(lvl, ':', b);
    }
    PiecesCons(a, ':', tail);
    ConsTwo(a, lvl, Pieces(b, ':'));
  }

  /** Regrouping a five-part concatenation. */
  lemma Regroup<T>(a: seq<T>, x: seq<T>, b: seq<T>, y: seq<T>, c: seq<T>)
    ensures a + x + b + y + c == a + x + (b + y + c)
  {
  }

  /** Regrouping two single pieces. */
  lemma ConsTwo<T>(a: T, b: T, rest: seq<T>)
    ensures [a] + ([b] + rest) == [a, b] + rest
  {
  }

  /** Three parts with the middle one a level give the level segment. */
  lemma ServiceRuleGivesSegment(n: string)
    requires |DropTrailingEmpty(Pieces(n, ':'))| >= 3
    requires InIgnoringCase(Pieces(n, ':')[1], ServiceLevels)
    ensures HasServiceLevelSegment(n)
  {
    var ps := Pieces(n, ':');
    var d := DropTrailingEmpty(ps);
    var a, lvl, b := LevelCut(n);
    PastTwo(d, a, lvl, Pieces(b, ':'));
    NonEmptyPiece(b);
    assert LevelSplit(n, a, lvl, b) && InIgnoringCase(lvl, ServiceLevels) && HasNonColon(b);
  }

  /** The last element of a prefix of `[a, b] + rest` that reaches into `rest`. */
  lemma PastTwo<T>(d: seq<T>, a: T, b: T, rest: seq<T>)
    requires d <= [a, b] + rest && |d| >= 3
    ensures ([a, b] + rest)[1] == b
    ensures rest[|d| - 3] == d[|d| - 1]
  {
  }

  /** The level segment gives three parts with the middle one a level. */
  lemma SegmentGivesServiceRule(n: string, a: string, lvl: string, b: string)
    requires LevelSplit(n, a, lvl, b) && InIgnoringCase(lvl, ServiceLevels) && HasNonColon(b)
    ensures |DropTrailingEmpty(Pieces(n, ':'))| >= 3
    ensures InIgnoringCase(Pieces(n, ':')[1], ServiceLevels)
  {
    LevelPieces(n, a, lvl, b);
    NonEmptyPiece(b);
    var k :| 0 <= k < |Pieces(b, ':')| && Pieces(b, ':')[k] != [];
    assert Pieces(n, ':')[k + 2] != [];
  }

  /**
   * The service rule of `validateMrn` (at least eight parts, part 6 a service
   * level) is exactly `HasServiceLevelSegment` of the name-specific string.
   */
  lemma ServiceRuleOnNss(n: string)
    ensures (|DropTrailingEmpty(Pieces(n, ':'))| >= 3 && InIgnoringCase(Pieces(n, ':')[1], ServiceLevels))
            <==> HasServiceLevelSegment(n)
  {
    if |DropTrailingEmpty(Pieces(n, ':'))| >= 3 && InIgnoringCase(Pieces(n, ':')[1], ServiceLevels) {
      ServiceRuleGivesSegment(n);
    }
    if HasServiceLevelSegment(n) {
      var a, lvl, b :| LevelSplit(n, a, lvl, b) && InIgnoringCase(lvl, ServiceLevels) && HasNonColon(b);
      SegmentGivesServiceRule(n, a, lvl, b);
    }
  }

  /** The parts `validateMrn` reads from a matched MRN. */
  lemma MatchedParts(s: string) returns (p: Parsed, d: seq<string>)
    requires MatchesPattern(s, EntityTypes)
    ensures Decompose(s) == Some(p)
    ensures d == DropTrailingEmpty(Pieces(p.nss, ':'))
    ensures |Split(s, ':')| == 5 + |d| && Split(s, ':')[3] == p.entityType
    ensures |d| >= 2 ==> Split(s, ':')[6] == Pieces(p.nss, ':')[1]
  {
    p := Decompose(s).value;
    d := DropTrailingEmpty(Pieces(p.nss, ':'));
    MatchedSplit(s, p);
    PartsAt(s[..3], s[4..7], s[8..11], p.entityType, p.org, d);
  }

  /** Positions in a five-element head followed by `d`. */
  lemma PartsAt<T>(a: T, b: T, c: T, t: T, o: T, d: seq<T>)
    ensures |[a, b, c, t, o] + d| == 5 + |d|
    ensures ([a, b, c, t, o] + d)[3] == t
    ensures |d| >= 2 ==> ([a, b, c, t, o] + d)[6] == d[1]
  {
  }

  /** On a matched MRN, only the service rule can still reject it. */
  lemma ValidateMatched(s: string)
    ensures MatchesPattern(s, EntityTypes) ==>
      (ValidateMrn(Some(s)).Success? <==>
       (Decompose(s).value.entityType == "service" ==> HasServiceLevelSegment(Decompose(s).value.nss)))
  {
    if MatchesPattern(s, EntityTypes) {
      var parts := ValidateOnSplit(s);
      var p, d := MatchedParts(s);
      ServiceRuleOnNss(p.nss);
    }
  }

  /** On a matched MRN, the result as the code reads it: the split's type and level segments. */
  lemma ValidateOnSplit(s: string) returns (parts: seq<string>)
    requires MatchesPattern(s, EntityTypes)
    ensures parts == Split(s, ':') && |parts| >= 5
    ensures ValidateMrn(Some(s)).Success? <==>
      (parts[3] == "service" ==> |parts| >= 8 && InIgnoringCase(parts[6], ServiceLevels))
  {
    MatchedIsNotBlank(s, EntityTypes);
    ServicePatternRedundant(s);
    var p, d := MatchedParts(s);
    parts := Split(s, ':');
  }

  /** Any split of a matching MRN into known type, org and rest is the one `Decompose` finds. */
  lemma GrammarSplitUnique(s: string, t: string, o: string, n: string)
    ensures Splits(s, t, o, n) && InIgnoringCase(t, EntityTypes) && IsOrgSegment(o) ==>
      Decompose(s) == Some(Parsed(t, o, n))
  {
    if Splits(s, t, o, n) && InIgnoringCase(t, EntityTypes) && IsOrgSegment(o) {
      NoColonIgnoringCase(t, EntityTypes);
      assert forall k :: 0 <= k < |o| ==> o[k] != ':';
      DecomposeUnique(s, t, o, n);
    }
  }

  /**
   * What `validateMrn` accepts, as a grammar: the prefix, a known type, an org
   * segment and a name-specific string; and when the type is spelled exactly
   * `service`, a service level as the name-specific string's second segment
   * followed by more than colons.
   */
  lemma ValidateMrnAccepts(s: string)
    ensures ValidateMrn(Some(s)).Success? <==>
      exists t, o, n :: && Splits(s, t, o, n) && InIgnoringCase(t, EntityTypes) && IsOrgSegment(o) && IsNss(n)
                        && (t == "service" ==> HasServiceLevelSegment(n))
  {
    MatchesPatternIff(s, EntityTypes);
    ValidateMatched(s);
    forall t, o, n {
      GrammarSplitUnique(s, t, o, n);
    }
  }

  /**
   * Whenever part 3 is exactly `service`, a match of the general pattern is a
   * match of the service pattern, so the service-pattern test never fails.
   */
  lemma ServicePatternRedundant(s: string)
    ensures MatchesPattern(s, EntityTypes) && Decompose(s).value.entityType == "service" ==>
      MatchesPattern(s, ServiceTypes)
  {
    assert EqualsIgnoreCase("service", ServiceTypes[0]);
  }

  /**
   * The service rule compares the type segment case-sensitively: a matched
   * MRN whose type is not spelled exactly `service` is accepted outright.
   */
  lemma ServiceRuleCaseSensitive(s: string)
    ensures MatchesPattern(s, EntityTypes) && Decompose(s).value.entityType != "service" ==>
      ValidateMrn(Some(s)) == Success(true)
  {
    ValidateMatched(s);
  }

  /** An MRN built from the lower-case prefix and well-formed segments, cut back into them. */
  lemma BuiltMatches(t: string, i: nat, o: string, n: string)
    requires i < |EntityTypes| && EqualsIgnoreCase(t, EntityTypes[i])
    requires IsOrgSegment(o) && IsNss(n)
    ensures Decompose(Prefix + t + ":" + o + ":" + n) == Some(Parsed(t, o, n))
    ensures MatchesPattern(Prefix + t + ":" + o + ":" + n, EntityTypes)
  {
    var s := Prefix + t + ":" + o + ":" + n;
    assert s[..|Prefix|] == Prefix && s[|Prefix|..] == t + ":" + o + ":" + n;
    GrammarSplitUnique(s, t, o, n);
  }

  /** With the type spelled `SERVICE`, any name-specific string passes: the service rule is skipped. */
  lemma UpperCaseServiceSkipsRule(o: string, n: string)
    requires IsOrgSegment(o) && IsNss(n)
    ensures ValidateMrn(Some(Prefix + "SERVICE" + ":" + o + ":" + n)) == Success(true)
  {
    BuiltMatches("SERVICE", 4, o, n);
    ServiceRuleCaseSensitive(Prefix + "SERVICE" + ":" + o + ":" + n);
  }

  /** With the type spelled `service`, a name-specific string without a colon fails the service rule. */
  lemma LowerCaseServiceNeedsLevel(o: string, n: string)
    requires IsOrgSegment(o) && IsNss(n) && ':' !in n
    ensures ValidateMrn(Some(Prefix + "service" + ":" + o + ":" + n)) == Failure(InvalidServiceFormat)
  {
    var s := Prefix + "service" + ":" + o + ":" + n;
    BuiltMatches("service", 4, o, n);
    ValidateMatched(s);
    MatchedIsNotBlank(s, EntityTypes);
  }

  /** The MRN with the lower-case prefix and the given type, org segment and name-specific string. */
  function Compose(t: string, o: string, n: string): string {
    Prefix + t + ":" + o + ":" + n
  }

  /** Any type but the exact spelling `service`, with a well-formed org segment and name-specific string, is accepted. */
  lemma OtherTypeAccepted(t: string, i: nat, o: string, n: string)
    requires i < |EntityTypes| && EqualsIgnoreCase(t, EntityTypes[i]) && t != "service"
    requires IsOrgSegment(o) && IsNss(n)
    ensures ValidateMrn(Some(Compose(t, o, n))) == Success(true)
  {
    BuiltMatches(t, i, o, n);
    ServiceRuleCaseSensitive(Compose(t, o, n));
  }

  /** A `service` MRN whose name-specific string is `a:lvl:b`, with a service level and more than colons after it, is accepted. */
  lemma ServiceWithLevelAccepted(o: string, n: string, a: string, lvl: string, b: string)
    requires IsOrgSegment(o) && IsNss(n)
    requires LevelSplit(n, a, lvl, b) && InIgnoringCase(lvl, ServiceLevels) && HasNonColon(b)
    ensures ValidateMrn(Some(Compose("service", o, n))) == Success(true)
  {
    BuiltMatches("service", 4, o, n);
    ValidateMatched(Compose("service", o, n));
  }

  /** A non-blank string that does not start with the prefix, ignoring case, is rejected as not in a valid format. */
  lemma WrongPrefixRejected(s: string, k: nat)
    requires k < |Prefix| <= |s| && !CharEqualsIgnoreCase(s[k], Prefix[k])
    requires !IsBlank(s)
    ensures ValidateMrn(Some(s)) == Failure(InvalidFormat)
  {
    assert s[..|Prefix|][k] == s[k];
  }

  /** Letters, digits, hyphens and colons only make a path without escapes. */
  lemma {:induction false} PlainPath(r: string)
    requires forall k :: 0 <= k < |r| ==> IsAlnum(r[k]) || r[k] == '-' || r[k] == ':'
    ensures PathChars(r)
    ensures |r| > 0 ==> IsNss(r)
    decreases |r|
  {
    if |r| > 0 {
      PlainPath(r[1..]);
    }
  }
}

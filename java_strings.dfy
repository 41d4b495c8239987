/**
 * The few `java.lang.String` operations the core relies on, on `string`.
 * A Dafny `char` is a Unicode scalar value, so lengths and indices here count
 * scalar values; Java counts UTF-16 code units, which differs for
 * characters outside the Basic Multilingual Plane.
 */
module JavaStrings {
  import opened Wrappers

  /** `pat` occurs in `s` starting at index `i`. */
  predicate OccursAt(s: string, pat: string, i: nat) {
    i + |pat| <= |s| && s[i..i + |pat|] == pat
  }

  /** `s.contains(pat)` */
  predicate Contains(s: string, pat: string) {
    exists i :: 0 <= i <= |s| - |pat| && OccursAt(s, pat, i)
  }

  /** `s.endsWith(suffix)` */
  predicate EndsWith(s: string, suffix: string) {
    |suffix| <= |s| && s[|s| - |suffix|..] == suffix
  }

  /** `s.indexOf(pat, from)`: the first occurrence of `pat` at or after `from`. */
  function IndexOfFrom(s: string, pat: string, from: nat): (r: Option<nat>)
    ensures r.Some? ==> from <= r.value && OccursAt(s, pat, r.value)
    ensures forall j :: from <= j && (r.None? || j < r.value) ==> !OccursAt(s, pat, j)
    decreases |s| - from
  {
    if from + |pat| > |s| then None
    else if s[from..from + |pat|] == pat then Some(from)
    else IndexOfFrom(s, pat, from + 1)
  }

  /** `s.indexOf(pat)`: absent exactly when `s` does not contain `pat`. */
  function IndexOf(s: string, pat: string): (r: Option<nat>)
    ensures r.None? <==> !Contains(s, pat)
    ensures r.Some? ==> OccursAt(s, pat, r.value)
    ensures r.Some? ==> forall j :: 0 <= j < r.value ==> !OccursAt(s, pat, j)
  {
    IndexOfFrom(s, pat, 0)
  }

  /** A piece cut out of a string that lacks `pat` lacks it too. */
  lemma SliceLacks(s: string, pat: string, a: nat, b: nat)
    requires a <= b <= |s|
    requires !Contains(s, pat)
    ensures !Contains(s[a..b], pat)
  {
    forall i | 0 <= i <= |s[a..b]| - |pat| ensures !OccursAt(s[a..b], pat, i) {
      assert !OccursAt(s, pat, a + i);
      var inner, outer := s[a..b][i..i + |pat|], s[a + i..a + i + |pat|];
      forall k | 0 <= k < |pat| ensures inner[k] == outer[k] {}
      assert inner == outer;
    }
  }

  /** The part of `s` before the first occurrence of `pat` lacks `pat`. */
  lemma PrefixLacks(s: string, pat: string, i: nat)
    requires |pat| > 0 && i <= |s|
    requires forall j :: 0 <= j < i ==> !OccursAt(s, pat, j)
    ensures !Contains(s[..i], pat)
  {
    forall j | 0 <= j <= i - |pat| ensures !OccursAt(s[..i], pat, j) {
      assert !OccursAt(s, pat, j);
      assert s[..i][j..j + |pat|] == s[j..j + |pat|];
    }
  }

  // ---------------------------------------------------------------------
  // String.trim(): strip every character <= ' ' from both ends.

  /** The first index in [start, limit) holding a character above ' ', or `limit`. */
  function SkipBlanks(s: string, start: nat, limit: nat): (r: nat)
    requires start <= limit <= |s|
    ensures start <= r <= limit
    ensures forall j :: start <= j < r ==> s[j] <= ' '
    ensures r < limit ==> s[r] > ' '
    decreases limit - start
  {
    if start < limit && s[start] <= ' ' then SkipBlanks(s, start + 1, limit) else start
  }

  /** The end of `s[..limit]` once its trailing characters <= ' ' are dropped. */
  function DropTrailingBlanks(s: string, limit: nat): (r: nat)
    requires limit <= |s|
    ensures r <= limit
    ensures forall j :: r <= j < limit ==> s[j] <= ' '
    ensures 0 < r ==> s[r - 1] > ' '
  {
    if 0 < limit && s[limit - 1] <= ' ' then DropTrailingBlanks(s, limit - 1) else limit
  }

  /** End of the trimmed part of `s`. */
  function TrimEnd(s: string): nat
    ensures TrimEnd(s) <= |s|
  {
    DropTrailingBlanks(s, |s|)
  }

  /** Start of the trimmed part of `s`. */
  function TrimStart(s: string): nat
    ensures TrimStart(s) <= TrimEnd(s)
  {
    SkipBlanks(s, 0, TrimEnd(s))
  }

  /**
   * `s.trim()`: `s` is the result framed by characters <= ' ' only, and the
   * result neither starts nor ends with such a character.
   */
  function Trim(s: string): (r: string)
    ensures s == s[..TrimStart(s)] + r + s[TrimEnd(s)..]
    ensures forall j :: 0 <= j < TrimStart(s) ==> s[j] <= ' '
    ensures forall j :: TrimEnd(s) <= j < |s| ==> s[j] <= ' '
    ensures r == [] || (r[0] > ' ' && r[|r| - 1] > ' ')
  {
    var r := s[TrimStart(s)..TrimEnd(s)];
    assert s == s[..TrimStart(s)] + r + s[TrimEnd(s)..];
    r
  }

  /** Trimming cuts a piece out of the string, so it brings in no new match. */
  lemma TrimLacks(s: string, pat: string)
    requires !Contains(s, pat)
    ensures !Contains(Trim(s), pat)
  {
    assert Trim(s) == s[TrimStart(s)..TrimEnd(s)];
    SliceLacks(s, pat, TrimStart(s), TrimEnd(s));
  }

  /** A string trims to "" exactly when all its characters are <= ' '. */
  lemma {:induction false} TrimBlank(s: string)
    ensures Trim(s) == "" <==> forall j :: 0 <= j < |s| ==> s[j] <= ' '
  {
    var a, b := TrimStart(s), TrimEnd(s);
    assert Trim(s) == s[a..b];
    if Trim(s) == "" {
      assert a == b;
    } else {
      assert s[a] > ' ' by {
        assert Trim(s)[0] == s[a];
      }
    }
  }

  // ---------------------------------------------------------------------
  // String.split(sep) for a literal separator (no regular-expression
  // metacharacters), with Java's limit 0.

  /**
   * Every piece between two consecutive non-overlapping occurrences of `sep`,
   * found from left to right, trailing empty pieces included.
   */
  function Pieces(s: string, sep: string): (ps: seq<string>)
    requires |sep| > 0
    ensures |ps| >= 1
    ensures forall k :: 0 <= k < |ps| ==> !Contains(ps[k], sep)
    decreases |s|
  {
    match IndexOf(s, sep)
    case None => [s]
    case Some(i) =>
      PrefixLacks(s, sep, i);
      [s[..i]] + Pieces(s[i + |sep|..], sep)
  }

  /** The pieces joined back with `sep` between consecutive ones (`String.join`). */
  function Join(ps: seq<string>, sep: string): string {
    if |ps| == 0 then ""
    else if |ps| == 1 then ps[0]
    else ps[0] + sep + Join(ps[1..], sep)
  }

  /**
   * `ps` with its trailing empty strings removed: a prefix of `ps`, everything
   * after it is empty, and it does not itself end with an empty string.
   */
  function DropTrailingEmpty(ps: seq<string>): (r: seq<string>)
    ensures |r| <= |ps| && r == ps[..|r|]
    ensures forall k :: |r| <= k < |ps| ==> ps[k] == ""
    ensures r == [] || r[|r| - 1] != ""
  {
    if ps != [] && ps[|ps| - 1] == "" then DropTrailingEmpty(ps[..|ps| - 1]) else ps
  }

  /**
   * `s.split(sep)`: without a match the whole string is the one element;
   * otherwise the pieces, minus trailing empty ones.
   */
  function Split(s: string, sep: string): (r: seq<string>)
    requires |sep| > 0
    ensures forall k :: 0 <= k < |r| ==> !Contains(r[k], sep)
  {
    if IndexOf(s, sep).None? then [s] else DropTrailingEmpty(Pieces(s, sep))
  }

  /** Joining the pieces with the separator gives the string back. */
  lemma {:induction false} JoinPieces(s: string, sep: string)
    requires |sep| > 0
    ensures Join(Pieces(s, sep), sep) == s
    decreases |s|
  {
    match IndexOf(s, sep)
    case None =>
    case Some(i) =>
      var rest := s[i + |sep|..];
      var ps := Pieces(rest, sep);
      assert Pieces(s, sep) == [s[..i]] + ps;
      JoinPieces(rest, sep);
      assert s[i..i + |sep|] == sep;
      assert s == s[..i] + sep + rest;
  }

  /** When there are at least two pieces and the last is empty, `s` ends with `sep`. */
  lemma {:induction false} EmptyLastPiece(s: string, sep: string)
    requires |sep| > 0
    requires |Pieces(s, sep)| > 1 && Pieces(s, sep)[|Pieces(s, sep)| - 1] == ""
    ensures EndsWith(s, sep)
    decreases |s|
  {
    match IndexOf(s, sep)
    case None =>
    case Some(i) =>
      var rest := s[i + |sep|..];
      assert Pieces(s, sep) == [s[..i]] + Pieces(rest, sep);
      if |Pieces(rest, sep)| > 1 {
        EmptyLastPiece(rest, sep);
        assert s[|s| - |sep|..] == rest[|rest| - |sep|..];
      } else {
        assert rest == "";
        assert s[|s| - |sep|..] == sep;
      }
  }

  /**
   * What `Split` keeps: without a match, `[s]`; with one, the pieces up to the
   * last non-empty one. Leading and inner empty pieces survive, and only
   * empty pieces are dropped.
   */
  lemma SplitShape(s: string, sep: string)
    requires |sep| > 0
    ensures !Contains(s, sep) ==> Split(s, sep) == [s]
    ensures Contains(s, sep) ==>
      var ps, r := Pieces(s, sep), Split(s, sep);
      && r == ps[..|r|]
      && (forall k :: |r| <= k < |ps| ==> ps[k] == "")
      && (r == [] || r[|r| - 1] != "")
  {
  }

  /** A match splits the string into at least two pieces. */
  lemma MatchGivesTwoPieces(s: string, sep: string)
    requires |sep| > 0 && IndexOf(s, sep).Some?
    ensures |Pieces(s, sep)| >= 2
  {
    var i := IndexOf(s, sep).value;
    assert Pieces(s, sep) == [s[..i]] + Pieces(s[i + |sep|..], sep);
  }

  /** Nothing is dropped from pieces that end with a non-empty one. */
  lemma DropNothing(ps: seq<string>)
    requires ps != [] && ps[|ps| - 1] != ""
    ensures DropTrailingEmpty(ps) == ps
  {
  }

  /** A string not ending with the separator is rebuilt by joining its split. */
  lemma SplitJoin(s: string, sep: string)
    requires |sep| > 0
    requires !EndsWith(s, sep)
    ensures Join(Split(s, sep), sep) == s
  {
    if IndexOf(s, sep).Some? {
      var ps := Pieces(s, sep);
      MatchGivesTwoPieces(s, sep);
      if ps[|ps| - 1] == "" {
        EmptyLastPiece(s, sep);
      } else {
        DropNothing(ps);
        JoinPieces(s, sep);
      }
    }
  }

  // ---------------------------------------------------------------------
  // ASCII case mapping, as used for URL schemes.

  function LowerChar(c: char): char {
    if 'A' <= c <= 'Z' then (c as int + 32) as char else c
  }

  /** `s` with every ASCII upper-case letter mapped to lower case. */
  function Lower(s: string): (r: string)
    ensures |r| == |s|
    ensures forall i :: 0 <= i < |s| ==> r[i] == LowerChar(s[i])
  {
    seq(|s|, i requires 0 <= i < |s| => LowerChar(s[i]))
  }
}

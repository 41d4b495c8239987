/**
 * The scheme that `new java.net.URL(spec)` settles on for an absolute URL
 * string. The constructor ignores characters <= ' ' at both ends, skips an
 * optional "url:" (any case), treats a leading '#' as a bare reference, and
 * takes as the scheme the text before the first ':' when no '/' comes
 * first, lower-cased, if it is a well-formed scheme name. Without one it
 * throws MalformedURLException ("no protocol").
 */
module JavaUrl {
  import opened Wrappers
  import opened JavaStrings

  /** Where the scheme scan starts: after leading blanks and an optional "url:". */
  function ScanStart(spec: string): (start: nat)
    ensures start <= TrimEnd(spec)
  {
    var limit := TrimEnd(spec);
    var start := SkipBlanks(spec, 0, limit);
    if start + 4 <= |spec| && Lower(spec[start..start + 4]) == "url:" then
      assert LowerChar(spec[start + 3]) == ':';
      start + 4
    else
      start
  }

  /** The first ':' in `spec[i..limit]`, unless a '/' comes before it. */
  function SchemeColon(spec: string, i: nat, limit: nat): (r: Option<nat>)
    requires i <= limit <= |spec|
    ensures r.Some? ==> i <= r.value < limit && spec[r.value] == ':'
    ensures r.Some? ==> forall k :: i <= k < r.value ==> spec[k] != ':' && spec[k] != '/'
    ensures r.None? ==> forall k :: i <= k < limit && spec[k] == ':' ==> exists m :: i <= m < k && spec[m] == '/'
    decreases limit - i
  {
    if i == limit || spec[i] == '/' then None
    else if spec[i] == ':' then Some(i)
    else SchemeColon(spec, i + 1, limit)
  }

  predicate IsAsciiLetter(c: char) {
    'a' <= c <= 'z' || 'A' <= c <= 'Z'
  }

  /** A scheme name: a letter, then letters, digits, '.', '+' or '-'. */
  predicate ValidProtocol(p: string) {
    && |p| >= 1
    && IsAsciiLetter(p[0])
    && forall i :: 1 <= i < |p| ==> IsAsciiLetter(p[i]) || '0' <= p[i] <= '9' || p[i] in ".+-"
  }

  /**
   * The lower-cased scheme of `spec`, or None where the constructor reports
   * "no protocol". The scheme is the lower-cased text between the scan start
   * and a ':' inside the string.
   */
  function SchemeOf(spec: string): (r: Option<string>)
    ensures r.Some? ==> ValidProtocol(r.value)
    ensures r.Some? ==> ScanStart(spec) + |r.value| < |spec|
    ensures r.Some? ==>
      && Lower(spec[ScanStart(spec)..ScanStart(spec) + |r.value|]) == r.value
      && spec[ScanStart(spec) + |r.value|] == ':'
  {
    var start := ScanStart(spec);
    if start < |spec| && spec[start] == '#' then None
    else
      match SchemeColon(spec, start, TrimEnd(spec))
      case None => None
      case Some(colon) =>
        var p := Lower(spec[start..colon]);
        if ValidProtocol(p) then Some(p) else None
  }

  /**
   * `new URL(spec).getProtocol()`, or None where the constructor throws
   * MalformedURLException. `rejects` stands for the checks made after the
   * scheme is found (no handler for it, an authority or port it refuses).
   */
  function Protocol(spec: string, rejects: string -> bool): Option<string> {
    if rejects(spec) then None else SchemeOf(spec)
  }

  /** A string starting with "https" never has the scheme "http". */
  lemma HttpsPrefixIsNotHttp(rest: string)
    ensures SchemeOf("https" + rest) != Some("http")
  {
  }

  /**
   * Where the scheme is "http", index 4 of the string still belongs to the
   * leading blanks, the "url:" prefix, the scheme or its ':'.
   */
  lemma HttpSchemeFifthChar(spec: string)
    requires SchemeOf(spec) == Some("http")
    ensures 4 < |spec|
    ensures spec[4] <= ' ' || LowerChar(spec[4]) in "url:http"
  {
    var limit := TrimEnd(spec);
    var s0 := SkipBlanks(spec, 0, limit);
    var start := ScanStart(spec);
    var word := Lower(spec[start..start + 4]);
    assert word == "http";
    if 4 < s0 {
      assert spec[4] <= ' ';
    } else if 4 < start {
      assert start == s0 + 4;
      assert Lower(spec[s0..s0 + 4])[4 - s0] == LowerChar(spec[4]);
    } else if 4 < start + 4 {
      assert word[4 - start] == LowerChar(spec[4]);
    } else {
      assert spec[4] == ':';
    }
  }

  /** The scan stops at the first ':' when no ':' or '/' comes before it. */
  lemma {:induction false} FirstColon(spec: string, i: nat, limit: nat, c: nat)
    requires i <= c < limit <= |spec| && spec[c] == ':'
    requires forall k :: i <= k < c ==> spec[k] != ':' && spec[k] != '/'
    ensures SchemeColon(spec, i, limit) == Some(c)
    decreases c - i
  {
    if i < c {
      FirstColon(spec, i + 1, limit, c);
    }
  }

  /** A character of a well-formed scheme, before lower-casing: neither blank, ':' nor '/'. */
  lemma SchemeChar(p: string, j: nat)
    requires ValidProtocol(Lower(p)) && j < |p|
    ensures p[j] > ' ' && p[j] != ':' && p[j] != '/' && p[j] != '#'
  {
    assert Lower(p)[j] == LowerChar(p[j]);
  }

  /**
   * Blanks, then a well-formed scheme name in any case, then ':': the
   * protocol is that name lower-cased, whatever follows. ("url" is left out:
   * "url:" is the optional prefix the constructor skips.)
   */
  lemma SchemeOfPrefixed(b: string, p: string, rest: string)
    requires forall j :: 0 <= j < |b| ==> b[j] <= ' '
    requires ValidProtocol(Lower(p)) && Lower(p) != "url"
    ensures SchemeOf(b + p + ":" + rest) == Some(Lower(p))
  {
    var spec := b + p + ":" + rest;
    var c := |b| + |p|;
    PrefixedLayout(b, p, rest);
    PrefixedScanStart(b, p, rest);
    PrefixedColon(b, p, rest);
    assert spec[|b|] != '#' by {
      assert spec[|b|] == spec[|b|..c][0];
      SchemeChar(p, 0);
    }
  }

  /** Where the pieces of `b + p + ":" + rest` sit, and that the ':' is not trimmed away. */
  lemma PrefixedLayout(b: string, p: string, rest: string)
    requires ValidProtocol(Lower(p))
    ensures var spec := b + p + ":" + rest;
      && |b| + |p| < TrimEnd(spec)
      && spec[|b| + |p|] == ':'
      && spec[|b|..|b| + |p|] == p
      && spec[..|b|] == b
  {
    var spec := b + p + ":" + rest;
    assert spec[|b| + |p|] == ':';
  }

  /** The scan for `b + p + ":" + rest` starts at the scheme. */
  lemma PrefixedScanStart(b: string, p: string, rest: string)
    requires forall j :: 0 <= j < |b| ==> b[j] <= ' '
    requires ValidProtocol(Lower(p)) && Lower(p) != "url"
    ensures ScanStart(b + p + ":" + rest) == |b|
  {
    var spec := b + p + ":" + rest;
    PrefixedLayout(b, p, rest);
    var limit := TrimEnd(spec);
    assert SkipBlanks(spec, 0, limit) == |b| by {
      assert spec[|b|] == p[0];
      SchemeChar(p, 0);
      forall j | 0 <= j < |b| ensures spec[j] <= ' ' {
        assert spec[j] == spec[..|b|][j];
      }
    }
    if |b| + 4 <= |spec| {
      NotUrlPrefix(spec, |b|, p);
    }
  }

  /** The scan from the scheme stops at the ':' after it. */
  lemma PrefixedColon(b: string, p: string, rest: string)
    requires ValidProtocol(Lower(p))
    ensures |b| + |p| < TrimEnd(b + p + ":" + rest)
    ensures SchemeColon(b + p + ":" + rest, |b|, TrimEnd(b + p + ":" + rest)) == Some(|b| + |p|)
  {
    var spec := b + p + ":" + rest;
    PrefixedLayout(b, p, rest);
    forall k | |b| <= k < |b| + |p| ensures spec[k] != ':' && spec[k] != '/' {
      assert spec[k] == spec[|b|..|b| + |p|][k - |b|];
      SchemeChar(p, k - |b|);
    }
    FirstColon(spec, |b|, TrimEnd(spec), |b| + |p|);
  }

  /** "http" in any case, directly followed by ':', is the scheme "http". */
  lemma HttpSchemeOf(p: string, rest: string)
    requires Lower(p) == "http"
    ensures SchemeOf(p + ":" + rest) == Some("http")
  {
    var h := Lower(p);
    assert ValidProtocol(h) && h != "url" by {
      assert h[0] == 'h' && h[1] == 't' && h[2] == 't' && h[3] == 'p';
      assert h[0] != "url"[0];
    }
    assert p + ":" + rest == "" + p + ":" + rest;
    SchemeOfPrefixed("", p, rest);
  }

  /** Where a well-formed scheme other than "url" starts at `start`, the text there is not "url:". */
  lemma NotUrlPrefix(spec: string, start: nat, p: string)
    requires start + |p| < |spec| && start + 4 <= |spec|
    requires spec[start..start + |p|] == p && spec[start + |p|] == ':'
    requires ValidProtocol(Lower(p)) && Lower(p) != "url"
    ensures Lower(spec[start..start + 4]) != "url:"
  {
    var w := Lower(spec[start..start + 4]);
    if |p| >= 4 {
      assert w[3] == Lower(p)[3] != ':';
    } else if |p| == 3 {
      assert w[..3] == Lower(p);
    } else {
      assert w[|p|] == ':' != "url:"[|p|];
    }
  }

  // ---------------------------------------------------------------------
  // Worked cases.

  /** Lower-casing leaves "http" as it is. */
  lemma LowerHttp()
    ensures Lower("http") == "http"
  {
    var r := Lower("http");
    assert r[0] == 'h' && r[1] == 't' && r[2] == 't' && r[3] == 'p';
  }

  /** A plain http URL has the scheme "http". */
  lemma PlainHttpScheme()
    ensures SchemeOf("http://y") == Some("http")
  {
    var spec := "http://y";
    assert spec[7] == 'y';
    assert TrimEnd(spec) == 8;
    assert spec[0] == 'h';
    assert SkipBlanks(spec, 0, 8) == 0;
    assert spec[0..4] == "http";
    LowerHttp();
    assert ScanStart(spec) == 0;
    assert spec[1] == 't' && spec[2] == 't' && spec[3] == 'p' && spec[4] == ':';
    assert SchemeColon(spec, 0, 8) == Some(4);
  }

  /** Leading blanks are skipped before the scheme. */
  lemma BlankHttpScheme()
    ensures SchemeOf(" http://y") == Some("http")
  {
    var spec := " http://y";
    assert spec[8] == 'y';
    assert TrimEnd(spec) == 9;
    assert spec[0] == ' ' && spec[1] == 'h';
    assert SkipBlanks(spec, 1, 9) == 1;
    assert SkipBlanks(spec, 0, 9) == 1;
    assert spec[1..5] == "http";
    LowerHttp();
    assert ScanStart(spec) == 1;
    assert spec[2] == 't' && spec[3] == 't' && spec[4] == 'p' && spec[5] == ':';
    assert SchemeColon(spec, 1, 9) == Some(5);
  }

  /** Without a ':' there is no scheme. */
  lemma NoColonNoScheme()
    ensures SchemeOf("not a url") == None
  {
    var spec := "not a url";
    assert spec[8] == 'l';
    assert TrimEnd(spec) == 9;
    assert spec[0] == 'n';
    assert SkipBlanks(spec, 0, 9) == 0;
    assert Lower(spec[0..4])[0] == 'n';
    assert ScanStart(spec) == 0;
    assert spec == ['n', 'o', 't', ' ', 'a', ' ', 'u', 'r', 'l'];
    assert SchemeColon(spec, 9, 9) == None;
    assert SchemeColon(spec, 8, 9) == None;
    assert SchemeColon(spec, 7, 9) == None;
    assert SchemeColon(spec, 6, 9) == None;
    assert SchemeColon(spec, 5, 9) == None;
    assert SchemeColon(spec, 4, 9) == None;
    assert SchemeColon(spec, 3, 9) == None;
    assert SchemeColon(spec, 2, 9) == None;
    assert SchemeColon(spec, 1, 9) == None;
    assert SchemeColon(spec, 0, 9) == None;
  }
}

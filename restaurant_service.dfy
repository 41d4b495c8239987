/**
 * DefaultRestaurantService: turns the vendor's restaurant search answer into
 * the restaurant list. The callback string is unwrapped by fixed slicing,
 * its payload parsed, entries without a link or pointing at the
 * "sv-group" vendor are dropped, and every remaining entry's link is
 * upgraded from http to https in place. The HTTP request, the JSON decoder
 * and the DTO converter are parameters.
 */
module RestaurantService {
  import opened Wrappers
  import opened JavaStrings
  import JavaUrl

  /** Characters of the callback wrapper before the JSON payload. */
  const CALLBACK_PREFIX_LENGTH := 36
  /** Characters of the callback wrapper after the JSON payload. */
  const CALLBACK_SUFFIX_LENGTH := 8
  /** Marks links of restaurants run by the vendor group itself. */
  const EXCLUDED_VENDOR_MARKER := "sv-group"
  const PARSE_FAILURE_MESSAGE := "Failed to parse restaurant search response"

  /** What `getRestaurants` can throw. */
  datatype Failure =
    | ExternalException(message: string)  // the payload is not the expected JSON
    | StringIndexOutOfBounds              // the callback string is too short to unwrap

  /** The field values of one restaurant entry at one moment. */
  datatype RestaurantRecord = RestaurantRecord(name: string, link: string, attributes: map<string, string>)

  /**
   * One entry of the vendor's list. The service rewrites its link in place
   * and never assigns its other fields once the entry is decoded.
   */
  class SvRestaurant {
    const name: string
    var link: string
    /** The vendor's other fields, by name. */
    const attributes: map<string, string>

    constructor (name: string, link: string, attributes: map<string, string>)
      ensures this.name == name && this.link == link && this.attributes == attributes
    {
      this.name := name;
      this.link := link;
      this.attributes := attributes;
    }

    function Record(): RestaurantRecord
      reads this
    {
      RestaurantRecord(name, link, attributes)
    }
  }

  function Records(list: seq<SvRestaurant>): (records: seq<RestaurantRecord>)
    reads list
    ensures |records| == |list|
    ensures forall j :: 0 <= j < |list| ==> records[j] == list[j].Record()
  {
    seq(|list|, j reads list requires 0 <= j < |list| => list[j].Record())
  }

  // ---------------------------------------------------------------------
  // Unwrapping the callback string.

  /**
   * `s.substring(begin, end)`: defined when 0 <= begin <= end <= |s|, and
   * then the piece between the part before `begin` and the part from `end`.
   */
  function Substring(s: string, begin: int, end: int): (r: Result<string, Failure>)
    ensures r.Ok? <==> 0 <= begin <= end <= |s|
    ensures r.Ok? ==> |r.value| == end - begin && s == s[..begin] + r.value + s[end..]
    ensures r.Err? ==> r.error == StringIndexOutOfBounds
  {
    if 0 <= begin <= end <= |s| then
      assert s == s[..begin] + s[begin..end] + s[end..];
      Ok(s[begin..end])
    else
      Err(StringIndexOutOfBounds)
  }

  /**
   * The JSON payload inside the callback string: all but its first 36 and
   * last 8 characters. A string shorter than 44 characters makes
   * `substring` throw, which the service does not catch.
   */
  function UnwrapCallback(callback: string): (r: Result<string, Failure>)
    ensures r.Ok? <==> |callback| >= CALLBACK_PREFIX_LENGTH + CALLBACK_SUFFIX_LENGTH
    ensures r.Ok? ==>
      && |r.value| == |callback| - 44
      && callback == callback[..36] + r.value + callback[|callback| - 8..]
    ensures r.Err? ==> r.error == StringIndexOutOfBounds
  {
    Substring(callback, CALLBACK_PREFIX_LENGTH, |callback| - CALLBACK_SUFFIX_LENGTH)
  }

  /**
   * The entries the decoder yields for `callback`, or none where unwrapping
   * or decoding fails.
   */
  function Parsed(callback: string, parse: string -> Option<seq<SvRestaurant>>): seq<SvRestaurant> {
    match UnwrapCallback(callback)
    case Err(_) => []
    case Ok(payload) =>
      match parse(payload)
      case None => []
      case Some(list) => list
  }

  /** The callback unwraps and its payload decodes. */
  predicate Parses(callback: string, parse: string -> Option<seq<SvRestaurant>>) {
    UnwrapCallback(callback).Ok? && parse(UnwrapCallback(callback).value).Some?
  }

  // ---------------------------------------------------------------------
  // Filtering.

  /** The filter of `getRestaurants`: a non-empty link outside the vendor group. */
  predicate Listed(link: string) {
    !Contains(link, EXCLUDED_VENDOR_MARKER) && link != ""
  }

  /** The positions below `n` of the listed links, in increasing order. */
  function KeptBelow(links: seq<string>, n: nat): (idx: seq<nat>)
    requires n <= |links|
    ensures forall k :: 0 <= k < |idx| ==> idx[k] < n && Listed(links[idx[k]])
  {
    if n == 0 then []
    else KeptBelow(links, n - 1) + if Listed(links[n - 1]) then [n - 1] else []
  }

  /** The positions of the listed links, in increasing order. */
  function KeptIndices(links: seq<string>): (idx: seq<nat>)
    ensures forall k :: 0 <= k < |idx| ==> idx[k] < |links| && Listed(links[idx[k]])
  {
    KeptBelow(links, |links|)
  }

  /** The positions come in increasing order, so the filter keeps the list's order. */
  lemma {:induction false} KeptBelowIncreasing(links: seq<string>, n: nat)
    requires n <= |links|
    ensures forall k, m :: 0 <= k < m < |KeptBelow(links, n)| ==> KeptBelow(links, n)[k] < KeptBelow(links, n)[m]
  {
    if n > 0 {
      var prev := KeptBelow(links, n - 1);
      KeptBelowIncreasing(links, n - 1);
      var idx := KeptBelow(links, n);
      assert idx == prev + if Listed(links[n - 1]) then [n - 1] else [];
      forall k, m | 0 <= k < m < |idx| ensures idx[k] < idx[m] {
        if m < |prev| {
          assert idx[k] == prev[k] && idx[m] == prev[m];
          assert prev[k] < prev[m];
        } else {
          assert idx[k] == prev[k] < n - 1 == idx[m];
        }
      }
    }
  }

  lemma KeptIndicesIncreasing(links: seq<string>)
    ensures forall k, m :: 0 <= k < m < |KeptIndices(links)| ==> KeptIndices(links)[k] < KeptIndices(links)[m]
  {
    KeptBelowIncreasing(links, |links|);
    assert KeptIndices(links) == KeptBelow(links, |links|);
  }

  /** No listed position below `n` is missed. */
  lemma {:induction false} KeptBelowComplete(links: seq<string>, n: nat, j: nat)
    requires j < n <= |links| && Listed(links[j])
    ensures j in KeptBelow(links, n)
  {
    if j < n - 1 {
      KeptBelowComplete(links, n - 1, j);
    }
  }

  /** No listed position is missed. */
  lemma KeptIndicesComplete(links: seq<string>, j: nat)
    requires j < |links| && Listed(links[j])
    ensures j in KeptIndices(links)
  {
    KeptBelowComplete(links, |links|, j);
  }

  /** The positions below `n` depend only on the first `n` links. */
  lemma {:induction false} KeptBelowAgree(a: seq<string>, b: seq<string>, n: nat)
    requires n <= |a| && n <= |b| && a[..n] == b[..n]
    ensures KeptBelow(a, n) == KeptBelow(b, n)
  {
    if n > 0 {
      assert a[n - 1] == a[..n][n - 1] == b[n - 1];
      assert a[..n - 1] == a[..n][..n - 1];
      assert b[..n - 1] == b[..n][..n - 1];
      KeptBelowAgree(a, b, n - 1);
    }
  }

  /** The elements of `s` at the positions `idx`, in that order. */
  function Select<T>(s: seq<T>, idx: seq<nat>): (r: seq<T>)
    requires forall k :: 0 <= k < |idx| ==> idx[k] < |s|
    ensures |r| == |idx|
    ensures forall k :: 0 <= k < |idx| ==> r[k] == s[idx[k]]
  {
    seq(|idx|, k requires 0 <= k < |idx| => s[idx[k]])
  }

  // ---------------------------------------------------------------------
  // The https upgrade.

  /** The link after `upgradeRestaurantLinkToHttps`. */
  function UpgradedLink(link: string, rejects: string -> bool): string {
    if JavaUrl.Protocol(link, rejects) == Some("http") then "https" + link[4..] else link
  }

  /**
   * The link changes exactly when `new URL(link)` succeeds with protocol
   * "http"; then its first four characters give way to "https", one
   * character longer, and everything from index 4 is kept.
   */
  lemma UpgradedLinkChange(link: string, rejects: string -> bool)
    ensures var r := UpgradedLink(link, rejects);
      && (r != link <==> JavaUrl.Protocol(link, rejects) == Some("http"))
      && (r != link ==> |r| == |link| + 1 && r[..5] == "https" && r[5..] == link[4..])
  {
  }

  /** Upgrading twice is upgrading once. */
  lemma UpgradeIdempotent(link: string, rejects: string -> bool)
    ensures UpgradedLink(UpgradedLink(link, rejects), rejects) == UpgradedLink(link, rejects)
  {
    var once := UpgradedLink(link, rejects);
    UpgradedLinkChange(link, rejects);
    if once != link {
      assert once == "https" + link[4..];
      JavaUrl.HttpsPrefixIsNotHttp(link[4..]);
    }
  }

  /**
   * Any link whose scheme is "http" in some case, directly followed by ':',
   * gets "https" in front of the ':' when the URL is accepted, whatever follows.
   */
  lemma HttpLinkUpgraded(p: string, rest: string, rejects: string -> bool)
    requires Lower(p) == "http" && !rejects(p + ":" + rest)
    ensures UpgradedLink(p + ":" + rest, rejects) == "https:" + rest
  {
    JavaUrl.HttpSchemeOf(p, rest);
    assert (p + ":" + rest)[4..] == ":" + rest;
  }

  /** A listed link stays listed once upgraded: the upgrade brings in no "sv-group". */
  lemma UpgradeKeepsListed(link: string, rejects: string -> bool)
    requires Listed(link)
    ensures Listed(UpgradedLink(link, rejects))
  {
    var r := UpgradedLink(link, rejects);
    UpgradedLinkChange(link, rejects);
    if r != link {
      forall p | 0 <= p <= |r| - 8 ensures !OccursAt(r, EXCLUDED_VENDOR_MARKER, p) {
        UpgradedLacksMarkerAt(link, r, p);
      }
    }
  }

  /** No "sv-group" starts at any index of the rewritten form of a listed http link. */
  lemma UpgradedLacksMarkerAt(link: string, r: string, p: nat)
    requires Listed(link) && JavaUrl.SchemeOf(link) == Some("http")
    requires |r| == |link| + 1 && r[..5] == "https" && r[5..] == link[4..]
    requires p <= |r| - 8
    ensures !OccursAt(r, EXCLUDED_VENDOR_MARKER, p)
  {
    var marker := EXCLUDED_VENDOR_MARKER;
    JavaUrl.HttpSchemeFifthChar(link);
    if p >= 5 {
      ShiftedLacksMarker(link, r, p);
    } else if p == 4 {
      assert r[p..p + 8][1] == link[4] != marker[1];
    } else {
      assert r[p..p + 8][0] == "https"[p] != marker[0];
    }
  }

  /** Past the inserted 's', the rewritten link reads as the original shifted by one. */
  lemma ShiftedLacksMarker(link: string, r: string, p: nat)
    requires Listed(link) && 4 <= |link| && |r| == |link| + 1 && r[5..] == link[4..]
    requires 5 <= p <= |r| - 8
    ensures !OccursAt(r, EXCLUDED_VENDOR_MARKER, p)
  {
    assert r[p..p + 8] == link[p - 1..p + 7];
    assert !OccursAt(link, EXCLUDED_VENDOR_MARKER, p - 1);
  }

  /** An entry's field values after `upgradeRestaurantLinkToHttps`. */
  function Upgraded(rec: RestaurantRecord, rejects: string -> bool): RestaurantRecord {
    rec.(link := UpgradedLink(rec.link, rejects))
  }

  /** `upgradeRestaurantLinkToHttps`: rewrites the link and nothing else. */
  method UpgradeRestaurantLinkToHttps(rest: SvRestaurant, rejects: string -> bool)
    modifies rest
    ensures rest.link == UpgradedLink(old(rest.link), rejects)
  {
    var protocol := JavaUrl.Protocol(rest.link, rejects);
    if protocol == Some("http") {
      rest.link := "https" + rest.link[4..];
    }
  }

  /**
   * The filter-then-upgrade pipeline on field values: the listed records,
   * in order, each with its link upgraded.
   */
  function Normalized(records: seq<RestaurantRecord>, rejects: string -> bool): seq<RestaurantRecord> {
    if records == [] then []
    else
      var rest := Normalized(records[..|records| - 1], rejects);
      var last := records[|records| - 1];
      if Listed(last.link) then rest + [Upgraded(last, rejects)] else rest
  }

  /** Every entry after the filter-and-peek pass: listed ones upgraded, the others as they were. */
  function AfterPass(records: seq<RestaurantRecord>, rejects: string -> bool): (r: seq<RestaurantRecord>)
    ensures |r| == |records|
  {
    seq(|records|, j requires 0 <= j < |records| =>
      if Listed(records[j].link) then Upgraded(records[j], rejects) else records[j])
  }

  function RecordLinks(records: seq<RestaurantRecord>): (links: seq<string>)
    ensures |links| == |records|
    ensures forall j :: 0 <= j < |records| ==> links[j] == records[j].link
  {
    seq(|records|, j requires 0 <= j < |records| => records[j].link)
  }

  /**
   * Normalized is an order-preserving selection: entry k of the result is the
   * record at the k-th listed position with its link upgraded, and every
   * link in it is listed.
   */
  lemma {:induction false} NormalizedSelects(records: seq<RestaurantRecord>, rejects: string -> bool)
    ensures var idx, r := KeptIndices(RecordLinks(records)), Normalized(records, rejects);
      && |r| == |idx|
      && forall k :: 0 <= k < |r| ==> r[k] == Upgraded(records[idx[k]], rejects) && Listed(r[k].link)
  {
    if records != [] {
      var init := records[..|records| - 1];
      NormalizedSelects(init, rejects);
      assert RecordLinks(records)[..|records| - 1] == RecordLinks(init);
      KeptBelowAgree(RecordLinks(records), RecordLinks(init), |records| - 1);
      var last := records[|records| - 1];
      if Listed(last.link) {
        UpgradeKeepsListed(last.link, rejects);
      }
    }
  }

  /**
   * Records taken, in order, at the listed positions of the state after the
   * pass are the normalized records, and all their links are listed.
   */
  lemma KeptOfAfterPass(records: seq<RestaurantRecord>, kept: seq<RestaurantRecord>, rejects: string -> bool)
    requires var idx, after := KeptIndices(RecordLinks(records)), AfterPass(records, rejects);
      |kept| == |idx| && forall k :: 0 <= k < |kept| ==> kept[k] == after[idx[k]]
    ensures kept == Normalized(records, rejects)
    ensures forall k :: 0 <= k < |kept| ==> Listed(kept[k].link)
  {
    NormalizedSelects(records, rejects);
  }

  /**
   * The `filter`, `peek` and `collect` stages of `getRestaurants`: the listed
   * entries are taken in their original order, then each of them has its
   * link upgraded in place. Afterwards the listed entries carry upgraded
   * links, every other entry is as it was, and every kept link is still
   * listed.
   */
  method RetainAndUpgrade(list: seq<SvRestaurant>, rejects: string -> bool) returns (kept: seq<SvRestaurant>)
    modifies list
    ensures kept == Select(list, KeptIndices(RecordLinks(old(Records(list)))))
    ensures Records(list) == AfterPass(old(Records(list)), rejects)
    ensures Records(kept) == Normalized(old(Records(list)), rejects)
    ensures forall k :: 0 <= k < |kept| ==> Listed(kept[k].link)
  {
    ghost var records0 := Records(list);
    ghost var after := AfterPass(records0, rejects);
    var links := seq(|list|, j reads list requires 0 <= j < |list| => list[j].link);
    assert links == RecordLinks(records0);
    var idx := KeptIndices(links);
    kept := Select(list, idx);
    forall r | r in kept {
      r.link := UpgradedLink(r.link, rejects);
    }
    forall j | 0 <= j < |list| ensures list[j].Record() == after[j] {
      if Listed(links[j]) {
        KeptIndicesComplete(links, j);
        var k :| 0 <= k < |idx| && idx[k] == j;
        assert kept[k] == list[j];
      } else {
        forall k | 0 <= k < |kept| ensures kept[k] != list[j] {
          assert old(kept[k].link) == links[idx[k]];
        }
      }
    }
    assert Records(list) == after;
    forall k | 0 <= k < |kept| ensures Records(kept)[k] == after[idx[k]] {
      assert kept[k] == list[idx[k]];
    }
    KeptOfAfterPass(records0, Records(kept), rejects);
  }

  /**
   * `getRestaurants`: unwrap the callback string, decode it, then filter and
   * upgrade. A too-short callback string fails with the out-of-bounds fault
   * of `substring`; a payload the decoder refuses fails with
   * ExternalException; otherwise the result is the listed entries in order,
   * upgraded in place, and nothing else about them has changed.
   */
  method GetRestaurants(callback: string, parse: string -> Option<seq<SvRestaurant>>, rejects: string -> bool)
    returns (r: Result<seq<SvRestaurant>, Failure>)
    modifies Parsed(callback, parse)
    ensures UnwrapCallback(callback).Err? ==> r == Err(StringIndexOutOfBounds)
    ensures UnwrapCallback(callback).Ok? && !Parses(callback, parse) ==>
      r == Err(ExternalException(PARSE_FAILURE_MESSAGE))
    ensures r.Ok? <==> Parses(callback, parse)
    ensures r.Ok? ==>
      var list := Parsed(callback, parse);
      && r.value == Select(list, KeptIndices(RecordLinks(old(Records(list)))))
      && Records(list) == AfterPass(old(Records(list)), rejects)
      && Records(r.value) == Normalized(old(Records(list)), rejects)
      && forall k :: 0 <= k < |r.value| ==> Listed(r.value[k].link)
  {
    match UnwrapCallback(callback)
    case Err(e) =>
      r := Err(e);
    case Ok(callbackData) =>
      match parse(callbackData)
      case None =>
        r := Err(ExternalException(PARSE_FAILURE_MESSAGE));
      case Some(list) =>
        var kept := RetainAndUpgrade(list, rejects);
        r := Ok(kept);
  }

  /** The `map` of `getRestaurantDtos`: one converted value per entry, in order. */
  function ConvertAll<D>(records: seq<RestaurantRecord>, convert: RestaurantRecord -> D): (dtos: seq<D>)
    ensures |dtos| == |records|
    ensures forall i :: 0 <= i < |records| ==> dtos[i] == convert(records[i])
  {
    if records == [] then [] else [convert(records[0])] + ConvertAll(records[1..], convert)
  }

  /**
   * `getRestaurantDtos`: fails as `getRestaurants` does; otherwise one
   * converted value per restaurant it returns, in the same order.
   */
  method GetRestaurantDtos<D>(callback: string, parse: string -> Option<seq<SvRestaurant>>,
                              rejects: string -> bool, convert: RestaurantRecord -> D)
    returns (r: Result<seq<D>, Failure>)
    modifies Parsed(callback, parse)
    ensures UnwrapCallback(callback).Err? ==> r == Err(StringIndexOutOfBounds)
    ensures UnwrapCallback(callback).Ok? && !Parses(callback, parse) ==>
      r == Err(ExternalException(PARSE_FAILURE_MESSAGE))
    ensures Parses(callback, parse) ==>
      r == Ok(ConvertAll(Normalized(old(Records(Parsed(callback, parse))), rejects), convert))
    ensures Parses(callback, parse) ==>
      Records(Parsed(callback, parse)) == AfterPass(old(Records(Parsed(callback, parse))), rejects)
  {
    var restaurants := GetRestaurants(callback, parse, rejects);
    match restaurants
    case Err(e) =>
      r := Err(e);
    case Ok(list) =>
      r := Ok(ConvertAll(Records(list), convert));
  }

  // ---------------------------------------------------------------------
  // Worked cases.

  /** An ordinary link carries no vendor-group marker. */
  lemma PlainLinkListed()
    ensures Listed("http://y")
  {
    var link := "http://y";
    forall i | 0 <= i <= |link| - |EXCLUDED_VENDOR_MARKER| ensures !OccursAt(link, EXCLUDED_VENDOR_MARKER, i) {
      assert link[i..i + 8][0] == link[0] == 'h';
    }
  }

  /** Of an empty link, a vendor-group link and an ordinary one, only the last is kept. */
  lemma FilterExample()
    ensures KeptIndices(["", "http://x.sv-group.ch", "http://y"]) == [2]
  {
    var links := ["", "http://x.sv-group.ch", "http://y"];
    assert links[1][9..17] == EXCLUDED_VENDOR_MARKER;
    assert OccursAt(links[1], EXCLUDED_VENDOR_MARKER, 9);
    PlainLinkListed();
    assert KeptBelow(links, 1) == [];
    assert KeptBelow(links, 2) == [];
  }

  /**
   * "http://y" becomes "https://y" unless the handler refuses it; an
   * https link and a string without a scheme pass through.
   */
  lemma UpgradeExamples(rejects: string -> bool)
    ensures !rejects("http://y") ==> UpgradedLink("http://y", rejects) == "https://y"
    ensures UpgradedLink("https://y", rejects) == "https://y"
    ensures UpgradedLink("not a url", rejects) == "not a url"
  {
    JavaUrl.PlainHttpScheme();
    assert "http://y"[4..] == "://y";
    assert "https://y" == "https" + "://y";
    JavaUrl.HttpsPrefixIsNotHttp("://y");
    JavaUrl.NoColonNoScheme();
  }

  /**
   * The constructor of java.net.URL ignores leading blanks, so " http://y"
   * has the scheme "http"; the rewrite then replaces its first four
   * characters, which are not the scheme.
   */
  lemma UpgradeLeadingBlank(rejects: string -> bool)
    requires !rejects(" http://y")
    ensures UpgradedLink(" http://y", rejects) == "httpsp://y"
  {
    var link := " http://y";
    JavaUrl.BlankHttpScheme();
    assert JavaUrl.Protocol(link, rejects) == Some("http");
    assert link[4..] == "p://y";
    assert "https" + "p://y" == "httpsp://y";
  }
}

/**
 * The weekly menu scraper: from the scraped menu page to the meal plans by
 * date. The page is reduced to what the parser reads from it: the date
 * labels of the day navigation and, per day tab id, the item blocks inside
 * that tab. Resolving a date from the labels and converting a price block
 * are collaborators and come in as function parameters.
 *
 * Type parameters: D is a calendar date, S a scraped price block, P a price.
 */
module MealPlanParser {
  import opened Wrappers
  import opened JavaStrings

  /** The parser looks at day tabs 1 to 7 at most. */
  const MAX_DAYS: nat := 7
  /** The separator of the trimmings inside a description. */
  const LINE_BREAK := "<br>"

  /** One `.menu-item .item-content` block: the texts the parser reads from it. */
  datatype ItemBlock<S> = ItemBlock(title: string, descriptionHtml: string, prices: S, provenance: string)

  /**
   * The scraped page: the texts of the date labels, in page order, and the
   * item blocks under each day tab id that selects anything (`#menu-plan-tabN`).
   */
  datatype Document<S> = Document(dateLabels: seq<string>, tabs: map<nat, seq<ItemBlock<S>>>)

  datatype MenuOffer<P> = MenuOffer(title: string, trimmings: seq<string>, price: P, provenance: string)

  /** The plan of one day; `date` is None where the date could not be resolved. */
  datatype MealPlan<D, P> = MealPlan(date: Option<D>, offers: seq<MenuOffer<P>>)

  /** The plans by date; a missing date is a key of its own, as `null` is in a HashMap. */
  type MealPlans<D(==), P> = map<Option<D>, MealPlan<D, P>>

  // ---------------------------------------------------------------------
  // Which day tabs are read.

  /** The day tab with 1-based id `n`, or None where that selector matches nothing. */
  function TabAt<S>(doc: Document<S>, n: nat): Option<seq<ItemBlock<S>>> {
    if n in doc.tabs then Some(doc.tabs[n]) else None
  }

  /** Counting on from `d` present tabs, how far the run of present tabs goes. */
  function ContiguousFrom<S>(doc: Document<S>, d: nat): (k: nat)
    requires d <= MAX_DAYS
    ensures d <= k <= MAX_DAYS
    ensures forall n :: d < n <= k ==> n in doc.tabs
    ensures k < MAX_DAYS ==> k + 1 !in doc.tabs
    decreases MAX_DAYS - d
  {
    if d == MAX_DAYS || d + 1 !in doc.tabs then d else ContiguousFrom(doc, d + 1)
  }

  /**
   * The number of days the parser visits: tabs 1 to k are all present, and
   * either k is 7 or tab k + 1 is missing.
   */
  function DaysPresent<S>(doc: Document<S>): (k: nat)
    ensures k <= MAX_DAYS
    ensures forall n :: 1 <= n <= k ==> n in doc.tabs
    ensures k < MAX_DAYS ==> k + 1 !in doc.tabs
  {
    ContiguousFrom(doc, 0)
  }

  /** The two properties of `DaysPresent` fix it: no other count has them. */
  lemma DaysPresentUnique<S>(doc: Document<S>, k: nat)
    requires k <= MAX_DAYS
    requires forall n :: 1 <= n <= k ==> n in doc.tabs
    requires k < MAX_DAYS ==> k + 1 !in doc.tabs
    ensures DaysPresent(doc) == k
  {
  }

  // ---------------------------------------------------------------------
  // Building the offers of one day.

  /** The description's fragments between `<br>`s, as `String.split` returns them. */
  function Fragments(html: string): seq<string> {
    Split(html, LINE_BREAK)
  }

  /**
   * The trimmings of a description: its fragments, each trimmed. None holds
   * a `<br>`, and none starts or ends with a character <= ' '.
   */
  function Trimmings(html: string): (r: seq<string>)
    ensures |r| == |Fragments(html)|
    ensures forall i :: 0 <= i < |r| ==> r[i] == Trim(Fragments(html)[i])
    ensures forall i :: 0 <= i < |r| ==>
      && !Contains(r[i], LINE_BREAK)
      && (r[i] == "" || (r[i][0] > ' ' && r[i][|r[i]| - 1] > ' '))
  {
    var fragments := Fragments(html);
    forall i | 0 <= i < |fragments| ensures !Contains(Trim(fragments[i]), LINE_BREAK) {
      TrimLacks(fragments[i], LINE_BREAK);
    }
    seq(|fragments|, i requires 0 <= i < |fragments| => Trim(fragments[i]))
  }

  function BuildOffer<S, P>(block: ItemBlock<S>, toPrice: S -> P): MenuOffer<P> {
    MenuOffer(block.title, Trimmings(block.descriptionHtml), toPrice(block.prices), block.provenance)
  }

  /** One offer per item block, in the order of the page. */
  function Offers<S, P>(blocks: seq<ItemBlock<S>>, toPrice: S -> P): (offers: seq<MenuOffer<P>>)
    ensures |offers| == |blocks|
    ensures forall i :: 0 <= i < |blocks| ==> offers[i] == BuildOffer(blocks[i], toPrice)
  {
    seq(|blocks|, i requires 0 <= i < |blocks| => BuildOffer(blocks[i], toPrice))
  }

  /** The plan stored for day offset `d`: its resolved date and the offers of tab d + 1. */
  function DayPlan<D, S, P>(doc: Document<S>, resolve: (seq<string>, nat) -> Option<D>, toPrice: S -> P, d: nat)
    : MealPlan<D, P>
    requires d + 1 in doc.tabs
  {
    MealPlan(resolve(doc.dateLabels, d), Offers(doc.tabs[d + 1], toPrice))
  }

  // ---------------------------------------------------------------------
  // The map of plans.

  /** The map after storing the plans of day offsets 0 to k - 1, in that order. */
  function PlansThrough<D(==), S, P>(doc: Document<S>, resolve: (seq<string>, nat) -> Option<D>, toPrice: S -> P, k: nat)
    : MealPlans<D, P>
    requires forall n :: 1 <= n <= k ==> n in doc.tabs
  {
    if k == 0 then map[]
    else PlansThrough(doc, resolve, toPrice, k - 1)[resolve(doc.dateLabels, k - 1) := DayPlan(doc, resolve, toPrice, k - 1)]
  }

  /** What `convert` returns: None for `null`, which it returns when no plan was stored. */
  function Extract<D(==), S, P>(doc: Document<S>, resolve: (seq<string>, nat) -> Option<D>, toPrice: S -> P)
    : Option<MealPlans<D, P>>
  {
    var plans := PlansThrough(doc, resolve, toPrice, DaysPresent(doc));
    if |plans| == 0 then None else Some(plans)
  }

  /**
   * `convert`: visits day tabs 1 to 7, stops at the first missing one, and
   * stores each visited day's plan under its resolved date; returns None
   * (`null`) when nothing was stored.
   */
  method Convert<D(==), S, P>(doc: Document<S>, resolve: (seq<string>, nat) -> Option<D>, toPrice: S -> P)
    returns (result: Option<MealPlans<D, P>>)
    ensures result == Extract(doc, resolve, toPrice)
  {
    var plans: MealPlans<D, P> := map[];
    var dateStrings := doc.dateLabels;
    var dayOffset := 0;
    while dayOffset < MAX_DAYS
      invariant dayOffset <= DaysPresent(doc)
      invariant plans == PlansThrough(doc, resolve, toPrice, dayOffset)
    {
      var menuPlanTab := TabAt(doc, dayOffset + 1);
      if menuPlanTab.None? {
        break;
      }
      var localDate := resolve(dateStrings, dayOffset);
      var offerDtos := Offers(menuPlanTab.value, toPrice);
      plans := plans[localDate := MealPlan(localDate, offerDtos)];
      dayOffset := dayOffset + 1;
    }
    assert dayOffset == DaysPresent(doc);
    if |plans| == 0 {
      return None;
    }
    return Some(plans);
  }

  // ---------------------------------------------------------------------
  // Properties of the map.

  /** The keys are the dates resolved for the visited offsets, and there are at most k of them. */
  lemma {:induction false} PlansThroughKeys<D, S, P>(doc: Document<S>, resolve: (seq<string>, nat) -> Option<D>,
                                                          toPrice: S -> P, k: nat)
    requires forall n :: 1 <= n <= k ==> n in doc.tabs
    ensures forall key :: key in PlansThrough(doc, resolve, toPrice, k) ==>
      exists d :: 0 <= d < k && resolve(doc.dateLabels, d) == key
    ensures forall d :: 0 <= d < k ==> resolve(doc.dateLabels, d) in PlansThrough(doc, resolve, toPrice, k)
    ensures |PlansThrough(doc, resolve, toPrice, k)| <= k
  {
    if k > 0 {
      PlansThroughKeys(doc, resolve, toPrice, k - 1);
      forall key | key in PlansThrough(doc, resolve, toPrice, k)
        ensures exists d :: 0 <= d < k && resolve(doc.dateLabels, d) == key
      {
        if key != resolve(doc.dateLabels, k - 1) {
          assert key in PlansThrough(doc, resolve, toPrice, k - 1);
        } else {
          assert resolve(doc.dateLabels, k - 1) == key;
        }
      }
    }
  }

  /** A date no visited offset resolves to is not a key. */
  lemma {:induction false} UnresolvedDateAbsent<D, S, P>(doc: Document<S>, resolve: (seq<string>, nat) -> Option<D>,
                                                              toPrice: S -> P, k: nat, key: Option<D>)
    requires forall n :: 1 <= n <= k ==> n in doc.tabs
    requires forall d :: 0 <= d < k ==> resolve(doc.dateLabels, d) != key
    ensures key !in PlansThrough(doc, resolve, toPrice, k)
  {
    if k > 0 {
      UnresolvedDateAbsent(doc, resolve, toPrice, k - 1, key);
    }
  }

  /** Where the k offsets resolve to k different dates, the map has k entries. */
  lemma {:induction false} PlansThroughDistinct<D, S, P>(doc: Document<S>, resolve: (seq<string>, nat) -> Option<D>,
                                                              toPrice: S -> P, k: nat)
    requires forall n :: 1 <= n <= k ==> n in doc.tabs
    requires forall d, e :: 0 <= d < e < k ==> resolve(doc.dateLabels, d) != resolve(doc.dateLabels, e)
    ensures |PlansThrough(doc, resolve, toPrice, k)| == k
  {
    if k > 0 {
      PlansThroughDistinct(doc, resolve, toPrice, k - 1);
      var key := resolve(doc.dateLabels, k - 1);
      forall d | 0 <= d < k - 1 ensures resolve(doc.dateLabels, d) != key {}
      UnresolvedDateAbsent(doc, resolve, toPrice, k - 1, key);
      assert PlansThrough(doc, resolve, toPrice, k)
          == PlansThrough(doc, resolve, toPrice, k - 1)[key := DayPlan(doc, resolve, toPrice, k - 1)];
    }
  }

  /** Every stored plan carries the date it is stored under. */
  lemma {:induction false} PlanDateIsKey<D, S, P>(doc: Document<S>, resolve: (seq<string>, nat) -> Option<D>,
                                                       toPrice: S -> P, k: nat)
    requires forall n :: 1 <= n <= k ==> n in doc.tabs
    ensures forall key :: key in PlansThrough(doc, resolve, toPrice, k) ==>
      PlansThrough(doc, resolve, toPrice, k)[key].date == key
  {
    if k > 0 {
      PlanDateIsKey(doc, resolve, toPrice, k - 1);
    }
  }

  /**
   * The last write wins: the plan under the date of offset d is day d's
   * plan when no later visited offset resolves to the same date.
   */
  lemma {:induction false} LastWriteWins<D, S, P>(doc: Document<S>, resolve: (seq<string>, nat) -> Option<D>,
                                                       toPrice: S -> P, k: nat, d: nat)
    requires forall n :: 1 <= n <= k ==> n in doc.tabs
    requires d < k
    requires forall e :: d < e < k ==> resolve(doc.dateLabels, e) != resolve(doc.dateLabels, d)
    ensures resolve(doc.dateLabels, d) in PlansThrough(doc, resolve, toPrice, k)
    ensures PlansThrough(doc, resolve, toPrice, k)[resolve(doc.dateLabels, d)] == DayPlan(doc, resolve, toPrice, d)
  {
    if d < k - 1 {
      LastWriteWins(doc, resolve, toPrice, k - 1, d);
    }
  }

  // ---------------------------------------------------------------------
  // Properties of the result.

  /** The result is None exactly when day tab 1 is missing; otherwise it holds 1 to 7 plans. */
  lemma NullIffFirstTabMissing<D, S, P>(doc: Document<S>, resolve: (seq<string>, nat) -> Option<D>, toPrice: S -> P)
    ensures Extract(doc, resolve, toPrice).None? <==> TabAt(doc, 1).None?
    ensures Extract(doc, resolve, toPrice).Some? ==>
      1 <= |Extract(doc, resolve, toPrice).value| <= DaysPresent(doc) <= MAX_DAYS
  {
    var k := DaysPresent(doc);
    PlansThroughKeys(doc, resolve, toPrice, k);
    if k > 0 {
      assert resolve(doc.dateLabels, 0) in PlansThrough(doc, resolve, toPrice, k);
    }
  }

  /**
   * The key set of the result: the dates resolved for the visited offsets.
   * With k days visited it has at most k keys, and exactly k when those
   * dates differ.
   */
  lemma ResultKeys<D, S, P>(doc: Document<S>, resolve: (seq<string>, nat) -> Option<D>, toPrice: S -> P)
    requires Extract(doc, resolve, toPrice).Some?
    ensures forall key :: key in Extract(doc, resolve, toPrice).value ==>
      exists d :: 0 <= d < DaysPresent(doc) && resolve(doc.dateLabels, d) == key
    ensures forall d :: 0 <= d < DaysPresent(doc) ==> resolve(doc.dateLabels, d) in Extract(doc, resolve, toPrice).value
    ensures |Extract(doc, resolve, toPrice).value| <= DaysPresent(doc)
    ensures (forall d, e :: 0 <= d < e < DaysPresent(doc) ==> resolve(doc.dateLabels, d) != resolve(doc.dateLabels, e)) ==>
      |Extract(doc, resolve, toPrice).value| == DaysPresent(doc)
  {
    var k := DaysPresent(doc);
    PlansThroughKeys(doc, resolve, toPrice, k);
    if forall d, e :: 0 <= d < e < k ==> resolve(doc.dateLabels, d) != resolve(doc.dateLabels, e) {
      PlansThroughDistinct(doc, resolve, toPrice, k);
    }
  }

  /**
   * The plan the result holds for a visited day: under that day's date, when
   * no later visited day has the same date, it is that day's plan, whose
   * offers follow the day tab's item blocks one by one; each plan's date is
   * its key.
   */
  lemma ResultPlan<D, S, P>(doc: Document<S>, resolve: (seq<string>, nat) -> Option<D>, toPrice: S -> P, d: nat)
    requires d < DaysPresent(doc)
    requires forall e :: d < e < DaysPresent(doc) ==> resolve(doc.dateLabels, e) != resolve(doc.dateLabels, d)
    ensures Extract(doc, resolve, toPrice).Some?
    ensures resolve(doc.dateLabels, d) in Extract(doc, resolve, toPrice).value
    ensures Extract(doc, resolve, toPrice).value[resolve(doc.dateLabels, d)] == DayPlan(doc, resolve, toPrice, d)
    ensures Extract(doc, resolve, toPrice).value[resolve(doc.dateLabels, d)].date == resolve(doc.dateLabels, d)
    ensures |Extract(doc, resolve, toPrice).value[resolve(doc.dateLabels, d)].offers| == |doc.tabs[d + 1]|
    ensures forall i :: 0 <= i < |doc.tabs[d + 1]| ==>
      Extract(doc, resolve, toPrice).value[resolve(doc.dateLabels, d)].offers[i] == BuildOffer(doc.tabs[d + 1][i], toPrice)
  {
    var k := DaysPresent(doc);
    LastWriteWins(doc, resolve, toPrice, k, d);
  }

  /**
   * Only day tabs 1 to 7 up to the first missing one are read: two pages with
   * the same date labels that agree on those tabs give the same result,
   * whatever the tabs after the gap or after tab 7 hold.
   */
  lemma OnlyVisitedTabsMatter<D, S, P>(doc: Document<S>, other: Document<S>,
                                           resolve: (seq<string>, nat) -> Option<D>, toPrice: S -> P)
    requires other.dateLabels == doc.dateLabels
    requires forall n :: 1 <= n <= MAX_DAYS && n <= DaysPresent(doc) + 1 ==> TabAt(other, n) == TabAt(doc, n)
    ensures DaysPresent(other) == DaysPresent(doc)
    ensures Extract(other, resolve, toPrice) == Extract(doc, resolve, toPrice)
  {
    var k := DaysPresent(doc);
    forall n | 1 <= n <= k ensures n in other.tabs && other.tabs[n] == doc.tabs[n] {
      assert TabAt(other, n) == TabAt(doc, n);
    }
    if k < MAX_DAYS {
      assert TabAt(other, k + 1) == TabAt(doc, k + 1);
    }
    DaysPresentUnique(other, k);
    PlansAgree(doc, other, resolve, toPrice, k);
  }

  /** Pages agreeing on the labels and on tabs 1 to k store the same plans for offsets below k. */
  lemma {:induction false} PlansAgree<D, S, P>(doc: Document<S>, other: Document<S>,
                                                   resolve: (seq<string>, nat) -> Option<D>, toPrice: S -> P, k: nat)
    requires other.dateLabels == doc.dateLabels
    requires forall n :: 1 <= n <= k ==> n in doc.tabs && n in other.tabs && other.tabs[n] == doc.tabs[n]
    ensures PlansThrough(other, resolve, toPrice, k) == PlansThrough(doc, resolve, toPrice, k)
  {
    if k > 0 {
      PlansAgree(doc, other, resolve, toPrice, k - 1);
    }
  }

  // ---------------------------------------------------------------------
  // Properties of the trimmings.

  /** A description without `<br>` gives one trimming: the whole description, trimmed. */
  lemma TrimmingsWithoutBreak(html: string)
    requires !Contains(html, LINE_BREAK)
    ensures Trimmings(html) == [Trim(html)]
  {
    SplitShape(html, LINE_BREAK);
  }

  /** A description not ending with `<br>` is its fragments joined with `<br>`. */
  lemma FragmentsRejoin(html: string)
    requires !EndsWith(html, LINE_BREAK)
    ensures Join(Fragments(html), LINE_BREAK) == html
  {
    SplitJoin(html, LINE_BREAK);
  }

  /**
   * Fragments are trimmed after the split drops the trailing empty ones, so a
   * fragment of blanks only stays in the list, as "".
   */
  lemma BlankFragmentKept(html: string, i: nat)
    requires i < |Fragments(html)|
    requires forall j :: 0 <= j < |Fragments(html)[i]| ==> Fragments(html)[i][j] <= ' '
    ensures Trimmings(html)[i] == ""
  {
    TrimBlank(Fragments(html)[i]);
  }

  /** Blanks around each fragment go, and so does nothing else. */
  lemma TrimmingsExample()
    ensures Trimmings(" A <br> B ") == ["A", "B"]
  {
    var r := Trimmings(" A <br> B ");
    assert |r| == 2 && r[0] == "A" && r[1] == "B" by {
      FragmentsExample();
      TrimSurrounded('A');
      TrimSurrounded('B');
    }
    PairIs(r, "A", "B");
  }

  lemma PairIs<T>(r: seq<T>, a: T, b: T)
    requires |r| == 2 && r[0] == a && r[1] == b
    ensures r == [a, b]
  {
  }

  /** One visible character between two blanks trims to itself. */
  lemma TrimSurrounded(c: char)
    requires c > ' '
    ensures Trim([' ', c, ' ']) == [c]
  {
    var s := [' ', c, ' '];
    assert TrimEnd(s) == 2;
    assert TrimStart(s) == 1;
  }

  lemma FragmentsExample()
    ensures Fragments(" A <br> B ") == [" A ", " B "]
  {
    var html := " A <br> B ";
    assert OccursAt(html, LINE_BREAK, 3);
    forall j | 0 <= j < 3 ensures !OccursAt(html, LINE_BREAK, j) {
      assert html[j] != '<';
    }
    assert IndexOf(html, LINE_BREAK) == Some(3);
    assert html[7..] == " B ";
    assert IndexOf(" B ", LINE_BREAK) == None;
    assert Pieces(" B ", LINE_BREAK) == [" B "];
    assert html[..3] == " A ";
    assert Pieces(html, LINE_BREAK) == [" A ", " B "];
  }
}

/** The roadmap page's helpers over a sequencer result
    (app/roadmap/sequencer/SequencerClient.tsx): calendar start dates chained along a
    slot, the entries visible in one year, and the per-year bonus totals. */
module Roadmap {
  import opened Arith
  import opened Offers
  import opened Churn
  import opened Schedule
  import opened Keys

  const WEEKS_PER_YEAR: int := 52
  const DAYS_PER_WEEK: int := 7

  // ---- buildChainedDates (lines 25-38) ------------------------------------------

  function KeyOf(e: SlotEntry): string
    requires e.Bonus?
  {
    Key(e.offer.id, e.cycle)
  }

  /** Weeks an entry moves the date cursor on: a placeholder its span, a placement its
      completion weeks. */
  function Advance(e: SlotEntry): int
  {
    if e.Placeholder? then e.endWeek - e.startWeek + 1 else e.weeksToComplete
  }

  /** Weeks the entries before position n span, by the cursor's reckoning. */
  function WeeksBefore(es: seq<SlotEntry>, n: nat): int
    requires n <= |es|
  {
    if n == 0 then 0 else WeeksBefore(es, n - 1) + Advance(es[n - 1])
  }

  /** Keys of the placements among the first n entries. */
  function BonusKeys(es: seq<SlotEntry>, n: nat): set<string>
    requires n <= |es|
  {
    if n == 0 then {}
    else BonusKeys(es, n - 1) + (if es[n - 1].Bonus? then {KeyOf(es[n - 1])} else {})
  }

  /** Membership in BonusKeys: the key of some placement among the first n entries. */
  lemma {:induction false} BonusKeysMembers(es: seq<SlotEntry>, n: nat, key: string)
    requires n <= |es|
    ensures key in BonusKeys(es, n) <==> exists k :: 0 <= k < n && es[k].Bonus? && KeyOf(es[k]) == key
  {
    if n > 0 {
      BonusKeysMembers(es, n - 1, key);
    }
  }

  /** Entry j is a placement and no later placement among the first n has its key: its
      date is the one kept. */
  predicate LastWithKey(es: seq<SlotEntry>, n: nat, j: nat)
    requires j < n <= |es|
  {
    es[j].Bonus? && forall k :: j < k < n && es[k].Bonus? ==> KeyOf(es[k]) != KeyOf(es[j])
  }

  /** The dates map built from the first n entries: one key per placed (offer, cycle), and
      a placement whose key is not reused later is dated `firstStart` plus seven days for
      every week spanned by the entries before it. */
  ghost predicate ChainedDatesUpTo(es: seq<SlotEntry>, n: nat, firstStart: Day, dates: map<string, Day>)
    requires n <= |es|
  {
    && dates.Keys == BonusKeys(es, n)
    && forall j :: 0 <= j < n && LastWithKey(es, n, j) ==>
         KeyOf(es[j]) in dates && dates[KeyOf(es[j])] == firstStart + 7 * WeeksBefore(es, j)
  }

  ghost predicate ChainedDates(es: seq<SlotEntry>, firstStart: Day, dates: map<string, Day>)
  {
    ChainedDatesUpTo(es, |es|, firstStart, dates)
  }

  method BuildChainedDates(entries: seq<SlotEntry>, firstStart: Day) returns (dates: map<string, Day>)
    ensures ChainedDates(entries, firstStart, dates)
  {
    dates := map[];
    var cursor := firstStart;
    for i := 0 to |entries|
      invariant cursor == firstStart + 7 * WeeksBefore(entries, i)
      invariant ChainedDatesUpTo(entries, i, firstStart, dates)
    {
      var entry := entries[i];
      if entry.Placeholder? {
        PlaceholderStep(entries, i, firstStart, dates);
        cursor := cursor + (entry.endWeek - entry.startWeek + 1) * 7;
        continue;
      }
      BonusStep(entries, i, firstStart, dates);
      dates := dates[KeyOf(entry) := cursor];
      cursor := cursor + entry.weeksToComplete * 7;
    }
  }

  /** A placeholder leaves the dates as they are. */
  lemma PlaceholderStep(es: seq<SlotEntry>, i: nat, firstStart: Day, dates: map<string, Day>)
    requires i < |es| && es[i].Placeholder? && ChainedDatesUpTo(es, i, firstStart, dates)
    ensures ChainedDatesUpTo(es, i + 1, firstStart, dates)
  {
    forall j | 0 <= j < i + 1 && LastWithKey(es, i + 1, j)
      ensures KeyOf(es[j]) in dates && dates[KeyOf(es[j])] == firstStart + 7 * WeeksBefore(es, j)
    {
      assert LastWithKey(es, i, j);
    }
  }

  /** A placement dates its key at the cursor, replacing any earlier date under that key. */
  lemma BonusStep(es: seq<SlotEntry>, i: nat, firstStart: Day, dates: map<string, Day>)
    requires i < |es| && es[i].Bonus? && ChainedDatesUpTo(es, i, firstStart, dates)
    ensures ChainedDatesUpTo(es, i + 1, firstStart, dates[KeyOf(es[i]) := firstStart + 7 * WeeksBefore(es, i)])
  {
    var key := KeyOf(es[i]);
    var dates' := dates[key := firstStart + 7 * WeeksBefore(es, i)];
    forall j | 0 <= j < i + 1 && LastWithKey(es, i + 1, j)
      ensures KeyOf(es[j]) in dates' && dates'[KeyOf(es[j])] == firstStart + 7 * WeeksBefore(es, j)
    {
      if j < i {
        assert KeyOf(es[j]) != key;
        assert LastWithKey(es, i, j);
      }
    }
  }

  /** On a slot's chain the cursor's reckoning agrees with the week numbers: the weeks
      spanned before entry j are the weeks before its start week. */
  lemma {:induction false} WeeksBeforeIsStartWeek(es: seq<SlotEntry>, slot: nat, j: nat)
    requires Contiguous(es, slot) && j < |es|
    ensures WeeksBefore(es, j) == es[j].startWeek - 1
  {
    if j > 0 {
      WeeksBeforeIsStartWeek(es, slot, j - 1);
    }
  }

  lemma {:induction false} SeqWeightAtLeastOne(es: seq<SlotEntry>, w: SlotEntry -> nat, j: nat)
    requires j < |es|
    ensures SeqWeight(es, w) >= w(es[j])
  {
    if j < |es| - 1 {
      SeqWeightAtLeastOne(es[..|es| - 1], w, j);
    }
  }

  lemma {:induction false} SeqWeightAtLeastTwo(es: seq<SlotEntry>, w: SlotEntry -> nat, j: nat, k: nat)
    requires j < k < |es|
    ensures SeqWeight(es, w) >= w(es[j]) + w(es[k])
  {
    if k == |es| - 1 {
      SeqWeightAtLeastOne(es[..|es| - 1], w, j);
    } else {
      SeqWeightAtLeastTwo(es[..|es| - 1], w, j, k);
    }
  }

  lemma {:induction false} WeightAtLeastSlot(ss: seq<seq<SlotEntry>>, w: SlotEntry -> nat, s: nat)
    requires s < |ss|
    ensures Weight(ss, w) >= SeqWeight(ss[s], w)
  {
    if s < |ss| - 1 {
      WeightAtLeastSlot(ss[..|ss| - 1], w, s);
    }
  }

  /** Where the schedule places an (offer, cycle) at most once, as the sequencer promises for
      churnable and lifetime offers, every placement's key is its own and the chained date of
      a placement is the calendar day its start week begins. */
  lemma ChainedDateIsStartDate(ss: seq<seq<SlotEntry>>, s: nat, j: nat, firstStart: Day, dates: map<string, Day>)
    requires s < |ss| && Contiguous(ss[s], s) && j < |ss[s]| && ss[s][j].Bonus?
    requires CountKey(ss, ss[s][j].offer.id, ss[s][j].cycle) <= 1
    requires ChainedDates(ss[s], firstStart, dates)
    ensures KeyOf(ss[s][j]) in dates
    ensures dates[KeyOf(ss[s][j])] == firstStart + 7 * (ss[s][j].startWeek - 1)
  {
    var es := ss[s];
    var e := es[j];
    forall k | j < k < |es| && es[k].Bonus? ensures KeyOf(es[k]) != KeyOf(e) {
      if KeyOf(es[k]) == KeyOf(e) {
        KeyInjective(es[k].offer.id, es[k].cycle, e.offer.id, e.cycle);
        var w := KeyWeight(e.offer.id, e.cycle);
        SeqWeightAtLeastTwo(es, w, j, k);
        WeightAtLeastSlot(ss, w, s);
        assert false;
      }
    }
    assert LastWithKey(es, |es|, j);
    WeeksBeforeIsStartWeek(es, s, j);
  }

  // ---- filterToYear (lines 41-43) -----------------------------------------------

  /** An entry is shown in a year when it overlaps the year's weeks. */
  predicate Overlaps(e: SlotEntry, yearStart: int, yearEnd: int)
  {
    e.startWeek <= yearEnd && e.endWeek >= yearStart
  }

  function FilterToYear(es: seq<SlotEntry>, yearStart: int, yearEnd: int): (r: seq<SlotEntry>)
    ensures |r| <= |es|
  {
    if es == [] then []
    else
      var last := es[|es| - 1];
      FilterToYear(es[..|es| - 1], yearStart, yearEnd) + (if Overlaps(last, yearStart, yearEnd) then [last] else [])
  }

  lemma {:induction false} FilterToYearMembers(es: seq<SlotEntry>, yearStart: int, yearEnd: int)
    ensures forall e :: e in FilterToYear(es, yearStart, yearEnd) <==> e in es && Overlaps(e, yearStart, yearEnd)
  {
    if es != [] {
      var init := es[..|es| - 1];
      FilterToYearMembers(init, yearStart, yearEnd);
      assert es == init + [es[|es| - 1]];
    }
  }

  /** Filtering keeps a run of consecutive entries when the overlapping ones are exactly
      those at positions lo up to hi. */
  lemma {:induction false} FilterOfRun(es: seq<SlotEntry>, yearStart: int, yearEnd: int, lo: nat, hi: nat)
    requires lo <= hi <= |es|
    requires forall k :: 0 <= k < |es| ==> (Overlaps(es[k], yearStart, yearEnd) <==> lo <= k < hi)
    ensures FilterToYear(es, yearStart, yearEnd) == es[lo..hi]
  {
    if es != [] {
      var n := |es|;
      var lo', hi' := if lo < n then lo else n - 1, if hi < n then hi else n - 1;
      RunOfInit(es, es[..n - 1], yearStart, yearEnd, lo, hi, lo', hi');
      FilterOfRun(es[..n - 1], yearStart, yearEnd, lo', hi');
      if lo < n && hi == n {
        RunExtends(es, yearStart, yearEnd, lo);
      } else {
        assert es[..n - 1][lo'..hi'] == es[lo..hi];
        RunStays(es, yearStart, yearEnd);
      }
    }
  }

  lemma RunOfInit(es: seq<SlotEntry>, init: seq<SlotEntry>, yearStart: int, yearEnd: int, lo: nat, hi: nat, lo': nat, hi': nat)
    requires lo <= hi <= |es| && es != [] && init == es[..|es| - 1]
    requires forall k :: 0 <= k < |es| ==> (Overlaps(es[k], yearStart, yearEnd) <==> lo <= k < hi)
    requires lo' == (if lo < |es| then lo else |es| - 1) && hi' == (if hi < |es| then hi else |es| - 1)
    ensures lo' <= hi' <= |es| - 1
    ensures forall k :: 0 <= k < |init| ==> (Overlaps(init[k], yearStart, yearEnd) <==> lo' <= k < hi')
    ensures !(lo < |es| && hi == |es|) ==> !Overlaps(es[|es| - 1], yearStart, yearEnd)
  {
  }

  lemma RunExtends(es: seq<SlotEntry>, yearStart: int, yearEnd: int, lo: nat)
    requires lo < |es| && Overlaps(es[|es| - 1], yearStart, yearEnd)
    requires FilterToYear(es[..|es| - 1], yearStart, yearEnd) == es[..|es| - 1][lo..]
    ensures FilterToYear(es, yearStart, yearEnd) == es[lo..]
  {
    var n := |es|;
    calc {
      FilterToYear(es, yearStart, yearEnd);
      FilterToYear(es[..n - 1], yearStart, yearEnd) + [es[n - 1]];
      es[..n - 1][lo..] + [es[n - 1]];
      { assert es[..n - 1][lo..] == es[lo..n - 1]; }
      es[lo..n - 1] + [es[n - 1]];
      { assert es[lo..] == es[lo..n - 1] + es[n - 1..]; }
      es[lo..];
    }
  }

  lemma RunStays(es: seq<SlotEntry>, yearStart: int, yearEnd: int)
    requires es != [] && !Overlaps(es[|es| - 1], yearStart, yearEnd)
    ensures FilterToYear(es, yearStart, yearEnd) == FilterToYear(es[..|es| - 1], yearStart, yearEnd)
  {
  }

  /** Length of the leading run of entries that end before week `w`. */
  function EndingBefore(es: seq<SlotEntry>, w: int): (n: nat)
    ensures n <= |es|
    ensures forall k :: 0 <= k < n ==> es[k].endWeek < w
    ensures n < |es| ==> es[n].endWeek >= w
  {
    if es == [] || es[0].endWeek >= w then 0 else 1 + EndingBefore(es[1..], w)
  }

  /** Length of the leading run of entries that start by week `w`. */
  function StartingBy(es: seq<SlotEntry>, w: int): (n: nat)
    ensures n <= |es|
    ensures forall k :: 0 <= k < n ==> es[k].startWeek <= w
    ensures n < |es| ==> es[n].startWeek > w
  {
    if es == [] || es[0].startWeek > w then 0 else 1 + StartingBy(es[1..], w)
  }

  /** On a slot's chain the entries shown for a year are consecutive and in chain order:
      a slice of the slot. */
  lemma FilterToYearIsRun(es: seq<SlotEntry>, slot: nat, yearStart: int, yearEnd: int)
    requires Contiguous(es, slot)
    ensures var lo := EndingBefore(es, yearStart);
            var hi := Max(lo, StartingBy(es, yearEnd));
            hi <= |es| && FilterToYear(es, yearStart, yearEnd) == es[lo..hi]
  {
    var lo := EndingBefore(es, yearStart);
    var m := StartingBy(es, yearEnd);
    var hi := Max(lo, m);
    forall k | 0 <= k < |es| ensures Overlaps(es[k], yearStart, yearEnd) <==> lo <= k < hi {
      if lo < k {
        ContiguousDisjoint(es, slot, lo, k);
      }
      if m < k {
        ContiguousDisjoint(es, slot, m, k);
      }
    }
    FilterOfRun(es, yearStart, yearEnd, lo, hi);
  }

  // ---- year windows (lines 105-111) ---------------------------------------------

  function YearStart(year: int): int { (year - 1) * 52 + 1 }

  function YearEnd(year: int): int { year * 52 }

  /** Week w >= 1 lies in exactly one year window, year (w - 1) / 52 + 1. */
  lemma YearWindowsTile(w: int, year: int)
    requires w >= 1
    ensures YearStart(year) <= w <= YearEnd(year) <==> year == (w - 1) / WEEKS_PER_YEAR + 1
  {
    var q := (w - 1) / WEEKS_PER_YEAR;
    assert w - 1 == WEEKS_PER_YEAR * q + (w - 1) % WEEKS_PER_YEAR;
    if year <= q {
      assert YearEnd(year) <= WEEKS_PER_YEAR * q;
    }
    if year >= q + 2 {
      assert YearStart(year) >= WEEKS_PER_YEAR * (q + 1) + 1;
    }
  }

  /** The number of 52-week years the horizon spans, rounded up. */
  function TotalYears(horizonWeeks: int): (t: int)
    ensures horizonWeeks >= 0 ==> t >= 0 && horizonWeeks <= YearEnd(t)
    ensures horizonWeeks > 0 ==> YearStart(t) <= horizonWeeks
  {
    if horizonWeeks >= 0 then CeilDiv(horizonWeeks, WEEKS_PER_YEAR)
    else -((-horizonWeeks) / WEEKS_PER_YEAR)
  }

  // ---- yearBonus and yearBonusCount (lines 46-57) -------------------------------

  /** A placement is credited to the year its start week falls in. */
  predicate StartsInWindow(e: SlotEntry, yearStart: int, yearEnd: int)
  {
    e.Bonus? && yearStart <= e.startWeek <= yearEnd
  }

  /** The placements both per-year figures are taken over. */
  function InYear(es: seq<SlotEntry>, yearStart: int, yearEnd: int): (r: seq<SlotEntry>)
    ensures |r| <= |es|
  {
    if es == [] then []
    else
      var last := es[|es| - 1];
      InYear(es[..|es| - 1], yearStart, yearEnd) + (if StartsInWindow(last, yearStart, yearEnd) then [last] else [])
  }

  lemma {:induction false} InYearMembers(es: seq<SlotEntry>, yearStart: int, yearEnd: int)
    ensures forall e :: e in InYear(es, yearStart, yearEnd) <==> e in es && StartsInWindow(e, yearStart, yearEnd)
  {
    if es != [] {
      var init := es[..|es| - 1];
      InYearMembers(init, yearStart, yearEnd);
      assert es == init + [es[|es| - 1]];
    }
  }

  /** Lines 46-50: the amounts of the placements starting in the window. */
  function YearBonus(slots: seq<seq<SlotEntry>>, yearStart: int, yearEnd: int): (r: int)
    ensures r >= 0
    ensures (forall e :: e in Flatten(slots) ==> !StartsInWindow(e, yearStart, yearEnd)) ==> r == 0
  {
    InYearMembers(Flatten(slots), yearStart, yearEnd);
    SumAmounts(InYear(Flatten(slots), yearStart, yearEnd))
  }

  /** Lines 52-57: how many placements start in the window. */
  function YearBonusCount(slots: seq<seq<SlotEntry>>, yearStart: int, yearEnd: int): (n: nat)
    ensures n <= |Flatten(slots)|
    ensures n == 0 <==> forall e :: e in Flatten(slots) ==> !StartsInWindow(e, yearStart, yearEnd)
  {
    InYearMembers(Flatten(slots), yearStart, yearEnd);
    var r := InYear(Flatten(slots), yearStart, yearEnd);
    assert |r| > 0 ==> r[0] in r;
    |InYear(Flatten(slots), yearStart, yearEnd)|
  }

  /** Bonus totals of years 1 to `years`. */
  function YearTotals(slots: seq<seq<SlotEntry>>, years: nat): int
  {
    if years == 0 then 0 else YearTotals(slots, years - 1) + YearBonus(slots, YearStart(years), YearEnd(years))
  }

  /** Placement counts of years 1 to `years`. */
  function YearCounts(slots: seq<seq<SlotEntry>>, years: nat): nat
  {
    if years == 0 then 0 else YearCounts(slots, years - 1) + YearBonusCount(slots, YearStart(years), YearEnd(years))
  }

  // A sum over entries with any weight, so amounts and counts share one proof.

  function Tally(es: seq<SlotEntry>, w: SlotEntry -> int): int
  {
    if es == [] then 0 else Tally(es[..|es| - 1], w) + w(es[|es| - 1])
  }

  function AmountWeight(): SlotEntry -> int
  {
    (e: SlotEntry) => if e.Bonus? then e.offer.bonusAmount else 0
  }

  function OneWeight(): SlotEntry -> int
  {
    (e: SlotEntry) => 1
  }

  function YearTally(es: seq<SlotEntry>, years: nat, w: SlotEntry -> int): int
  {
    if years == 0 then 0
    else YearTally(es, years - 1, w) + Tally(InYear(es, YearStart(years), YearEnd(years)), w)
  }

  lemma {:induction false} YearTallyEmpty(years: nat, w: SlotEntry -> int)
    ensures YearTally([], years, w) == 0
  {
    if years > 0 {
      YearTallyEmpty(years - 1, w);
    }
  }

  /** One more entry adds its weight to the years up to `years` exactly when it is a
      placement starting in one of them. */
  lemma {:induction false} YearTallyAppend(es: seq<SlotEntry>, e: SlotEntry, years: nat, w: SlotEntry -> int)
    ensures YearTally(es + [e], years, w)
         == YearTally(es, years, w) + (if e.Bonus? && 1 <= e.startWeek <= YearEnd(years) then w(e) else 0)
  {
    if years > 0 {
      YearTallyAppend(es, e, years - 1, w);
      var ys, ye := YearStart(years), YearEnd(years);
      assert (es + [e])[..|es|] == es;
      var r := InYear(es, ys, ye);
      var b := if StartsInWindow(e, ys, ye) then [e] else [];
      assert InYear(es + [e], ys, ye) == r + b;
      if StartsInWindow(e, ys, ye) {
        assert (r + b)[..|r|] == r;
      } else {
        assert r + b == r;
      }
    }
  }

  /** When every placement starts within the first `years` years, the per-year tallies add
      up to the tally over all placements. */
  lemma {:induction false} YearTallyAll(es: seq<SlotEntry>, years: nat, w: SlotEntry -> int)
    requires forall e :: e in es && e.Bonus? ==> 1 <= e.startWeek <= YearEnd(years)
    ensures YearTally(es, years, w) == Tally(BonusEntries(es), w)
  {
    if es == [] {
      YearTallyEmpty(years, w);
    } else {
      var n := |es|;
      var init, last := es[..n - 1], es[n - 1];
      assert es == init + [last];
      YearTallyAll(init, years, w);
      YearTallyAppend(init, last, years, w);
      var bs := BonusEntries(init);
      if last.Bonus? {
        assert (bs + [last])[..|bs|] == bs;
      } else {
        assert bs + [] == bs;
      }
    }
  }

  lemma {:induction false} SumAmountsIsTally(es: seq<SlotEntry>)
    ensures SumAmounts(es) == Tally(es, AmountWeight())
  {
    if es != [] {
      SumAmountsIsTally(es[..|es| - 1]);
    }
  }

  lemma {:induction false} LengthIsTally(es: seq<SlotEntry>)
    ensures |es| == Tally(es, OneWeight())
  {
    if es != [] {
      LengthIsTally(es[..|es| - 1]);
    }
  }

  lemma {:induction false} YearTotalsIsTally(slots: seq<seq<SlotEntry>>, years: nat)
    ensures YearTotals(slots, years) == YearTally(Flatten(slots), years, AmountWeight())
    ensures YearCounts(slots, years) == YearTally(Flatten(slots), years, OneWeight())
  {
    if years > 0 {
      YearTotalsIsTally(slots, years - 1);
      var r := InYear(Flatten(slots), YearStart(years), YearEnd(years));
      SumAmountsIsTally(r);
      LengthIsTally(r);
    }
  }

  lemma {:induction false} SeqWeightAppend(a: seq<SlotEntry>, b: seq<SlotEntry>, w: SlotEntry -> nat)
    ensures SeqWeight(a + b, w) == SeqWeight(a, w) + SeqWeight(b, w)
  {
    if b != [] {
      SeqWeightAppend(a, b[..|b| - 1], w);
      assert (a + b)[..|a + b| - 1] == a + b[..|b| - 1];
    } else {
      assert a + b == a;
    }
  }

  lemma {:induction false} WeightIsFlatWeight(ss: seq<seq<SlotEntry>>, w: SlotEntry -> nat)
    ensures Weight(ss, w) == SeqWeight(Flatten(ss), w)
  {
    if ss != [] {
      WeightIsFlatWeight(ss[..|ss| - 1], w);
      SeqWeightAppend(Flatten(ss[..|ss| - 1]), ss[|ss| - 1], w);
    }
  }

  lemma {:induction false} BonusCountIsWeight(es: seq<SlotEntry>)
    ensures |BonusEntries(es)| == SeqWeight(es, IsBonusWeight())
  {
    if es != [] {
      BonusCountIsWeight(es[..|es| - 1]);
    }
  }

  lemma ChainEntriesWellShaped(slots: seq<seq<SlotEntry>>)
    requires forall s :: 0 <= s < |slots| ==> Contiguous(slots[s], s)
    ensures forall e :: e in Flatten(slots) ==> WellShaped(e)
  {
    FlattenMembers(slots);
    forall e | e in Flatten(slots) ensures WellShaped(e) {
      var s :| 0 <= s < |slots| && e in slots[s];
      var k :| 0 <= k < |slots[s]| && slots[s][k] == e;
    }
  }

  /** The horizon is a week number: never negative, and it bounds every placement's start. */
  lemma HorizonBoundsStarts(slots: seq<seq<SlotEntry>>)
    requires forall e :: e in Flatten(slots) ==> WellShaped(e)
    ensures HorizonWeeks(slots) >= 0
    ensures forall e :: e in Flatten(slots) && e.Bonus? ==> 1 <= e.startWeek <= HorizonWeeks(slots)
  {
    var flat := Flatten(slots);
    var bs := BonusEntries(flat);
    if |bs| > 0 {
      assert bs[0] in bs;
      assert HorizonWeeks(slots) >= bs[0].payoutWeek;
    }
  }

  /** Every placement of a schedule whose slots are chains starts within the first
      TotalYears(horizon) years, so the year-by-year figures of the roadmap add up to the
      result's `total_bonus` and to the number of placements. */
  lemma YearsAddUpToTotals(slots: seq<seq<SlotEntry>>)
    requires forall s :: 0 <= s < |slots| ==> Contiguous(slots[s], s)
    ensures HorizonWeeks(slots) >= 0
    ensures YearTotals(slots, TotalYears(HorizonWeeks(slots))) == TotalBonus(slots)
    ensures YearCounts(slots, TotalYears(HorizonWeeks(slots))) == PlacementCount(slots)
  {
    var flat := Flatten(slots);
    ChainEntriesWellShaped(slots);
    HorizonBoundsStarts(slots);
    var years := TotalYears(HorizonWeeks(slots));
    YearTallyAll(flat, years, AmountWeight());
    YearTallyAll(flat, years, OneWeight());
    YearTotalsIsTally(slots, years);
    SumAmountsIsTally(BonusEntries(flat));
    LengthIsTally(BonusEntries(flat));
    BonusCountIsWeight(flat);
    WeightIsFlatWeight(slots, IsBonusWeight());
  }
}

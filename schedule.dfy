/** The scheduler's output in lib/sequencer.ts: slot entries (a placed bonus or an idle
    placeholder), the per-slot chain they form, and the aggregates `total_bonus` and
    `horizon_weeks` (lines 237-241). */
module Schedule {
  import opened Arith
  import opened Offers
  import opened Feasibility
  import opened Pool
  import opened History

  const MAX_PLACEMENTS: int := 200

  /** `SlotEntry`: a placement carries its offer (whose fields the source copies into the
      entry) and its derived figures; a placeholder names the bank it waits for. */
  datatype SlotEntry =
    | Bonus(offer: Offer, weeksToComplete: nat, velocity: Ratio, slot: nat,
            startWeek: int, endWeek: int, payoutWeek: int, cycle: int)
    | Placeholder(slot: nat, startWeek: int, endWeek: int, waitingFor: string, availableWeek: int)

  datatype SequencerResult = SequencerResult(
    slots: seq<seq<SlotEntry>>,
    totalBonus: int,
    horizonWeeks: int,
    skipped: seq<SkippedOffer>)

  /** Weeks from start until the bonus posts, counting the start week as the first: the
      whole weeks covering the posting estimate, or the completion weeks plus four when
      there is no estimate (null or 0). */
  function PayoutWeeks(o: Offer, weeks: nat): (n: nat)
    ensures n >= 1
    ensures Given(o.timeline.bonusPostingDaysEst) ==>
              7 * (n - 1) < o.timeline.bonusPostingDaysEst.value <= 7 * n
    ensures !Given(o.timeline.bonusPostingDaysEst) ==> n == weeks + 4
  {
    if Given(o.timeline.bonusPostingDaysEst) then CeilDiv(o.timeline.bonusPostingDaysEst.value, 7)
    else weeks + 4
  }

  /** The shape every entry the scheduler emits has. */
  ghost predicate WellShaped(e: SlotEntry)
  {
    && 1 <= e.startWeek <= e.endWeek
    && e.startWeek <= MAX_WEEKS
    && (e.Bonus? ==>
          && e.weeksToComplete >= 1
          && e.endWeek == e.startWeek + e.weeksToComplete - 1
          && e.payoutWeek == e.startWeek + PayoutWeeks(e.offer, e.weeksToComplete) - 1
          && e.velocity == Ratio(e.offer.bonusAmount, e.weeksToComplete)
          && e.cycle >= 1)
    && (e.Placeholder? ==> e.availableWeek == e.endWeek + 1 && e.availableWeek <= MAX_WEEKS)
  }

  /** One slot's entries: all in that slot, starting at week 1, each starting the week
      after its predecessor ends. */
  ghost predicate Contiguous(es: seq<SlotEntry>, slot: nat)
  {
    && (forall k :: 0 <= k < |es| ==> es[k].slot == slot && WellShaped(es[k]))
    && (|es| > 0 ==> es[0].startWeek == 1)
    && (forall j, k :: 0 <= j < k < |es| && k == j + 1 ==> es[k].startWeek == es[j].endWeek + 1)
  }

  /** The slot's next free week, given its entries. */
  function NextFree(es: seq<SlotEntry>): int
  {
    if es == [] then 1 else es[|es| - 1].endWeek + 1
  }

  /** Entries of a slot are in start order and pairwise disjoint. */
  lemma {:induction false} ContiguousDisjoint(es: seq<SlotEntry>, slot: nat, i: nat, j: nat)
    requires Contiguous(es, slot) && i < j < |es|
    ensures es[i].endWeek < es[j].startWeek
    decreases j - i
  {
    if j > i + 1 {
      ContiguousDisjoint(es, slot, i, j - 1);
    }
  }

  /** Every week from 1 up to the slot's next free week is covered by exactly one entry. */
  lemma {:induction false} ContiguousCovers(es: seq<SlotEntry>, slot: nat, w: int)
    requires Contiguous(es, slot) && 1 <= w < NextFree(es)
    ensures exists k :: 0 <= k < |es| && es[k].startWeek <= w <= es[k].endWeek
    ensures forall k1, k2 ::
              (0 <= k1 < |es| && 0 <= k2 < |es| && es[k1].startWeek <= w <= es[k1].endWeek
               && es[k2].startWeek <= w <= es[k2].endWeek) ==> k1 == k2
  {
    var n := |es|;
    if es[n - 1].startWeek <= w {
      assert es[n - 1].startWeek <= w <= es[n - 1].endWeek;
    } else {
      assert n > 1;
      assert NextFree(es[..n - 1]) == es[n - 1].startWeek;
      assert Contiguous(es[..n - 1], slot);
      ContiguousCovers(es[..n - 1], slot, w);
      var k :| 0 <= k < n - 1 && es[..n - 1][k].startWeek <= w <= es[..n - 1][k].endWeek;
      assert es[k].startWeek <= w <= es[k].endWeek;
    }
    forall k1, k2 | 0 <= k1 < n && 0 <= k2 < n && es[k1].startWeek <= w <= es[k1].endWeek
                    && es[k2].startWeek <= w <= es[k2].endWeek
      ensures k1 == k2
    {
      if k1 < k2 { ContiguousDisjoint(es, slot, k1, k2); }
      if k2 < k1 { ContiguousDisjoint(es, slot, k2, k1); }
    }
  }

  // ---- counting entries over all slots ----------------------------------------

  function SeqWeight(es: seq<SlotEntry>, w: SlotEntry -> nat): nat
  {
    if es == [] then 0 else SeqWeight(es[..|es| - 1], w) + w(es[|es| - 1])
  }

  function Weight(ss: seq<seq<SlotEntry>>, w: SlotEntry -> nat): nat
  {
    if ss == [] then 0 else Weight(ss[..|ss| - 1], w) + SeqWeight(ss[|ss| - 1], w)
  }

  /** Appending an entry to one slot adds exactly its own weight. */
  lemma {:induction false} WeightAppend(ss: seq<seq<SlotEntry>>, s: nat, e: SlotEntry, w: SlotEntry -> nat)
    requires s < |ss|
    ensures Weight(ss[s := ss[s] + [e]], w) == Weight(ss, w) + w(e)
  {
    var n := |ss|;
    var ss' := ss[s := ss[s] + [e]];
    assert (ss[s] + [e])[..|ss[s]|] == ss[s];
    if s == n - 1 {
      assert ss'[..n - 1] == ss[..n - 1];
    } else {
      WeightAppend(ss[..n - 1], s, e, w);
      assert ss'[..n - 1] == ss[..n - 1][s := ss[s] + [e]];
    }
  }

  function IsBonusWeight(): SlotEntry -> nat
  {
    (e: SlotEntry) => if e.Bonus? then 1 else 0
  }

  function IdWeight(id: string): SlotEntry -> nat
  {
    (e: SlotEntry) => if e.Bonus? && e.offer.id == id then 1 else 0
  }

  function KeyWeight(id: string, cycle: int): SlotEntry -> nat
  {
    (e: SlotEntry) => if e.Bonus? && e.offer.id == id && e.cycle == cycle then 1 else 0
  }

  /** Placements made over all slots. */
  function PlacementCount(ss: seq<seq<SlotEntry>>): nat { Weight(ss, IsBonusWeight()) }

  /** Placements of the offer with this id. */
  function CountId(ss: seq<seq<SlotEntry>>, id: string): nat { Weight(ss, IdWeight(id)) }

  /** Placements of this offer id in this cycle. */
  function CountKey(ss: seq<seq<SlotEntry>>, id: string, cycle: int): nat { Weight(ss, KeyWeight(id, cycle)) }

  // ---- aggregation (lines 237-239) ---------------------------------------------

  /** All slots' entries, slot after slot. */
  function Flatten(ss: seq<seq<SlotEntry>>): seq<SlotEntry>
  {
    if ss == [] then [] else Flatten(ss[..|ss| - 1]) + ss[|ss| - 1]
  }

  /** The placements among the entries, in order. */
  function BonusEntries(es: seq<SlotEntry>): (bs: seq<SlotEntry>)
    ensures forall e :: e in bs <==> e in es && e.Bonus?
  {
    if es == [] then []
    else BonusEntries(es[..|es| - 1]) + (if es[|es| - 1].Bonus? then [es[|es| - 1]] else [])
  }

  /** The sum of the placements' bonus amounts. */
  function SumAmounts(es: seq<SlotEntry>): (r: int)
    ensures r >= 0
    ensures (forall e :: e in es ==> !e.Bonus?) ==> r == 0
  {
    if es == [] then 0
    else SumAmounts(es[..|es| - 1]) + (if es[|es| - 1].Bonus? then es[|es| - 1].offer.bonusAmount else 0)
  }

  /** The latest payout week of a non-empty list of placements. */
  function MaxPayout(bs: seq<SlotEntry>): (m: int)
    requires |bs| > 0 && forall e :: e in bs ==> e.Bonus?
    ensures forall e :: e in bs ==> e.payoutWeek <= m
    ensures exists e :: e in bs && e.payoutWeek == m
  {
    if |bs| == 1 then
      assert bs[0] in bs;
      bs[0].payoutWeek
    else
      var m := MaxPayout(bs[..|bs| - 1]);
      var last := bs[|bs| - 1];
      assert forall e :: e in bs <==> e in bs[..|bs| - 1] || e == last;
      if last.payoutWeek > m then last.payoutWeek else m
  }

  /** The amounts of all placements in all slots, 0 when nothing was placed. */
  function TotalBonus(ss: seq<seq<SlotEntry>>): (r: int)
    ensures r >= 0
    ensures (forall e :: e in Flatten(ss) ==> !e.Bonus?) ==> r == 0
  {
    SumAmounts(BonusEntries(Flatten(ss)))
  }

  /** The latest payout of all placements, 0 when nothing was placed. */
  function HorizonWeeks(ss: seq<seq<SlotEntry>>): (r: int)
    ensures forall e :: e in Flatten(ss) && e.Bonus? ==> e.payoutWeek <= r
    ensures (forall e :: e in Flatten(ss) ==> !e.Bonus?) ==> r == 0
    ensures (exists e :: e in Flatten(ss) && e.Bonus?) ==> exists e :: e in Flatten(ss) && e.Bonus? && e.payoutWeek == r
  {
    var bs := BonusEntries(Flatten(ss));
    if |bs| > 0 then MaxPayout(bs) else 0
  }

  lemma {:induction false} FlattenMembers(ss: seq<seq<SlotEntry>>)
    ensures forall e :: e in Flatten(ss) <==> exists s :: 0 <= s < |ss| && e in ss[s]
  {
    if ss != [] {
      FlattenMembers(ss[..|ss| - 1]);
      forall e ensures e in Flatten(ss) <==> exists s :: 0 <= s < |ss| && e in ss[s] {
        if e in ss[|ss| - 1] {
        } else if e in Flatten(ss[..|ss| - 1]) {
          var s :| 0 <= s < |ss| - 1 && e in ss[..|ss| - 1][s];
          assert e in ss[s];
        }
      }
    }
  }

  /** `horizon_weeks` is the latest payout week of any placement in any slot, and 0
      when nothing was placed. */
  lemma HorizonIsLatestPayout(ss: seq<seq<SlotEntry>>)
    ensures forall s, k :: 0 <= s < |ss| && 0 <= k < |ss[s]| && ss[s][k].Bonus? ==> ss[s][k].payoutWeek <= HorizonWeeks(ss)
    ensures (exists s, k :: 0 <= s < |ss| && 0 <= k < |ss[s]| && ss[s][k].Bonus?) ==>
              exists s, k :: 0 <= s < |ss| && 0 <= k < |ss[s]| && ss[s][k].Bonus? && ss[s][k].payoutWeek == HorizonWeeks(ss)
    ensures (forall s, k :: 0 <= s < |ss| && 0 <= k < |ss[s]| ==> !ss[s][k].Bonus?) ==> HorizonWeeks(ss) == 0
  {
    FlattenMembers(ss);
    var bs := BonusEntries(Flatten(ss));
    forall s, k | 0 <= s < |ss| && 0 <= k < |ss[s]| && ss[s][k].Bonus? ensures ss[s][k] in bs {
      assert ss[s][k] in ss[s];
    }
    if |bs| > 0 {
      var m := MaxPayout(bs);
      assert HorizonWeeks(ss) == m;
      var e :| e in bs && e.payoutWeek == m;
      var s :| 0 <= s < |ss| && e in ss[s];
      var k :| 0 <= k < |ss[s]| && ss[s][k] == e;
    } else {
      assert forall s, k :: 0 <= s < |ss| && 0 <= k < |ss[s]| ==> !ss[s][k].Bonus? by {
        forall s, k | 0 <= s < |ss| && 0 <= k < |ss[s]| ensures !ss[s][k].Bonus? {
          assert ss[s][k] in ss[s];
        }
      }
    }
  }
}

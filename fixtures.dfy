/** Two offers of the catalog in lib/data/bonuses.ts, and what the model computes for
    them: a churnable offer with a per-deposit minimum and a lifetime offer whose
    deposit total must fit into a window. */
module Fixtures {
  import opened Wrappers
  import opened Offers
  import opened Feasibility
  import opened Pool
  import opened Schedule
  import opened Churn
  import opened Keys
  import opened History
  import opened Scheduler

  /** lib/data/bonuses.ts:61-115 */
  const CapitalOne360: Offer := Offer(
    "capital-one-360-checking-300-offer300",
    "Capital One",
    300,
    Some(36),
    Requirements(true, Some(500), Some(1000), Some(2), Some(75)),
    Timeline(Some(135), Some(135)),
    Some(0),
    Some("low"),
    Some(false),
    ["https://www.capitalone.com/bank/offer300/",
     "https://www.doctorofcredit.com/capital-one-300-checking-bonus/",
     "https://www.profitablecontent.com/capital-one-350-checking-bonus/"])

  /** lib/data/bonuses.ts:564-618 */
  const Figfcu: Offer := Offer(
    "figfcu-250-high-yield-checking-ghycheck",
    "Farmers Insurance Federal Credit Union (FIGFCU)",
    250,
    None,
    Requirements(true, None, Some(15000), Some(3), Some(90)),
    Timeline(Some(120), None),
    Some(0),
    Some("medium"),
    Some(false),
    ["https://figfcu.org/high-yield-checking-google-search?utm_source=google&utm_medium=cpc&utm_campaign=high_yield_checking&utm_id=ddep&utm_content=high_yield_checking_july_2024&utm_keyword=bank%20deposit%20bonus&gad_source=1&gclid=Cj0KCQjwrKu2BhDkARIsAD7GBov2LxYZ_mBgdiNkPyMWuxX3TyXlp0Zaqd8KbpMlIfzaGrKDYDI8stQaAgtBEALw_wcB",
     "https://www.doctorofcredit.com/farmers-insurance-federal-credit-union-figfcu-250-checking-bonus/"])

  /** lib/data/bonuses.ts:450-507 */
  const Bmo: Offer := Offer(
    "bmo-400-checking-2026",
    "BMO",
    400,
    Some(12),
    Requirements(true, None, Some(4000), None, Some(90)),
    Timeline(Some(100), Some(100)),
    Some(0),
    None,
    None,
    ["https://www.bmo.com/en-us/main/personal/checking-accounts/digital-offer/",
     "https://www.doctorofcredit.com/il-wi-mn-in-az-fl-ks-mo-bmo-harris-350-checking-300-savings-bonus/"])

  /** Paid $600 every two weeks, the two $500 deposits take four weeks: $75 a week, a
      36-month cooldown of 157 weeks, and the bonus posts in week 20 of the placement. */
  lemma CapitalOneBiweekly()
    ensures Evaluate(CapitalOne360, Biweekly, 600) == Feasible(4)
    ensures MakeCandidate(CapitalOne360, 4).velocity == Ratio(300, 4)
    ensures MakeCandidate(CapitalOne360, 4).cooldownWeeks == 157
    ensures !MakeCandidate(CapitalOne360, 4).isLifetime
    ensures PayoutWeeks(CapitalOne360, 4) == 20
  {
    assert MaxDeposits(75, Biweekly) == 6;
    assert DepositCount(CapitalOne360.requirements, 600) == 2;
    assert WeeksFor(2, Biweekly) == 4;
    assert CooldownWeeks(36) == 157;
  }

  /** A $400 paycheck is below the $500 per-deposit minimum. */
  lemma CapitalOneSmallPaycheck()
    ensures Evaluate(CapitalOne360, Biweekly, 400) == Infeasible(BelowPerDepositMinimum(400, 500))
  {
    assert BelowPerDeposit(CapitalOne360.requirements, 400);
  }

  /** Seven biweekly $1,000 deposits fit into 90 days, which is $7,000 of the $15,000
      needed; at $2,500 the three required deposits take six weeks. */
  lemma FigfcuBiweekly()
    ensures Evaluate(Figfcu, Biweekly, 1000) == Infeasible(WindowShortfall(7000, 90, 15000))
    ensures Evaluate(Figfcu, Biweekly, 2500) == Feasible(6)
    ensures MakeCandidate(Figfcu, 6).isLifetime && MakeCandidate(Figfcu, 6).cooldownWeeks == 0
  {
    assert MaxDeposits(90, Biweekly) == 7;
    assert ShortOfWindow(Figfcu.requirements, Biweekly, 1000);
    assert !ShortOfWindow(Figfcu.requirements, Biweekly, 2500);
    assert DepositCount(Figfcu.requirements, 2500) == 3;
    assert WeeksFor(3, Biweekly) == 6;
  }

  /** A closed record of a lifetime offer makes it permanently unavailable. */
  lemma FigfcuDoneOnce(today: Day, addMonths: AddMonths)
    ensures GetChurnStatus(Figfcu.id, Figfcu.cooldownMonths,
                           [CompletedBonus("r1", "u1", Figfcu.id, 10, Some(200), true)], today, addMonths)
            == Lifetime
  {
    var rec := CompletedBonus("r1", "u1", Figfcu.id, 10, Some(200), true);
    assert RecordsFor(Figfcu.id, [rec]) == [rec];
  }

  /** Closed on day 100, with 36 months after that ending on day 1200, the offer is
      cooling down on day 500 with 700 days to go; an open record of another offer does
      not affect it. */
  lemma CapitalOneCoolingDown(addMonths: AddMonths)
    requires addMonths(100, 36) == 1200
    ensures GetChurnStatus(CapitalOne360.id, CapitalOne360.cooldownMonths,
                           [CompletedBonus("r1", "u1", CapitalOne360.id, 40, Some(100), true),
                            CompletedBonus("r2", "u1", Figfcu.id, 300, None, false)], 500, addMonths)
            == InCooldown(1200, 700, 100)
  {
    var r1 := CompletedBonus("r1", "u1", CapitalOne360.id, 40, Some(100), true);
    var r2 := CompletedBonus("r2", "u1", Figfcu.id, 300, None, false);
    assert CapitalOne360.id != Figfcu.id by { assert CapitalOne360.id[0] != Figfcu.id[0]; }
    assert [r1, r2][1..] == [r2];
    assert [r2][1..] == [];
    assert RecordsFor(CapitalOne360.id, [r2]) == [];
    assert RecordsFor(CapitalOne360.id, [r1, r2]) == [r1] + RecordsFor(CapitalOne360.id, [r2]);
    assert [r1][1..] == [];
  }

  /** The roadmap key of Capital One's second cycle splits back into the id, whose own
      dashes and digits do not confuse it, and the cycle. */
  lemma CapitalOneSecondCycleKey()
    ensures Key(CapitalOne360.id, 2) == "capital-one-360-checking-300-offer300-2"
    ensures ParseKey("capital-one-360-checking-300-offer300-2") == Some((CapitalOne360.id, 2))
  {
    assert NatToDecimal(2) == "2";
    KeyRoundTrip(CapitalOne360.id, 2);
  }

  /** Paid $1,000 every two weeks: Capital One's two deposits take four weeks ($75 a
      week), BMO's $4,000 takes four deposits and eight weeks ($50 a week), with a
      12-month cooldown of 53 weeks. */
  lemma ThousandBiweekly()
    ensures Evaluate(CapitalOne360, Biweekly, 1000) == Feasible(4)
    ensures Evaluate(Bmo, Biweekly, 1000) == Feasible(8)
    ensures MakeCandidate(Bmo, 8).velocity == Ratio(400, 8) && MakeCandidate(Bmo, 8).cooldownWeeks == 53
    ensures Faster(Ratio(300, 4), Ratio(400, 8))
  {
    assert MaxDeposits(75, Biweekly) == 6;
    assert DepositCount(CapitalOne360.requirements, 1000) == 2;
    assert WeeksFor(2, Biweekly) == 4;
    assert MaxDeposits(90, Biweekly) == 7;
    assert !ShortOfWindow(Bmo.requirements, Biweekly, 1000);
    assert DepositCount(Bmo.requirements, 1000) == 4;
    assert WeeksFor(4, Biweekly) == 8;
    assert CooldownWeeks(12) == 53;
  }

  /* The one-slot scenario below, round by round. */
  const ScenarioPool: seq<Candidate> := [MakeCandidate(CapitalOne360, 4), MakeCandidate(Bmo, 8)]
  const ScenarioStart: LoopState := Initial(1, map[Bmo.id := 10], map[Bmo.id := 2])
  const FirstCapitalOne: SlotEntry := Bonus(CapitalOne360, 4, Ratio(300, 4), 0, 1, 4, 20, 1)
  const WaitForBmo: SlotEntry := Placeholder(0, 5, 9, "BMO", 10)
  const ThenBmo: SlotEntry := Bonus(Bmo, 8, Ratio(400, 8), 0, 10, 17, 24, 2)
  const AvailAfterFirst: map<string, int> := map[Bmo.id := 10, CapitalOne360.id := 177]
  const CycleAfterFirst: map<string, int> := map[Bmo.id := 2, CapitalOne360.id := 2]
  const AfterFirst: LoopState := LoopState([[FirstCapitalOne]], [5], AvailAfterFirst, CycleAfterFirst, 1)
  const AfterWait: LoopState := LoopState([[FirstCapitalOne, WaitForBmo]], [10], AvailAfterFirst, CycleAfterFirst, 1)
  const AfterBmo: LoopState :=
    LoopState([[FirstCapitalOne, WaitForBmo, ThenBmo]], [18],
              AvailAfterFirst[Bmo.id := 77], CycleAfterFirst[Bmo.id := 3], 2)

  /** The two candidates of the scenario: distinct ids, 157 and 53 weeks of cooldown,
      payouts 20 and 15 weeks after their starts. */
  lemma ScenarioCandidates()
    ensures CapitalOne360.id != Bmo.id
    ensures ScenarioPool[0].cooldownWeeks == 157 && ScenarioPool[1].cooldownWeeks == 53
    ensures PayoutWeeks(CapitalOne360, 4) == 20 && PayoutWeeks(Bmo, 8) == 15
  {
    assert CapitalOne360.id[0] != Bmo.id[0];
    assert CooldownWeeks(36) == 157;
    assert CooldownWeeks(12) == 53;
  }

  /** Week 1: Capital One is available and first in the pool, so it is placed. */
  lemma ScenarioFirstRound()
    ensures Round(ScenarioPool, ScenarioStart) == Some(AfterFirst)
  {
    ScenarioCandidates();
    var pool, st0, e1 := ScenarioPool, ScenarioStart, FirstCapitalOne;
    assert st0.slotNext == [1];
    assert EarliestSlot(st0.slotNext) == 0;
    assert AvailOf(st0.avail, CapitalOne360.id) == 1 && AvailOf(st0.avail, Bmo.id) == 10;
    assert BestUpTo(pool, st0.avail, 1, 1) == 0;
    assert BestUpTo(pool, st0.avail, 1, 2) == 0;
    assert st0.entries == [[]];
    assert CycleOf(st0.cyc, CapitalOne360.id) == 1;
    assert PlacementFor(pool[0], 0, 1, 1) == e1;
    assert st0.entries[0] + [e1] == [e1];
    assert |st0.entries[0 := [e1]]| == 1 && st0.entries[0 := [e1]][0] == [e1];
    assert st0.entries[0 := st0.entries[0] + [e1]] == [[e1]];
    assert Placed(pool, st0, 0, 0).entries == AfterFirst.entries;
    assert Placed(pool, st0, 0, 0).slotNext == AfterFirst.slotNext;
    assert Placed(pool, st0, 0, 0).avail == AfterFirst.avail;
    assert Placed(pool, st0, 0, 0).cyc == AfterFirst.cyc;
    assert Placed(pool, st0, 0, 0) == AfterFirst;
  }

  /** Week 5: neither offer is available; BMO is the next, at week 10, so the slot idles. */
  lemma ScenarioSecondRound()
    ensures Round(ScenarioPool, AfterFirst) == Some(AfterWait)
  {
    ScenarioCandidates();
    var pool, avail1, e1, ph := ScenarioPool, AvailAfterFirst, FirstCapitalOne, WaitForBmo;
    assert AvailOf(avail1, CapitalOne360.id) == 177 && AvailOf(avail1, Bmo.id) == 10;
    assert BestUpTo(pool, avail1, 5, 1) == -1;
    assert BestUpTo(pool, avail1, 5, 2) == -1;
    assert NextUpTo(pool, avail1, 5, 1) == (177, "Capital One");
    assert NextAvailability(pool, avail1, 5) == (10, "BMO");
    assert EarliestSlot(AfterFirst.slotNext) == 0;
    assert [e1] + [ph] == [e1, ph];
    assert |AfterFirst.entries[0 := [e1, ph]]| == 1 && AfterFirst.entries[0 := [e1, ph]][0] == [e1, ph];
    assert Idled(AfterFirst, 0, 10, "BMO") == AfterWait;
  }

  /** Week 10: BMO has cooled down and is placed for its second cycle. */
  lemma ScenarioThirdRound()
    ensures Round(ScenarioPool, AfterWait) == Some(AfterBmo)
  {
    ScenarioCandidates();
    var pool, avail1, cyc1 := ScenarioPool, AvailAfterFirst, CycleAfterFirst;
    var e1, ph, e2 := FirstCapitalOne, WaitForBmo, ThenBmo;
    assert AvailOf(avail1, CapitalOne360.id) == 177 && AvailOf(avail1, Bmo.id) == 10;
    assert BestUpTo(pool, avail1, 10, 1) == -1;
    assert BestUpTo(pool, avail1, 10, 2) == 1;
    assert EarliestSlot(AfterWait.slotNext) == 0;
    assert CycleOf(cyc1, Bmo.id) == 2;
    assert PlacementFor(pool[1], 0, 10, 2) == e2;
    assert [e1, ph] + [e2] == [e1, ph, e2];
    assert |AfterWait.entries[0 := [e1, ph, e2]]| == 1 && AfterWait.entries[0 := [e1, ph, e2]][0] == [e1, ph, e2];
    assert Placed(pool, AfterWait, 0, 1) == AfterBmo;
  }

  /** One slot, with BMO cooling down until week 10 (its earlier cycle makes this one
      its second): the $75-a-week Capital One offer is placed at week 1, the slot then
      idles through weeks 5-9 waiting for BMO, and the $50-a-week BMO offer is placed at
      week 10. */
  lemma OneSlotIdlesForTheSlowerOffer()
    ensures var pool := [MakeCandidate(CapitalOne360, 4), MakeCandidate(Bmo, 8)];
            var run := Run(pool, Initial(1, map[Bmo.id := 10], map[Bmo.id := 2]));
            && |run.entries| == 1 && |run.entries[0]| >= 3
            && run.entries[0][..3] == [Bonus(CapitalOne360, 4, Ratio(300, 4), 0, 1, 4, 20, 1),
                                       Placeholder(0, 5, 9, "BMO", 10),
                                       Bonus(Bmo, 8, Ratio(400, 8), 0, 10, 17, 24, 2)]
  {
    ScenarioFirstRound();
    ScenarioSecondRound();
    ScenarioThirdRound();
    assert Run(ScenarioPool, ScenarioStart) == Run(ScenarioPool, AfterFirst);
    assert Run(ScenarioPool, AfterFirst) == Run(ScenarioPool, AfterWait);
    assert Run(ScenarioPool, AfterWait) == Run(ScenarioPool, AfterBmo);
    RunOnlyAppends(ScenarioPool, AfterBmo);
    assert AfterBmo.entries[0] == [FirstCapitalOne, WaitForBmo, ThenBmo];
  }
}

/** History seeding in lib/sequencer.ts (`runSequencer`, lines 119-144): each candidate's
    first available simulated week and its cycle counter, from the completion records. */
module History {
  import opened Wrappers
  import opened Arith
  import opened Churn
  import opened Pool

  const MAX_WEEKS: int := 520

  /** Never available within the run. */
  const UNAVAILABLE: int := MAX_WEEKS + 1

  /** The scheduler's two per-offer maps, keyed by offer id. */
  datatype Tracking = Tracking(nextAvailable: map<string, int>, cycle: map<string, int>)

  /** The week an offer is next available; week 1 when none is recorded. */
  function AvailOf(m: map<string, int>, id: string): int { if id in m then m[id] else 1 }

  /** The cycle an offer's next placement has; 1 when none is recorded. */
  function CycleOf(m: map<string, int>, id: string): int { if id in m then m[id] else 1 }

  predicate ConsistentCandidate(c: Candidate) { c.isLifetime <==> c.cooldownMonths.None? }

  /** What the loop body at lines 126-143 writes for candidate `c`: a week and a cycle,
      each absent when it writes nothing. */
  function SeedEntry(c: Candidate, records: seq<CompletedBonus>, today: Day, addMonths: AddMonths)
    : (r: (Option<int>, Option<int>))
    requires ConsistentCandidate(c)
    ensures r.0.Some? ==> r.0.value >= 1
    ensures r.1.Some? ==> r.0.Some? && r.1.value == 2
  {
    var rs := RecordsFor(c.offer.id, records);
    var inProgress := FirstOpen(rs);
    var lastClosed := MostRecentClosed(rs);
    if inProgress.Some? then (Some(UNAVAILABLE), None)
    else if lastClosed.Some? && c.isLifetime then (Some(UNAVAILABLE), Some(2))
    else if lastClosed.Some? && !c.isLifetime then
      var availDate := addMonths(lastClosed.value.closedDate.value, c.cooldownMonths.value);
      var weeksUntil := if availDate > today then CeilDiv(availDate - today, 7) else 0;
      (Some(weeksUntil + 1), Some(2))
    else (None, None)
  }

  function Write(m: map<string, int>, id: string, v: Option<int>): map<string, int>
  {
    if v.Some? then m[id := v.value] else m
  }

  function SeedOne(t: Tracking, c: Candidate, records: seq<CompletedBonus>, today: Day, addMonths: AddMonths): Tracking
    requires ConsistentCandidate(c)
  {
    var (week, cycle) := SeedEntry(c, records, today, addMonths);
    Tracking(Write(t.nextAvailable, c.offer.id, week), Write(t.cycle, c.offer.id, cycle))
  }

  ghost predicate AllConsistent(pool: seq<Candidate>) { forall c :: c in pool ==> ConsistentCandidate(c) }

  /** The maps after the loop over the whole pool. */
  function Seeded(pool: seq<Candidate>, records: seq<CompletedBonus>, today: Day, addMonths: AddMonths): (t: Tracking)
    requires AllConsistent(pool)
    ensures forall id :: id in t.nextAvailable ==> t.nextAvailable[id] >= 1
    ensures forall id :: id in t.cycle ==> id in t.nextAvailable && t.cycle[id] == 2
  {
    if pool == [] then Tracking(map[], map[])
    else SeedOne(Seeded(pool[..|pool| - 1], records, today, addMonths), pool[|pool| - 1], records, today, addMonths)
  }

  /** Lines 119-144. */
  method SeedFromHistory(pool: seq<Candidate>, records: seq<CompletedBonus>, today: Day, addMonths: AddMonths)
    returns (nextAvailable: map<string, int>, cycle: map<string, int>)
    requires AllConsistent(pool)
    ensures Tracking(nextAvailable, cycle) == Seeded(pool, records, today, addMonths)
  {
    nextAvailable, cycle := map[], map[];
    for i := 0 to |pool|
      invariant AllConsistent(pool[..i])
      invariant Tracking(nextAvailable, cycle) == Seeded(pool[..i], records, today, addMonths)
    {
      SeededExtends(pool, records, today, addMonths, i);
      var eb := pool[i];
      var id := eb.offer.id;
      var rs := RecordsFor(id, records);
      var inProgress := FirstOpen(rs);
      var lastClosed := MostRecentClosed(rs);
      if inProgress.Some? { nextAvailable := nextAvailable[id := UNAVAILABLE]; continue; }
      if lastClosed.Some? && eb.isLifetime {
        nextAvailable := nextAvailable[id := UNAVAILABLE];
        cycle := cycle[id := 2];
        continue;
      }
      if lastClosed.Some? && !eb.isLifetime {
        var availDate := addMonths(lastClosed.value.closedDate.value, eb.cooldownMonths.value);
        var weeksUntil := if availDate > today then CeilDiv(availDate - today, 7) else 0;
        nextAvailable := nextAvailable[id := weeksUntil + 1];
        cycle := cycle[id := 2];
      }
    }
    assert pool[..|pool|] == pool;
  }

  /** One more candidate of the pool is one more seeding step. */
  lemma SeededExtends(pool: seq<Candidate>, records: seq<CompletedBonus>, today: Day, addMonths: AddMonths, i: nat)
    requires AllConsistent(pool) && i < |pool|
    ensures ConsistentCandidate(pool[i]) && AllConsistent(pool[..i]) && AllConsistent(pool[..i + 1])
    ensures Seeded(pool[..i + 1], records, today, addMonths)
         == SeedOne(Seeded(pool[..i], records, today, addMonths), pool[i], records, today, addMonths)
  {
    assert pool[i] in pool;
    assert pool[..i + 1][..i] == pool[..i];
  }

  /** The seeded week for one candidate is the one the churn classifier implies:
      unavailable while in progress or when a lifetime offer is used up, the week after
      the cooldown's remaining days when cooling down, week 1 when available; the cycle
      is 2 when closed history exists and 1 otherwise. */
  lemma SeedMatchesChurnStatus(c: Candidate, records: seq<CompletedBonus>, today: Day, addMonths: AddMonths)
    requires ConsistentCandidate(c)
    ensures var t := SeedOne(Tracking(map[], map[]), c, records, today, addMonths);
            var st := GetChurnStatus(c.offer.id, c.cooldownMonths, records, today, addMonths);
            && (st.InProgress? ==> AvailOf(t.nextAvailable, c.offer.id) == UNAVAILABLE)
            && (st == Lifetime ==> AvailOf(t.nextAvailable, c.offer.id) == UNAVAILABLE)
            && (st.InCooldown? ==>
                  (st.daysRemaining >= 1 && AvailOf(t.nextAvailable, c.offer.id) == CeilDiv(st.daysRemaining, 7) + 1))
            && (st == Available ==> AvailOf(t.nextAvailable, c.offer.id) == 1)
            && CycleOf(t.cycle, c.offer.id) ==
                 (if HasRecord(records, c.offer.id) && !HasOpenRecord(records, c.offer.id) then 2 else 1)
  {
    var id := c.offer.id;
    var rs := RecordsFor(id, records);
    ChurnStatusClassifies(id, c.cooldownMonths, records, today, addMonths);
    MostRecentClosedIsLatest(rs);
    if |rs| > 0 { assert rs[0] in rs; }
  }

  /** Whether a candidate's seed writes anything depends only on whether its offer
      has history. */
  lemma SeedEntryWrites(c: Candidate, records: seq<CompletedBonus>, today: Day, addMonths: AddMonths)
    requires ConsistentCandidate(c)
    ensures SeedEntry(c, records, today, addMonths).0.Some? <==> HasRecord(records, c.offer.id)
    ensures HasOpenRecord(records, c.offer.id) ==> SeedEntry(c, records, today, addMonths).0 == Some(UNAVAILABLE)
    ensures c.isLifetime && HasRecord(records, c.offer.id) ==> SeedEntry(c, records, today, addMonths).0 == Some(UNAVAILABLE)
    ensures forall v :: SeedEntry(c, records, today, addMonths).1 == Some(v) ==> v == 2
  {
    var rs := RecordsFor(c.offer.id, records);
    MostRecentClosedIsLatest(rs);
    if |rs| > 0 { assert rs[0] in rs; }
  }

  function Ids(pool: seq<Candidate>): set<string> { set c | c in pool :: c.offer.id }
  function LifetimeIds(pool: seq<Candidate>): set<string> { set c | c in pool && c.isLifetime :: c.offer.id }
  function ChurnableIds(pool: seq<Candidate>): set<string> { set c | c in pool && !c.isLifetime :: c.offer.id }

  /** What the seeded maps say about an id: nothing when no candidate has it, a cycle
      of 2 when one is written, and week 521 when an account is open or a lifetime offer
      was already used. */
  lemma {:induction false} SeededFacts(pool: seq<Candidate>, records: seq<CompletedBonus>, today: Day,
                                       addMonths: AddMonths, id: string)
    requires AllConsistent(pool)
    ensures var t := Seeded(pool, records, today, addMonths);
            && (id !in Ids(pool) ==> id !in t.nextAvailable && id !in t.cycle)
            && (id in t.cycle ==> t.cycle[id] == 2)
            && (id in Ids(pool) && HasOpenRecord(records, id) ==> AvailOf(t.nextAvailable, id) == UNAVAILABLE)
            && (id in Ids(pool) && HasRecord(records, id) && (forall c :: c in pool && c.offer.id == id ==> c.isLifetime) ==>
                  AvailOf(t.nextAvailable, id) == UNAVAILABLE)
  {
    if pool != [] {
      var init := pool[..|pool| - 1];
      var c := pool[|pool| - 1];
      assert forall x :: x in pool <==> x in init || x == c;
      SeededFacts(init, records, today, addMonths, id);
      var t0 := Seeded(init, records, today, addMonths);
      if c.offer.id == id {
        SeedEntryWrites(c, records, today, addMonths);
      } else {
        SeedOneOther(t0, c, records, today, addMonths, id);
        assert id in Ids(pool) ==> id in Ids(init);
      }
    }
  }

  /** Seeding one candidate leaves every other id's entries as they were. */
  lemma SeedOneOther(t: Tracking, c: Candidate, records: seq<CompletedBonus>, today: Day, addMonths: AddMonths, id: string)
    requires ConsistentCandidate(c) && c.offer.id != id
    ensures var t' := SeedOne(t, c, records, today, addMonths);
            && (id in t'.nextAvailable <==> id in t.nextAvailable)
            && (id in t'.cycle <==> id in t.cycle)
            && AvailOf(t'.nextAvailable, id) == AvailOf(t.nextAvailable, id)
            && CycleOf(t'.cycle, id) == CycleOf(t.cycle, id)
  {
  }
}

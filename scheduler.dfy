/** The greedy loop of `runSequencer` (lib/sequencer.ts:146-241): repeatedly take the
    slot that frees up first, fill it with the fastest available candidate, or idle it
    until the next candidate becomes available. */
module Scheduler {
  import opened Wrappers
  import opened Arith
  import opened Offers
  import opened Feasibility
  import opened Churn
  import opened Pool
  import opened History
  import opened Schedule

  // ---- the three per-iteration choices ----------------------------------------

  /** Among the first `n` slots, the one with the smallest next-free week, the lowest
      index among equals: the scan at lines 152-155 after `n` slots. */
  function EarliestUpTo(slotNext: seq<int>, n: nat): (b: nat)
    requires 1 <= n <= |slotNext|
    ensures b < n
  {
    if n == 1 then 0
    else
      var b := EarliestUpTo(slotNext, n - 1);
      if slotNext[n - 1] < slotNext[b] then n - 1 else b
  }

  /** The slot that frees up first. */
  function EarliestSlot(slotNext: seq<int>): (b: nat)
    requires |slotNext| >= 1
    ensures b < |slotNext|
  {
    EarliestUpTo(slotNext, |slotNext|)
  }

  /** The scan finds the first slot of minimal next-free week. */
  lemma {:induction false} EarliestUpToIsFirstMinimum(slotNext: seq<int>, n: nat)
    requires 1 <= n <= |slotNext|
    ensures forall i :: 0 <= i < n ==> slotNext[EarliestUpTo(slotNext, n)] <= slotNext[i]
    ensures forall i :: 0 <= i < EarliestUpTo(slotNext, n) ==> slotNext[EarliestUpTo(slotNext, n)] < slotNext[i]
  {
    if n > 1 {
      EarliestUpToIsFirstMinimum(slotNext, n - 1);
    }
  }

  /** Conversely, the first slot of minimal next-free week is the one chosen. */
  lemma FirstMinimumIsEarliest(slotNext: seq<int>, b: nat)
    requires b < |slotNext|
    requires forall i :: 0 <= i < |slotNext| ==> slotNext[b] <= slotNext[i]
    requires forall i :: 0 <= i < b ==> slotNext[b] < slotNext[i]
    ensures b == EarliestSlot(slotNext)
  {
    EarliestUpToIsFirstMinimum(slotNext, |slotNext|);
  }

  /** Lines 152-155. */
  method FindEarliestSlot(slotNext: array<int>) returns (best: nat)
    requires slotNext.Length >= 1
    ensures best == EarliestSlot(slotNext[..])
  {
    best := 0;
    for i := 1 to slotNext.Length
      invariant best == EarliestUpTo(slotNext[..], i)
    {
      if slotNext[i] < slotNext[best] {
        best := i;
      }
    }
  }

  /** A candidate may start in a slot freeing at `week` when its next-available week
      (1 when none is recorded) is not later. */
  predicate AvailableAt(c: Candidate, avail: map<string, int>, week: int)
  {
    AvailOf(avail, c.offer.id) <= week
  }

  /** The scan at lines 160-167 after the first `n` candidates: the index of the
      fastest available one, the first among equals, or -1 when none is available.
      The source's initial best velocity of -1 loses to any velocity, none of which is
      negative, so the first available candidate always replaces it. */
  function BestUpTo(pool: seq<Candidate>, avail: map<string, int>, week: int, n: nat): (b: int)
    requires n <= |pool|
    ensures -1 <= b < n
  {
    if n == 0 then -1
    else
      var b := BestUpTo(pool, avail, week, n - 1);
      if !AvailableAt(pool[n - 1], avail, week) then b
      else if b == -1 || Faster(pool[n - 1].velocity, pool[b].velocity) then n - 1
      else b
  }

  /** The candidate chosen for a slot freeing at `week`. */
  function BestCandidate(pool: seq<Candidate>, avail: map<string, int>, week: int): (b: int)
    ensures -1 <= b < |pool|
  {
    BestUpTo(pool, avail, week, |pool|)
  }

  /** No candidate is chosen exactly when none is available, and a chosen one is. */
  lemma {:induction false} BestUpToAvailable(pool: seq<Candidate>, avail: map<string, int>, week: int, n: nat)
    requires n <= |pool|
    ensures BestUpTo(pool, avail, week, n) == -1 <==> forall i :: 0 <= i < n ==> !AvailableAt(pool[i], avail, week)
    ensures BestUpTo(pool, avail, week, n) >= 0 ==> AvailableAt(pool[BestUpTo(pool, avail, week, n)], avail, week)
  {
    if n > 0 {
      BestUpToAvailable(pool, avail, week, n - 1);
    }
  }

  /** The chosen candidate is at least as fast as every available one and strictly
      faster than every available one before it. */
  lemma {:induction false} BestUpToFastest(pool: seq<Candidate>, avail: map<string, int>, week: int, n: nat)
    requires PositiveWeeks(pool) && n <= |pool|
    ensures var b := BestUpTo(pool, avail, week, n);
            b >= 0 ==>
              && (forall i :: 0 <= i < n && AvailableAt(pool[i], avail, week) ==>
                    AtLeast(pool[b].velocity, pool[i].velocity))
              && (forall i :: 0 <= i < b && AvailableAt(pool[i], avail, week) ==>
                    Faster(pool[b].velocity, pool[i].velocity))
  {
    if n > 0 {
      BestUpToFastest(pool, avail, week, n - 1);
      BestUpToAvailable(pool, avail, week, n - 1);
      var b := BestUpTo(pool, avail, week, n - 1);
      var c := pool[n - 1];
      assert c in pool;
      if AvailableAt(c, avail, week) && b != -1 && Faster(c.velocity, pool[b].velocity) {
        assert pool[b] in pool;
        forall i | 0 <= i < n - 1 && AvailableAt(pool[i], avail, week)
          ensures Faster(c.velocity, pool[i].velocity)
        {
          assert pool[i] in pool;
          FasterThenAtLeast(c.velocity, pool[b].velocity, pool[i].velocity);
        }
      }
    }
  }

  /** Conversely, an available candidate that is at least as fast as every available
      one and strictly faster than every available one before it is the one chosen. */
  lemma FastestIsBest(pool: seq<Candidate>, avail: map<string, int>, week: int, b: nat)
    requires PositiveWeeks(pool) && b < |pool| && AvailableAt(pool[b], avail, week)
    requires forall i :: 0 <= i < |pool| && AvailableAt(pool[i], avail, week) ==>
               AtLeast(pool[b].velocity, pool[i].velocity)
    requires forall i :: 0 <= i < b && AvailableAt(pool[i], avail, week) ==>
               Faster(pool[b].velocity, pool[i].velocity)
    ensures b == BestCandidate(pool, avail, week)
  {
    BestUpToAvailable(pool, avail, week, |pool|);
    BestUpToFastest(pool, avail, week, |pool|);
  }

  /** Lines 160-167. */
  method FindBestCandidate(pool: seq<Candidate>, avail: map<string, int>, week: int) returns (bestIdx: int)
    ensures bestIdx == BestCandidate(pool, avail, week)
  {
    bestIdx := -1;
    for i := 0 to |pool|
      invariant bestIdx == BestUpTo(pool, avail, week, i)
    {
      if !AvailableAt(pool[i], avail, week) {
        continue;
      }
      if bestIdx == -1 || Faster(pool[i].velocity, pool[bestIdx].velocity) {
        bestIdx := i;
      }
    }
  }

  /** With the pool sorted by velocity, the choice is simply the first available
      candidate in pool order. */
  lemma BestIsFirstAvailable(pool: seq<Candidate>, avail: map<string, int>, week: int)
    requires PositiveWeeks(pool) && SortedByVelocity(pool)
    ensures var b := BestCandidate(pool, avail, week);
            b >= 0 ==> forall i :: 0 <= i < b ==> !AvailableAt(pool[i], avail, week)
  {
    BestUpToAvailable(pool, avail, week, |pool|);
    BestUpToFastest(pool, avail, week, |pool|);
    var b := BestCandidate(pool, avail, week);
    if b >= 0 {
      forall i | 0 <= i < b ensures !AvailableAt(pool[i], avail, week) {
        assert AtLeast(pool[i].velocity, pool[b].velocity);
      }
    }
  }

  /** The scan at lines 171-179 after the first `n` candidates: the smallest
      next-available week strictly after `week`, capped at 521, with the bank of the
      first candidate reaching it, or "" when none lies ahead. */
  function NextUpTo(pool: seq<Candidate>, avail: map<string, int>, week: int, n: nat): (r: (int, string))
    requires n <= |pool| && week <= MAX_WEEKS
    ensures week < r.0 <= UNAVAILABLE
  {
    if n == 0 then (UNAVAILABLE, "")
    else
      var r := NextUpTo(pool, avail, week, n - 1);
      var a := AvailOf(avail, pool[n - 1].offer.id);
      if a > week && a < r.0 then (a, pool[n - 1].offer.bankName) else r
  }

  /** The week an idle slot waits for, and the bank it waits for. */
  function NextAvailability(pool: seq<Candidate>, avail: map<string, int>, week: int): (r: (int, string))
    requires week <= MAX_WEEKS
    ensures week < r.0 <= UNAVAILABLE
  {
    NextUpTo(pool, avail, week, |pool|)
  }

  /** The week found is the earliest availability after `week` (or 521), and the bank
      is that of the first candidate available then. */
  lemma {:induction false} NextUpToIsEarliest(pool: seq<Candidate>, avail: map<string, int>, week: int, n: nat)
    requires n <= |pool| && week <= MAX_WEEKS
    ensures var r := NextUpTo(pool, avail, week, n);
            && (forall i :: 0 <= i < n && AvailOf(avail, pool[i].offer.id) > week ==>
                  r.0 <= AvailOf(avail, pool[i].offer.id))
            && (r.0 < UNAVAILABLE ==>
                  exists i :: 0 <= i < n && AvailOf(avail, pool[i].offer.id) == r.0
                    && r.1 == pool[i].offer.bankName
                    && forall j :: 0 <= j < i && AvailOf(avail, pool[j].offer.id) > week ==>
                         AvailOf(avail, pool[j].offer.id) > r.0)
            && (r.0 == UNAVAILABLE ==> r.1 == "")
  {
    if n > 0 {
      NextUpToIsEarliest(pool, avail, week, n - 1);
    }
  }

  /** Lines 171-179. */
  method FindNextAvailability(pool: seq<Candidate>, avail: map<string, int>, week: int)
    returns (nextWeek: int, bankName: string)
    requires week <= MAX_WEEKS
    ensures (nextWeek, bankName) == NextAvailability(pool, avail, week)
  {
    nextWeek := UNAVAILABLE;
    bankName := "";
    for i := 0 to |pool|
      invariant (nextWeek, bankName) == NextUpTo(pool, avail, week, i)
    {
      var a := AvailOf(avail, pool[i].offer.id);
      if a > week && a < nextWeek {
        nextWeek := a;
        bankName := pool[i].offer.bankName;
      }
    }
  }
  // ---- the loop's state and what it keeps ------------------------------------

  /** Every slot's entries form its chain and its next-free week is where the chain ends. */
  ghost predicate Shape(entries: seq<seq<SlotEntry>>, slotNext: seq<int>, slots: nat)
  {
    && |entries| == slots && |slotNext| == slots
    && forall s :: 0 <= s < slots ==> Contiguous(entries[s], s) && slotNext[s] == NextFree(entries[s])
  }

  /** Every placement is a pool candidate's offer with that candidate's weeks. */
  ghost predicate PlacedFromPool(entries: seq<seq<SlotEntry>>, pool: seq<Candidate>)
  {
    forall s, k :: 0 <= s < |entries| && 0 <= k < |entries[s]| && entries[s][k].Bonus? ==>
      MakeCandidate(entries[s][k].offer, entries[s][k].weeksToComplete) in pool
  }

  /** Every candidate sharing this id is a lifetime offer. */
  ghost predicate LifetimeOnly(pool: seq<Candidate>, id: string)
  {
    id in LifetimeIds(pool) && id !in ChurnableIds(pool)
  }

  /** Every candidate sharing this id has a cooldown. */
  ghost predicate ChurnableOnly(pool: seq<Candidate>, id: string)
  {
    id in ChurnableIds(pool) && id !in LifetimeIds(pool)
  }

  /** An id the history rules out for the whole run: an account is still open, or a
      lifetime offer was already used. */
  ghost predicate Blocked(pool: seq<Candidate>, records: seq<CompletedBonus>, id: string)
  {
    id in Ids(pool) && (HasOpenRecord(records, id) || (HasRecord(records, id) && LifetimeOnly(pool, id)))
  }

  /** What the availability and cycle maps guarantee about the placements so far:
      nothing outside the pool is placed, blocked ids stay unavailable and unplaced, a
      lifetime offer is placed at most once and is unavailable afterwards, and a
      churnable offer uses each cycle number at most once, never one at or past its
      next cycle. */
  ghost predicate Tracked(entries: seq<seq<SlotEntry>>, avail: map<string, int>, cyc: map<string, int>,
                          pool: seq<Candidate>, records: seq<CompletedBonus>)
  {
    && (forall id :: id in cyc ==> cyc[id] >= 1)
    && (forall id :: id !in Ids(pool) ==> CountId(entries, id) == 0)
    && (forall id :: Blocked(pool, records, id) ==> AvailOf(avail, id) == UNAVAILABLE && CountId(entries, id) == 0)
    && (forall id :: LifetimeOnly(pool, id) ==>
          CountId(entries, id) <= 1 && (CountId(entries, id) == 1 ==> AvailOf(avail, id) == UNAVAILABLE))
    && (forall id, c :: ChurnableOnly(pool, id) ==>
          CountKey(entries, id, c) <= 1 && (c >= CycleOf(cyc, id) ==> CountKey(entries, id, c) == 0))
  }

  /** Lexicographic second component: how far the slots are, in total, from week 521. */
  function Distance(slotNext: seq<int>): nat
  {
    if slotNext == [] then 0
    else
      var x := slotNext[|slotNext| - 1];
      Distance(slotNext[..|slotNext| - 1]) + (if x < UNAVAILABLE then UNAVAILABLE - x else 0)
  }

  /** Moving one slot strictly forward while it stays before week 521 shrinks the distance. */
  lemma {:induction false} DistanceDrops(slotNext: seq<int>, s: nat, v: int)
    requires s < |slotNext| && slotNext[s] < v <= UNAVAILABLE
    ensures Distance(slotNext[s := v]) < Distance(slotNext)
  {
    var n := |slotNext|;
    var t := slotNext[s := v];
    if s == n - 1 {
      assert t[..n - 1] == slotNext[..n - 1];
    } else {
      DistanceDrops(slotNext[..n - 1], s, v);
      assert t[..n - 1] == slotNext[..n - 1][s := v];
    }
  }

  /** Appending an entry that starts where the slot is free keeps the slot's chain. */
  lemma ContiguousAppend(es: seq<SlotEntry>, slot: nat, e: SlotEntry)
    requires Contiguous(es, slot) && e.slot == slot && WellShaped(e) && e.startWeek == NextFree(es)
    ensures Contiguous(es + [e], slot) && NextFree(es + [e]) == e.endWeek + 1
  {
  }

  lemma ShapeInitially(entries: seq<seq<SlotEntry>>, slotNext: seq<int>, slots: nat)
    requires |entries| == slots && |slotNext| == slots
    requires forall s :: 0 <= s < slots ==> entries[s] == [] && slotNext[s] == 1
    ensures Shape(entries, slotNext, slots)
  {
  }

  lemma ShapeAppend(entries: seq<seq<SlotEntry>>, slotNext: seq<int>, slots: nat, s: nat, e: SlotEntry)
    requires Shape(entries, slotNext, slots) && s < slots
    requires e.slot == s && WellShaped(e) && e.startWeek == slotNext[s]
    ensures Shape(entries[s := entries[s] + [e]], slotNext[s := e.endWeek + 1], slots)
  {
    ContiguousAppend(entries[s], s, e);
  }

  /** How the counts change when one entry is appended to one slot. */
  lemma CountsAfterAppend(entries: seq<seq<SlotEntry>>, entries': seq<seq<SlotEntry>>, s: nat, e: SlotEntry)
    requires s < |entries| && entries' == entries[s := entries[s] + [e]]
    ensures PlacementCount(entries') == PlacementCount(entries) + (if e.Bonus? then 1 else 0)
    ensures forall id :: CountId(entries', id) == CountId(entries, id) + (if e.Bonus? && e.offer.id == id then 1 else 0)
    ensures forall id, c :: CountKey(entries', id, c) ==
              CountKey(entries, id, c) + (if e.Bonus? && e.offer.id == id && e.cycle == c then 1 else 0)
  {
    WeightAppend(entries, s, e, IsBonusWeight());
    forall id ensures CountId(entries', id) == CountId(entries, id) + (if e.Bonus? && e.offer.id == id then 1 else 0) {
      WeightAppend(entries, s, e, IdWeight(id));
    }
    forall id, c ensures CountKey(entries', id, c) ==
                         CountKey(entries, id, c) + (if e.Bonus? && e.offer.id == id && e.cycle == c then 1 else 0) {
      WeightAppend(entries, s, e, KeyWeight(id, c));
    }
  }

  /** A placeholder changes no count, so every tracked fact survives it. */
  lemma TrackedAfterPlaceholder(entries: seq<seq<SlotEntry>>, entries': seq<seq<SlotEntry>>, s: nat, e: SlotEntry,
                                avail: map<string, int>, cyc: map<string, int>,
                                pool: seq<Candidate>, records: seq<CompletedBonus>)
    requires s < |entries| && entries' == entries[s := entries[s] + [e]] && e.Placeholder?
    requires Tracked(entries, avail, cyc, pool, records) && PlacedFromPool(entries, pool)
    ensures Tracked(entries', avail, cyc, pool, records) && PlacedFromPool(entries', pool)
    ensures PlacementCount(entries') == PlacementCount(entries)
  {
    CountsAfterAppend(entries, entries', s, e);
    forall t, k | 0 <= t < |entries'| && 0 <= k < |entries'[t]| && entries'[t][k].Bonus?
      ensures MakeCandidate(entries'[t][k].offer, entries'[t][k].weeksToComplete) in pool
    {
      if t != s || k < |entries[s]| { assert entries'[t][k] == entries[t][k]; }
    }
  }

  /** A placement of candidate `c`, available by `week`, followed by the update at
      lines 227-232, keeps every tracked fact. */
  lemma TrackedAfterPlacement(entries: seq<seq<SlotEntry>>, entries': seq<seq<SlotEntry>>, s: nat, e: SlotEntry,
                              avail: map<string, int>, cyc: map<string, int>,
                              avail': map<string, int>, cyc': map<string, int>,
                              pool: seq<Candidate>, records: seq<CompletedBonus>, c: Candidate, week: int)
    requires s < |entries| && entries' == entries[s := entries[s] + [e]]
    requires Tracked(entries, avail, cyc, pool, records) && PlacedFromPool(entries, pool)
    requires c in pool && c == MakeCandidate(c.offer, c.weeksToComplete)
    requires AvailOf(avail, c.offer.id) <= week <= MAX_WEEKS
    requires e.Bonus? && e.offer == c.offer && e.weeksToComplete == c.weeksToComplete
    requires e.cycle == CycleOf(cyc, c.offer.id)
    requires avail' == avail[c.offer.id := if c.isLifetime then UNAVAILABLE else e.payoutWeek + c.cooldownWeeks]
    requires cyc' == if c.isLifetime then cyc else cyc[c.offer.id := e.cycle + 1]
    ensures Tracked(entries', avail', cyc', pool, records) && PlacedFromPool(entries', pool)
    ensures PlacementCount(entries') == PlacementCount(entries) + 1
  {
    var id := c.offer.id;
    CountsAfterAppend(entries, entries', s, e);
    assert id in Ids(pool);
    assert c.isLifetime ==> id in LifetimeIds(pool);
    assert !c.isLifetime ==> id in ChurnableIds(pool);
    assert !Blocked(pool, records, id);
    forall t, k | 0 <= t < |entries'| && 0 <= k < |entries'[t]| && entries'[t][k].Bonus?
      ensures MakeCandidate(entries'[t][k].offer, entries'[t][k].weeksToComplete) in pool
    {
      if t != s || k < |entries[s]| { assert entries'[t][k] == entries[t][k]; }
    }
    forall x | x in cyc' ensures cyc'[x] >= 1 {
      if x != id || c.isLifetime { assert x in cyc && cyc'[x] == cyc[x]; }
    }
    forall x, n | ChurnableOnly(pool, x)
      ensures CountKey(entries', x, n) <= 1 && (n >= CycleOf(cyc', x) ==> CountKey(entries', x, n) == 0)
    {
      if x == id {
        assert !c.isLifetime;
        assert CountKey(entries, x, e.cycle) == 0;
      }
    }
  }

  /** Every pool member is the candidate its offer and weeks determine, with at least
      one week; so its velocity has a positive denominator. */
  ghost predicate ReadyPool(pool: seq<Candidate>)
  {
    forall c :: c in pool ==> c == MakeCandidate(c.offer, c.weeksToComplete) && c.weeksToComplete >= 1
  }

  lemma ReadyPoolPositive(pool: seq<Candidate>)
    requires ReadyPool(pool)
    ensures PositiveWeeks(pool) && AllConsistent(pool)
  {
    forall c | c in pool ensures c.velocity.den > 0 && ConsistentCandidate(c) {
      assert c == MakeCandidate(c.offer, c.weeksToComplete);
    }
  }

  /** The sorted pool holds exactly the evaluated catalog offers, each ready to schedule. */
  lemma SortedPoolFacts(catalog: seq<Offer>, f: PayFrequency, paycheck: nat)
    ensures forall c :: c in SortByVelocity(PoolOf(catalog, f, paycheck)) <==> c in PoolOf(catalog, f, paycheck)
    ensures ReadyPool(SortByVelocity(PoolOf(catalog, f, paycheck)))
    ensures SortedByVelocity(SortByVelocity(PoolOf(catalog, f, paycheck)))
  {
    var pool0 := PoolOf(catalog, f, paycheck);
    var pool := SortByVelocity(pool0);
    PoolPartition(catalog, f, paycheck);
    assert forall c :: c in pool <==> c in multiset(pool0);
    forall c | c in pool0 ensures c.weeksToComplete >= 1 && c.velocity.den > 0 {
      assert GoodCandidate(c, f, paycheck);
      var r := Evaluate(c.offer, f, paycheck);
      assert r == Feasible(c.weeksToComplete);
    }
    SortByVelocitySorted(pool0);
  }

  /** Lines 196-234 as one step on the loop's state: the entry placed for candidate
      `pool[i]` in slot `s` at its free week, and the map updates after it. */
  lemma PlacementStep(entries: seq<seq<SlotEntry>>, slotNext: seq<int>, slots: nat, s: nat,
                      avail: map<string, int>, cyc: map<string, int>,
                      avail': map<string, int>, cyc': map<string, int>,
                      pool: seq<Candidate>, records: seq<CompletedBonus>, i: nat, e: SlotEntry)
    requires Shape(entries, slotNext, slots) && s < slots && slotNext[s] <= MAX_WEEKS
    requires ReadyPool(pool) && i < |pool|
    requires AvailableAt(pool[i], avail, slotNext[s])
    requires Tracked(entries, avail, cyc, pool, records) && PlacedFromPool(entries, pool)
    requires e == PlacementFor(pool[i], s, slotNext[s], CycleOf(cyc, pool[i].offer.id))
    requires avail' == avail[pool[i].offer.id := if pool[i].isLifetime then UNAVAILABLE else e.payoutWeek + pool[i].cooldownWeeks]
    requires cyc' == if pool[i].isLifetime then cyc else cyc[pool[i].offer.id := e.cycle + 1]
    ensures Shape(entries[s := entries[s] + [e]], slotNext[s := slotNext[s] + pool[i].weeksToComplete], slots)
    ensures Tracked(entries[s := entries[s] + [e]], avail', cyc', pool, records)
    ensures PlacedFromPool(entries[s := entries[s] + [e]], pool)
    ensures PlacementCount(entries[s := entries[s] + [e]]) == PlacementCount(entries) + 1
  {
    var c := pool[i];
    assert c in pool;
    var id := c.offer.id;
    if id in cyc { assert cyc[id] >= 1; }
    assert WellShaped(e);
    ShapeAppend(entries, slotNext, slots, s, e);
    TrackedAfterPlacement(entries, entries[s := entries[s] + [e]], s, e, avail, cyc, avail', cyc', pool, records, c, slotNext[s]);
  }

  lemma {:induction false} WeightOfEmptySlots(ss: seq<seq<SlotEntry>>, w: SlotEntry -> nat)
    requires forall s :: 0 <= s < |ss| ==> ss[s] == []
    ensures Weight(ss, w) == 0
  {
    if ss != [] {
      WeightOfEmptySlots(ss[..|ss| - 1], w);
    }
  }

  /** After seeding, with every slot still empty, every tracked fact holds. */
  lemma TrackedInitially(entries: seq<seq<SlotEntry>>, avail: map<string, int>, cyc: map<string, int>,
                         pool: seq<Candidate>, records: seq<CompletedBonus>, today: Day, addMonths: AddMonths)
    requires forall s :: 0 <= s < |entries| ==> entries[s] == []
    requires AllConsistent(pool) && Tracking(avail, cyc) == Seeded(pool, records, today, addMonths)
    ensures Tracked(entries, avail, cyc, pool, records) && PlacedFromPool(entries, pool)
    ensures PlacementCount(entries) == 0
  {
    WeightOfEmptySlots(entries, IsBonusWeight());
    forall id ensures CountId(entries, id) == 0 { WeightOfEmptySlots(entries, IdWeight(id)); }
    forall id, c ensures CountKey(entries, id, c) == 0 { WeightOfEmptySlots(entries, KeyWeight(id, c)); }
    forall id | id in cyc ensures cyc[id] >= 1 {
      SeededFacts(pool, records, today, addMonths, id);
    }
    forall id | Blocked(pool, records, id) ensures AvailOf(avail, id) == UNAVAILABLE {
      SeededFacts(pool, records, today, addMonths, id);
      if !HasOpenRecord(records, id) {
        assert id !in ChurnableIds(pool);
      }
    }
  }

  /** The entry placed for candidate `c` in slot `s` when the slot frees at `week`
      (lines 198-222). */
  function PlacementFor(c: Candidate, s: nat, week: int, cycle: int): (e: SlotEntry)
    ensures e.Bonus? && e.offer == c.offer && e.slot == s && e.startWeek == week
    ensures e.endWeek - e.startWeek + 1 == c.weeksToComplete
  {
    Bonus(c.offer, c.weeksToComplete, c.velocity, s, week, week + c.weeksToComplete - 1,
          week + PayoutWeeks(c.offer, c.weeksToComplete) - 1, cycle)
  }

  /** Every slot empty. */
  function NoEntries(slots: nat): (ss: seq<seq<SlotEntry>>)
    ensures |ss| == slots && forall s :: 0 <= s < slots ==> ss[s] == []
  {
    seq(slots, _ => [])
  }

  // ---- the loop as a function of its state -------------------------------------

  /** The loop's working state: each slot's entries (`slotBonuses`) and next-free week
      (`slotNextAvailable`), the two per-offer maps, and the placements made so far. */
  datatype LoopState = LoopState(entries: seq<seq<SlotEntry>>, slotNext: seq<int>,
                                 avail: map<string, int>, cyc: map<string, int>, placements: nat)

  /** A state of at least one slot, with as many entry lists as next-free weeks. */
  predicate Sized(st: LoopState)
  {
    |st.slotNext| >= 1 && |st.entries| == |st.slotNext|
  }

  /** Lines 141-146: every slot empty and free from week 1, nothing placed yet. */
  function Initial(slots: nat, avail: map<string, int>, cyc: map<string, int>): LoopState
  {
    LoopState(NoEntries(slots), seq(slots, _ => 1), avail, cyc, 0)
  }

  /** Lines 182-193 on the state: slot `s` idles from its free week up to `nextWeek`. */
  function Idled(st: LoopState, s: nat, nextWeek: int, bankName: string): LoopState
    requires s < |st.entries| && s < |st.slotNext|
  {
    var ph := Placeholder(s, st.slotNext[s], nextWeek - 1, bankName, nextWeek);
    st.(entries := st.entries[s := st.entries[s] + [ph]], slotNext := st.slotNext[s := nextWeek])
  }

  /** Lines 196-234 on the state: candidate `pool[i]` is placed in slot `s` at its free
      week; a lifetime offer becomes unavailable for good, a churnable one cools down
      from its payout week and moves to its next cycle. */
  function Placed(pool: seq<Candidate>, st: LoopState, s: nat, i: nat): LoopState
    requires s < |st.entries| && s < |st.slotNext| && i < |pool|
  {
    var c := pool[i];
    var e := PlacementFor(c, s, st.slotNext[s], CycleOf(st.cyc, c.offer.id));
    LoopState(st.entries[s := st.entries[s] + [e]],
              st.slotNext[s := st.slotNext[s] + c.weeksToComplete],
              st.avail[c.offer.id := if c.isLifetime then UNAVAILABLE else e.payoutWeek + c.cooldownWeeks],
              if c.isLifetime then st.cyc else st.cyc[c.offer.id := e.cycle + 1],
              st.placements + 1)
  }

  /** One round of the loop body (lines 150-234): `None` when it breaks, at line 157
      (the earliest slot is past the horizon) or line 180 (nothing becomes available
      within it). Each round either places one more bonus or moves a slot strictly
      forward within the horizon, which is why the loop ends. */
  function Round(pool: seq<Candidate>, st: LoopState): (r: Option<LoopState>)
    requires Sized(st)
    ensures r.Some? ==> Sized(r.value) && |r.value.entries| == |st.entries|
    ensures r.Some? ==>
              || r.value.placements == st.placements + 1
              || (r.value.placements == st.placements && Distance(r.value.slotNext) < Distance(st.slotNext))
  {
    var s := EarliestSlot(st.slotNext);
    var week := st.slotNext[s];
    if week > MAX_WEEKS then None
    else
      var i := BestCandidate(pool, st.avail, week);
      if i == -1 then
        var (nextWeek, bankName) := NextAvailability(pool, st.avail, week);
        if nextWeek > MAX_WEEKS then None
        else
          DistanceDrops(st.slotNext, s, nextWeek);
          Some(Idled(st, s, nextWeek, bankName))
      else Some(Placed(pool, st, s, i))
  }

  /** The whole loop from a state: rounds until 200 placements are made or a round
      breaks. */
  function Run(pool: seq<Candidate>, st: LoopState): (r: LoopState)
    requires Sized(st)
    ensures Sized(r) && |r.entries| == |st.entries|
    decreases MAX_PLACEMENTS - st.placements, Distance(st.slotNext)
  {
    if st.placements >= MAX_PLACEMENTS then st
    else
      match Round(pool, st)
      case None => st
      case Some(next) => Run(pool, next)
  }

  /** A round that finds no candidate for the earliest slot, but one becoming available
      within the horizon, idles that slot. */
  lemma RoundIdles(pool: seq<Candidate>, st: LoopState, s: nat, nextWeek: int, bankName: string)
    requires Sized(st) && s == EarliestSlot(st.slotNext) && st.slotNext[s] <= MAX_WEEKS
    requires BestCandidate(pool, st.avail, st.slotNext[s]) == -1
    requires (nextWeek, bankName) == NextAvailability(pool, st.avail, st.slotNext[s]) && nextWeek <= MAX_WEEKS
    ensures Round(pool, st) == Some(Idled(st, s, nextWeek, bankName))
  {
  }

  /** A round that finds a candidate for the earliest slot places it there. */
  lemma RoundPlaces(pool: seq<Candidate>, st: LoopState, s: nat, i: int)
    requires Sized(st) && s == EarliestSlot(st.slotNext) && st.slotNext[s] <= MAX_WEEKS
    requires i == BestCandidate(pool, st.avail, st.slotNext[s]) && i >= 0
    ensures Round(pool, st) == Some(Placed(pool, st, s, i))
  {
  }

  /** A round that does not break hands the rest of the loop to the next state. */
  lemma RunAdvances(pool: seq<Candidate>, st: LoopState, next: LoopState)
    requires Sized(st) && st.placements < MAX_PLACEMENTS && Round(pool, st) == Some(next)
    ensures Run(pool, st) == Run(pool, next)
  {
  }

  /** Where the loop stops: 200 placements made, every slot past week 520, or no
      candidate available again within week 520. */
  predicate Stopped(pool: seq<Candidate>, st: LoopState)
  {
    || st.placements >= MAX_PLACEMENTS
    || (forall s :: 0 <= s < |st.slotNext| ==> st.slotNext[s] > MAX_WEEKS)
    || (forall i :: 0 <= i < |pool| ==> AvailOf(st.avail, pool[i].offer.id) > MAX_WEEKS)
  }

  /** A round breaks exactly when every slot is past the horizon or no candidate
      becomes available within it. */
  lemma RoundBreaks(pool: seq<Candidate>, st: LoopState)
    requires Sized(st)
    ensures Round(pool, st).None? <==>
              || (forall s :: 0 <= s < |st.slotNext| ==> st.slotNext[s] > MAX_WEEKS)
              || (forall i :: 0 <= i < |pool| ==> AvailOf(st.avail, pool[i].offer.id) > MAX_WEEKS)
  {
    var s := EarliestSlot(st.slotNext);
    var week := st.slotNext[s];
    EarliestUpToIsFirstMinimum(st.slotNext, |st.slotNext|);
    BestUpToAvailable(pool, st.avail, week, |pool|);
    if week <= MAX_WEEKS {
      NextUpToIsEarliest(pool, st.avail, week, |pool|);
      if BestCandidate(pool, st.avail, week) >= 0 {
        var b := BestCandidate(pool, st.avail, week);
        assert AvailOf(st.avail, pool[b].offer.id) <= MAX_WEEKS;
      }
    }
  }

  /** The loop always ends in a stopping state. */
  lemma {:induction false} RunStops(pool: seq<Candidate>, st: LoopState)
    requires Sized(st)
    ensures Stopped(pool, Run(pool, st))
    decreases MAX_PLACEMENTS - st.placements, Distance(st.slotNext)
  {
    if st.placements < MAX_PLACEMENTS {
      RoundBreaks(pool, st);
      if Round(pool, st).Some? {
        RunStops(pool, Round(pool, st).value);
      }
    }
  }

  /** Entries are only ever appended: every slot's entries so far begin its final
      entries. */
  lemma {:induction false} RunOnlyAppends(pool: seq<Candidate>, st: LoopState)
    requires Sized(st)
    ensures forall s :: 0 <= s < |st.entries| ==> st.entries[s] <= Run(pool, st).entries[s]
    decreases MAX_PLACEMENTS - st.placements, Distance(st.slotNext)
  {
    if st.placements < MAX_PLACEMENTS && Round(pool, st).Some? {
      var next := Round(pool, st).value;
      RunOnlyAppends(pool, next);
      forall s | 0 <= s < |st.entries| ensures st.entries[s] <= next.entries[s] {
        var t := EarliestSlot(st.slotNext);
        if s == t {
          assert next.entries[s][..|st.entries[s]|] == st.entries[s];
        }
      }
    }
  }

  /** What the loop keeps: every slot a chain ending at its next-free week, the
      placement counter, and the tracked facts about the maps. */
  ghost predicate Kept(st: LoopState, slots: nat, pool: seq<Candidate>, records: seq<CompletedBonus>)
  {
    && Shape(st.entries, st.slotNext, slots)
    && st.placements == PlacementCount(st.entries) <= MAX_PLACEMENTS
    && Tracked(st.entries, st.avail, st.cyc, pool, records) && PlacedFromPool(st.entries, pool)
  }

  /** An idle step keeps the loop's invariant. */
  lemma IdleKeeps(pool: seq<Candidate>, records: seq<CompletedBonus>, st: LoopState, slots: nat,
                  s: nat, nextWeek: int, bankName: string)
    requires Sized(st) && Kept(st, slots, pool, records) && s < |st.slotNext|
    requires st.slotNext[s] < nextWeek <= MAX_WEEKS
    ensures Kept(Idled(st, s, nextWeek, bankName), slots, pool, records)
  {
    var ph := Placeholder(s, st.slotNext[s], nextWeek - 1, bankName, nextWeek);
    ShapeAppend(st.entries, st.slotNext, slots, s, ph);
    TrackedAfterPlaceholder(st.entries, st.entries[s := st.entries[s] + [ph]], s, ph, st.avail, st.cyc, pool, records);
  }

  /** A placement of an available candidate keeps the loop's invariant. */
  lemma PlacedKeeps(pool: seq<Candidate>, records: seq<CompletedBonus>, st: LoopState, slots: nat, s: nat, i: nat)
    requires ReadyPool(pool) && Sized(st) && Kept(st, slots, pool, records) && st.placements < MAX_PLACEMENTS
    requires s < |st.slotNext| && st.slotNext[s] <= MAX_WEEKS
    requires i < |pool| && AvailableAt(pool[i], st.avail, st.slotNext[s])
    ensures Kept(Placed(pool, st, s, i), slots, pool, records)
  {
    var next := Placed(pool, st, s, i);
    var e := PlacementFor(pool[i], s, st.slotNext[s], CycleOf(st.cyc, pool[i].offer.id));
    assert next.entries == st.entries[s := st.entries[s] + [e]];
    assert next.slotNext == st.slotNext[s := st.slotNext[s] + pool[i].weeksToComplete];
    PlacementStep(st.entries, st.slotNext, slots, s, st.avail, st.cyc, next.avail, next.cyc, pool, records, i, e);
    assert next.placements == PlacementCount(next.entries);
  }

  /** One round keeps the loop's invariant. */
  lemma RoundKeeps(pool: seq<Candidate>, records: seq<CompletedBonus>, st: LoopState, slots: nat)
    requires ReadyPool(pool) && Sized(st) && Kept(st, slots, pool, records) && st.placements < MAX_PLACEMENTS
    ensures Round(pool, st).Some? ==> Kept(Round(pool, st).value, slots, pool, records)
  {
    var s := EarliestSlot(st.slotNext);
    var week := st.slotNext[s];
    if week <= MAX_WEEKS {
      var i := BestCandidate(pool, st.avail, week);
      if i == -1 {
        var (nextWeek, bankName) := NextAvailability(pool, st.avail, week);
        if nextWeek <= MAX_WEEKS {
          RoundIdles(pool, st, s, nextWeek, bankName);
          IdleKeeps(pool, records, st, slots, s, nextWeek, bankName);
        }
      } else {
        BestUpToAvailable(pool, st.avail, week, |pool|);
        RoundPlaces(pool, st, s, i);
        PlacedKeeps(pool, records, st, slots, s, i);
      }
    }
  }

  /** The whole loop keeps it. */
  lemma {:induction false} RunKeeps(pool: seq<Candidate>, records: seq<CompletedBonus>, st: LoopState, slots: nat)
    requires ReadyPool(pool) && Sized(st) && Kept(st, slots, pool, records)
    ensures Kept(Run(pool, st), slots, pool, records)
    decreases MAX_PLACEMENTS - st.placements, Distance(st.slotNext)
  {
    if st.placements < MAX_PLACEMENTS {
      RoundKeeps(pool, records, st, slots);
      if Round(pool, st).Some? {
        RunKeeps(pool, records, Round(pool, st).value, slots);
      }
    }
  }

  // ---- the loop in place -------------------------------------------------------

  /** Lines 182-193: idle slot `s` from its free week up to `nextWeek`. `st` names the
      state before the step. */
  method PlaceIdle(entries: array<seq<SlotEntry>>, slotNext: array<int>, s: nat,
                   nextWeek: int, bankName: string, ghost st: LoopState)
    requires s < entries.Length && s < slotNext.Length
    requires entries[..] == st.entries && slotNext[..] == st.slotNext
    modifies entries, slotNext
    ensures LoopState(entries[..], slotNext[..], st.avail, st.cyc, st.placements) == Idled(st, s, nextWeek, bankName)
  {
    entries[s] := entries[s] + [Placeholder(s, slotNext[s], nextWeek - 1, bankName, nextWeek)];
    slotNext[s] := nextWeek;
  }

  /** Lines 196-234: place candidate `pool[i]` in slot `s` at its free week and update
      the candidate's availability and cycle. `st` names the state before the step. */
  method PlaceBonus(entries: array<seq<SlotEntry>>, slotNext: array<int>, s: nat,
                    avail: map<string, int>, cyc: map<string, int>, pool: seq<Candidate>, i: nat,
                    ghost st: LoopState)
    returns (avail': map<string, int>, cyc': map<string, int>)
    requires s < entries.Length && s < slotNext.Length && i < |pool|
    requires entries[..] == st.entries && slotNext[..] == st.slotNext && avail == st.avail && cyc == st.cyc
    modifies entries, slotNext
    ensures LoopState(entries[..], slotNext[..], avail', cyc', st.placements + 1) == Placed(pool, st, s, i)
  {
    var eb := pool[i];
    var b := eb.offer;
    var startWeek := slotNext[s];
    var cycle := CycleOf(cyc, b.id);
    var e := PlacementFor(eb, s, startWeek, cycle);
    entries[s] := entries[s] + [e];
    slotNext[s] := startWeek + eb.weeksToComplete;
    if eb.isLifetime {
      avail', cyc' := avail[b.id := UNAVAILABLE], cyc;
    } else {
      avail', cyc' := avail[b.id := e.payoutWeek + eb.cooldownWeeks], cyc[b.id := cycle + 1];
    }
  }

  /** Lines 146-235: the bounded greedy loop filling the slots, from the seeded maps. */
  method FillSlots(slots: nat, pool: seq<Candidate>, availSeed: map<string, int>, cycSeed: map<string, int>)
    returns (finalSlots: seq<seq<SlotEntry>>)
    requires slots >= 1
    ensures finalSlots == Run(pool, Initial(slots, availSeed, cycSeed)).entries
    ensures Stopped(pool, Run(pool, Initial(slots, availSeed, cycSeed)))
  {
    var avail, cyc := availSeed, cycSeed;
    var slotNext := new int[slots](_ => 1);
    var entries := new seq<SlotEntry>[slots](_ => []);
    var placements := 0;
    ghost var start := Initial(slots, availSeed, cycSeed);
    ghost var cur := start;
    assert LoopState(entries[..], slotNext[..], avail, cyc, placements) == start;

    while placements < MAX_PLACEMENTS
      invariant cur == LoopState(entries[..], slotNext[..], avail, cyc, placements)
      invariant Sized(cur) && Run(pool, cur) == Run(pool, start)
      decreases MAX_PLACEMENTS - cur.placements, Distance(cur.slotNext)
    {
      var bestSlot := FindEarliestSlot(slotNext);
      var slotAvail := slotNext[bestSlot];
      if slotAvail > MAX_WEEKS {
        assert Round(pool, cur).None?;
        break;
      }
      var bestIdx := FindBestCandidate(pool, avail, slotAvail);
      if bestIdx == -1 {
        var nextWeek, bankName := FindNextAvailability(pool, avail, slotAvail);
        if nextWeek > MAX_WEEKS {
          assert Round(pool, cur).None?;
          break;
        }
        RoundIdles(pool, cur, bestSlot, nextWeek, bankName);
        RunAdvances(pool, cur, Idled(cur, bestSlot, nextWeek, bankName));
        PlaceIdle(entries, slotNext, bestSlot, nextWeek, bankName, cur);
        cur := Idled(cur, bestSlot, nextWeek, bankName);
        continue;
      }
      RoundPlaces(pool, cur, bestSlot, bestIdx);
      RunAdvances(pool, cur, Placed(pool, cur, bestSlot, bestIdx));
      avail, cyc := PlaceBonus(entries, slotNext, bestSlot, avail, cyc, pool, bestIdx, cur);
      placements := placements + 1;
      cur := Placed(pool, cur, bestSlot, bestIdx);
    }
    finalSlots := entries[..];
    RunStops(pool, start);
  }

  /** What `runSequencer` computes: the sorted pool, seeded from history, run through
      the loop. */
  function Sequence(slots: nat, freq: PayFrequency, paycheck: nat, catalog: seq<Offer>,
                    records: seq<CompletedBonus>, today: Day, addMonths: AddMonths): seq<seq<SlotEntry>>
    requires slots >= 1
  {
    var pool := SortByVelocity(PoolOf(catalog, freq, paycheck));
    SortedPoolFacts(catalog, freq, paycheck);
    ReadyPoolPositive(pool);
    var seeded := Seeded(pool, records, today, addMonths);
    Run(pool, Initial(slots, seeded.nextAvailable, seeded.cycle)).entries
  }

  /** `runSequencer` (lines 84-242). The catalog, the completion history, today's day
      number and the calendar's month arithmetic are inputs. */
  method RunSequencer(slots: nat, freq: PayFrequency, paycheck: nat, catalog: seq<Offer>,
                      records: seq<CompletedBonus>, today: Day, addMonths: AddMonths)
    returns (result: SequencerResult)
    requires slots >= 1
    // the schedule the greedy rounds build
    ensures result.slots == Sequence(slots, freq, paycheck, catalog, records, today, addMonths)
    // one chain per slot, contiguous from week 1
    ensures |result.slots| == slots
    ensures forall s :: 0 <= s < slots ==> Contiguous(result.slots[s], s)
    // every placement is a feasible catalog offer with its evaluated weeks
    ensures forall s, k :: 0 <= s < slots && 0 <= k < |result.slots[s]| && result.slots[s][k].Bonus? ==>
              && result.slots[s][k].offer in catalog
              && Evaluate(result.slots[s][k].offer, freq, paycheck) == Feasible(result.slots[s][k].weeksToComplete)
    ensures PlacementCount(result.slots) <= MAX_PLACEMENTS
    ensures result.totalBonus == TotalBonus(result.slots)
    ensures result.horizonWeeks == HorizonWeeks(result.slots)
    ensures result.skipped == SkippedOf(catalog, freq, paycheck)
    // an offer with an open account is never scheduled
    ensures forall id :: HasOpenRecord(records, id) ==> CountId(result.slots, id) == 0
    // a lifetime offer is scheduled at most once, and never again once used
    ensures forall id :: (forall o :: o in catalog && o.id == id ==> o.cooldownMonths.None?) ==>
              CountId(result.slots, id) <= 1 && (HasRecord(records, id) ==> CountId(result.slots, id) == 0)
    // a churnable offer never repeats a cycle number, so its `id-cycle` keys are unique
    ensures forall id, n :: (forall o :: o in catalog && o.id == id ==> o.cooldownMonths.Some?) ==>
              CountKey(result.slots, id, n) <= 1
  {
    var pool0, skipped := BuildPool(catalog, freq, paycheck);
    var pool := SortByVelocity(pool0);
    SortedPoolFacts(catalog, freq, paycheck);
    ReadyPoolPositive(pool);
    var avail, cyc := SeedFromHistory(pool, records, today, addMonths);
    var finalSlots := FillSlots(slots, pool, avail, cyc);
    result := SequencerResult(finalSlots, TotalBonus(finalSlots), HorizonWeeks(finalSlots), skipped);
    ghost var start := Initial(slots, avail, cyc);
    LoopOutcome(pool, catalog, freq, paycheck, records, today, addMonths, start);
  }

  /** From the seeded start, the loop's invariant holds at its end and gives the
      guarantees `runSequencer` states. */
  lemma LoopOutcome(pool: seq<Candidate>, catalog: seq<Offer>, freq: PayFrequency, paycheck: nat,
                    records: seq<CompletedBonus>, today: Day, addMonths: AddMonths, start: LoopState)
    requires ReadyPool(pool) && AllConsistent(pool)
    requires forall c :: c in pool <==> c in PoolOf(catalog, freq, paycheck)
    requires Sized(start) && start.placements == 0 && start.slotNext == seq(|start.slotNext|, _ => 1)
    requires start.entries == NoEntries(|start.entries|)
    requires Tracking(start.avail, start.cyc) == Seeded(pool, records, today, addMonths)
    ensures var ss := Run(pool, start).entries;
            && (forall s :: 0 <= s < |ss| ==> Contiguous(ss[s], s))
            && PlacementCount(ss) <= MAX_PLACEMENTS
            && (forall s, k :: 0 <= s < |ss| && 0 <= k < |ss[s]| && ss[s][k].Bonus? ==>
                  && ss[s][k].offer in catalog
                  && Evaluate(ss[s][k].offer, freq, paycheck) == Feasible(ss[s][k].weeksToComplete))
            && (forall id :: HasOpenRecord(records, id) ==> CountId(ss, id) == 0)
            && (forall id :: (forall o :: o in catalog && o.id == id ==> o.cooldownMonths.None?) ==>
                  CountId(ss, id) <= 1 && (HasRecord(records, id) ==> CountId(ss, id) == 0))
            && (forall id, n :: (forall o :: o in catalog && o.id == id ==> o.cooldownMonths.Some?) ==>
                  CountKey(ss, id, n) <= 1)
  {
    var slots := |start.entries|;
    TrackedInitially(start.entries, start.avail, start.cyc, pool, records, today, addMonths);
    ShapeInitially(start.entries, start.slotNext, slots);
    RunKeeps(pool, records, start, slots);
    var fin := Run(pool, start);
    RunSequencerOutcome(fin.entries, slots, pool, catalog, freq, paycheck, records, fin.avail, fin.cyc);
  }

  lemma {:induction false} KeyCountBelowIdCount(ss: seq<seq<SlotEntry>>, id: string, n: int)
    ensures CountKey(ss, id, n) <= CountId(ss, id)
  {
    if ss != [] {
      KeyCountBelowIdCount(ss[..|ss| - 1], id, n);
      KeySeqBelowIdSeq(ss[|ss| - 1], id, n);
    }
  }

  lemma {:induction false} KeySeqBelowIdSeq(es: seq<SlotEntry>, id: string, n: int)
    ensures SeqWeight(es, KeyWeight(id, n)) <= SeqWeight(es, IdWeight(id))
  {
    if es != [] {
      KeySeqBelowIdSeq(es[..|es| - 1], id, n);
    }
  }

  /** The loop's invariants, read at exit, give the guarantees `runSequencer` states. */
  lemma RunSequencerOutcome(finalSlots: seq<seq<SlotEntry>>, slots: nat, pool: seq<Candidate>,
                            catalog: seq<Offer>, freq: PayFrequency, paycheck: nat,
                            records: seq<CompletedBonus>, avail: map<string, int>, cyc: map<string, int>)
    requires forall c :: c in pool <==> c in PoolOf(catalog, freq, paycheck)
    requires |finalSlots| == slots
    requires Tracked(finalSlots, avail, cyc, pool, records) && PlacedFromPool(finalSlots, pool)
    ensures forall s, k :: 0 <= s < slots && 0 <= k < |finalSlots[s]| && finalSlots[s][k].Bonus? ==>
              && finalSlots[s][k].offer in catalog
              && Evaluate(finalSlots[s][k].offer, freq, paycheck) == Feasible(finalSlots[s][k].weeksToComplete)
    ensures forall id :: HasOpenRecord(records, id) ==> CountId(finalSlots, id) == 0
    ensures forall id :: (forall o :: o in catalog && o.id == id ==> o.cooldownMonths.None?) ==>
              CountId(finalSlots, id) <= 1 && (HasRecord(records, id) ==> CountId(finalSlots, id) == 0)
    ensures forall id, n :: (forall o :: o in catalog && o.id == id ==> o.cooldownMonths.Some?) ==>
              CountKey(finalSlots, id, n) <= 1
  {
    PlacementsAreFeasible(finalSlots, pool, catalog, freq, paycheck);
    forall id | HasOpenRecord(records, id) ensures CountId(finalSlots, id) == 0 {
      if id in Ids(pool) { assert Blocked(pool, records, id); }
    }
    forall id | (forall o :: o in catalog && o.id == id ==> o.cooldownMonths.None?)
      ensures CountId(finalSlots, id) <= 1 && (HasRecord(records, id) ==> CountId(finalSlots, id) == 0)
    {
      CatalogKindIsPoolKind(pool, catalog, freq, paycheck, id);
    }
    forall id, n | (forall o :: o in catalog && o.id == id ==> o.cooldownMonths.Some?)
      ensures CountKey(finalSlots, id, n) <= 1
    {
      KeyCountBelowIdCount(finalSlots, id, n);
      CatalogKindIsPoolKind(pool, catalog, freq, paycheck, id);
    }
  }

  lemma PlacementsAreFeasible(finalSlots: seq<seq<SlotEntry>>, pool: seq<Candidate>,
                              catalog: seq<Offer>, freq: PayFrequency, paycheck: nat)
    requires forall c :: c in pool <==> c in PoolOf(catalog, freq, paycheck)
    requires PlacedFromPool(finalSlots, pool)
    ensures forall s, k :: 0 <= s < |finalSlots| && 0 <= k < |finalSlots[s]| && finalSlots[s][k].Bonus? ==>
              && finalSlots[s][k].offer in catalog
              && Evaluate(finalSlots[s][k].offer, freq, paycheck) == Feasible(finalSlots[s][k].weeksToComplete)
  {
    PoolPartition(catalog, freq, paycheck);
    forall s, k | 0 <= s < |finalSlots| && 0 <= k < |finalSlots[s]| && finalSlots[s][k].Bonus?
      ensures finalSlots[s][k].offer in catalog
      ensures Evaluate(finalSlots[s][k].offer, freq, paycheck) == Feasible(finalSlots[s][k].weeksToComplete)
    {
      var c := MakeCandidate(finalSlots[s][k].offer, finalSlots[s][k].weeksToComplete);
      assert c in pool;
    }
  }

  /** Whether the catalog marks every offer with an id lifetime, or every one churnable,
      carries over to the pool's candidates with that id. */
  lemma CatalogKindIsPoolKind(pool: seq<Candidate>, catalog: seq<Offer>, freq: PayFrequency, paycheck: nat, id: string)
    requires forall c :: c in pool <==> c in PoolOf(catalog, freq, paycheck)
    ensures id in Ids(pool) && (forall o :: o in catalog && o.id == id ==> o.cooldownMonths.None?) ==> LifetimeOnly(pool, id)
    ensures id in Ids(pool) && (forall o :: o in catalog && o.id == id ==> o.cooldownMonths.Some?) ==> ChurnableOnly(pool, id)
  {
    PoolPartition(catalog, freq, paycheck);
    if id in Ids(pool) {
      var c :| c in pool && c.offer.id == id;
      assert c.offer in catalog && c == MakeCandidate(c.offer, c.weeksToComplete);
      if forall o :: o in catalog && o.id == id ==> o.cooldownMonths.None? {
        assert id in LifetimeIds(pool);
      }
      if forall o :: o in catalog && o.id == id ==> o.cooldownMonths.Some? {
        assert id in ChurnableIds(pool);
      }
    }
  }
}

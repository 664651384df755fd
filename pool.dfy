/** Candidate-pool construction in lib/sequencer.ts (`runSequencer`, lines 95-117):
    every catalog offer is evaluated; infeasible ones are skipped with their reason,
    feasible ones become candidates, and the pool is sorted by velocity, fastest first. */
module Pool {
  import opened Wrappers
  import opened Arith
  import opened Offers
  import opened Feasibility

  /** A velocity `num / den` (dollars per week), compared exactly by cross-multiplication. */
  datatype Ratio = Ratio(num: nat, den: nat)

  /** a > b */
  predicate Faster(a: Ratio, b: Ratio) { a.num * b.den > b.num * a.den }

  /** a >= b */
  predicate AtLeast(a: Ratio, b: Ratio) { a.num * b.den >= b.num * a.den }

  /** a == b as rationals */
  predicate SameRate(a: Ratio, b: Ratio) { a.num * b.den == b.num * a.den }

  lemma MulMonoStrict(x: nat, y: nat, k: nat)
    requires x > y && k > 0
    ensures x * k > y * k
  {
  }

  lemma MulMonoWeak(x: nat, y: nat, k: nat)
    requires x >= y
    ensures x * k >= y * k
  {
  }

  lemma FasterThenAtLeast(a: Ratio, b: Ratio, c: Ratio)
    requires a.den > 0 && b.den > 0 && c.den > 0
    requires Faster(a, b) && AtLeast(b, c)
    ensures Faster(a, c)
  {
    MulMonoStrict(a.num * b.den, b.num * a.den, c.den);
    MulMonoWeak(b.num * c.den, c.num * b.den, a.den);
    assert a.num * b.den * c.den > b.num * a.den * c.den;
    assert b.num * c.den * a.den >= c.num * b.den * a.den;
    assert b.num * a.den * c.den == b.num * c.den * a.den;
    assert (a.num * c.den) * b.den > (c.num * a.den) * b.den;
    if a.num * c.den <= c.num * a.den {
      MulMonoWeak(c.num * a.den, a.num * c.den, b.den);
    }
  }

  lemma AtLeastTrans(a: Ratio, b: Ratio, c: Ratio)
    requires a.den > 0 && b.den > 0 && c.den > 0
    requires AtLeast(a, b) && AtLeast(b, c)
    ensures AtLeast(a, c)
  {
    MulMonoWeak(a.num * b.den, b.num * a.den, c.den);
    MulMonoWeak(b.num * c.den, c.num * b.den, a.den);
    assert b.num * a.den * c.den == b.num * c.den * a.den;
    assert (a.num * c.den) * b.den >= (c.num * a.den) * b.den;
    if a.num * c.den < c.num * a.den {
      MulMonoStrict(c.num * a.den, a.num * c.den, b.den);
    }
  }

  /** Something strictly faster than b is not as fast as anything with b's rate. */
  lemma FasterNotSame(a: Ratio, b: Ratio, v: Ratio)
    requires a.den > 0 && b.den > 0 && v.den > 0
    requires Faster(a, b) && SameRate(b, v)
    ensures !SameRate(a, v)
  {
    FasterThenAtLeast(a, b, v);
  }

  /** A feasible offer with its derived scheduling figures. */
  datatype Candidate = Candidate(
    offer: Offer,
    weeksToComplete: nat,
    velocity: Ratio,
    cooldownMonths: Option<nat>,
    cooldownWeeks: nat,
    isLifetime: bool)

  /** Whole weeks covering a cooldown of `months` months of 30.4 days. */
  function CooldownWeeks(months: nat): (n: nat)
    ensures months * 304 <= 70 * n
    ensures n == 0 || 70 * (n - 1) < months * 304
    ensures months >= 1 ==> n >= 1
  {
    CeilDiv(months * 304, 70)
  }

  /** The pool entry for a feasible offer (lines 111-114). */
  function MakeCandidate(o: Offer, weeks: nat): (c: Candidate)
    ensures c.offer == o && c.weeksToComplete == weeks && c.cooldownMonths == o.cooldownMonths
    ensures c.isLifetime <==> o.cooldownMonths.None?
    ensures c.isLifetime ==> c.cooldownWeeks == 0
    ensures !c.isLifetime ==> c.cooldownWeeks == CooldownWeeks(o.cooldownMonths.value)
    ensures c.velocity == Ratio(o.bonusAmount, weeks)
  {
    var lifetime := o.cooldownMonths.None?;
    Candidate(o, weeks, Ratio(o.bonusAmount, weeks), o.cooldownMonths,
              if lifetime then 0 else CooldownWeeks(o.cooldownMonths.value), lifetime)
  }

  /** A pool entry is the candidate of a feasible offer, with its evaluated weeks. */
  ghost predicate GoodCandidate(c: Candidate, f: PayFrequency, paycheck: nat)
  {
    Evaluate(c.offer, f, paycheck) == Feasible(c.weeksToComplete) && c == MakeCandidate(c.offer, c.weeksToComplete)
  }

  datatype SkippedOffer = SkippedOffer(bankName: string, reason: Reason)

  /** The pool the loop at lines 108-115 pushes, before sorting. */
  function PoolOf(catalog: seq<Offer>, f: PayFrequency, paycheck: nat): (r: seq<Candidate>)
    ensures |r| <= |catalog|
  {
    if catalog == [] then []
    else
      var init := PoolOf(catalog[..|catalog| - 1], f, paycheck);
      match Evaluate(catalog[|catalog| - 1], f, paycheck)
      case Feasible(w) => init + [MakeCandidate(catalog[|catalog| - 1], w)]
      case Infeasible(_) => init
  }

  /** The `skipped` list the same loop pushes. */
  function SkippedOf(catalog: seq<Offer>, f: PayFrequency, paycheck: nat): (r: seq<SkippedOffer>)
    ensures |r| <= |catalog|
  {
    if catalog == [] then []
    else
      var init := SkippedOf(catalog[..|catalog| - 1], f, paycheck);
      var o := catalog[|catalog| - 1];
      match Evaluate(o, f, paycheck)
      case Feasible(_) => init
      case Infeasible(reason) => init + [SkippedOffer(o.bankName, reason)]
  }

  /** Lines 106-115: one pass over the catalog, pushing into `skipped` or `pool`. */
  method BuildPool(catalog: seq<Offer>, f: PayFrequency, paycheck: nat)
    returns (pool: seq<Candidate>, skipped: seq<SkippedOffer>)
    ensures pool == PoolOf(catalog, f, paycheck)
    ensures skipped == SkippedOf(catalog, f, paycheck)
  {
    pool, skipped := [], [];
    for i := 0 to |catalog|
      invariant pool == PoolOf(catalog[..i], f, paycheck)
      invariant skipped == SkippedOf(catalog[..i], f, paycheck)
    {
      var b := catalog[i];
      assert catalog[..i + 1][..i] == catalog[..i];
      var result := Evaluate(b, f, paycheck);
      if !result.Feasible? {
        skipped := skipped + [SkippedOffer(b.bankName, result.reason)];
        continue;
      }
      pool := pool + [MakeCandidate(b, result.weeksToComplete)];
    }
    assert catalog[..|catalog|] == catalog;
  }

  /** Every offer goes to exactly one of the two lists: feasible ones are in the pool
      as their candidate, infeasible ones only in `skipped`, with their reason. */
  lemma {:induction false} PoolPartition(catalog: seq<Offer>, f: PayFrequency, paycheck: nat)
    ensures |PoolOf(catalog, f, paycheck)| + |SkippedOf(catalog, f, paycheck)| == |catalog|
    ensures forall c :: c in PoolOf(catalog, f, paycheck) ==> c.offer in catalog && GoodCandidate(c, f, paycheck)
    ensures forall o :: o in catalog && Evaluate(o, f, paycheck).Feasible? ==>
              MakeCandidate(o, Evaluate(o, f, paycheck).weeksToComplete) in PoolOf(catalog, f, paycheck)
    ensures forall o :: o in catalog && Evaluate(o, f, paycheck).Infeasible? ==>
              SkippedOffer(o.bankName, Evaluate(o, f, paycheck).reason) in SkippedOf(catalog, f, paycheck)
              && forall c :: c in PoolOf(catalog, f, paycheck) ==> c.offer != o
    ensures forall s :: s in SkippedOf(catalog, f, paycheck) ==>
              exists o :: o in catalog && Evaluate(o, f, paycheck) == Infeasible(s.reason) && s.bankName == o.bankName
  {
    if catalog != [] {
      var init := catalog[..|catalog| - 1];
      var o := catalog[|catalog| - 1];
      PoolPartition(init, f, paycheck);
      assert forall x :: x in catalog <==> x in init || x == o;
      match Evaluate(o, f, paycheck)
      case Feasible(w) =>
        assert PoolOf(catalog, f, paycheck) == PoolOf(init, f, paycheck) + [MakeCandidate(o, w)];
        assert SkippedOf(catalog, f, paycheck) == SkippedOf(init, f, paycheck);
      case Infeasible(reason) =>
        assert PoolOf(catalog, f, paycheck) == PoolOf(init, f, paycheck);
        assert SkippedOf(catalog, f, paycheck) == SkippedOf(init, f, paycheck) + [SkippedOffer(o.bankName, reason)];
    }
  }

  /** Inserts `c` after every strictly faster candidate and before the rest. */
  function InsertByVelocity(c: Candidate, s: seq<Candidate>): (r: seq<Candidate>)
    ensures multiset(r) == multiset{c} + multiset(s)
  {
    if s == [] || !Faster(s[0].velocity, c.velocity) then [c] + s
    else
      assert s == [s[0]] + s[1..];
      [s[0]] + InsertByVelocity(c, s[1..])
  }

  /** The pool sorted by velocity, fastest first; the sort is stable (lines 116-117). */
  function SortByVelocity(s: seq<Candidate>): (r: seq<Candidate>)
    ensures multiset(r) == multiset(s)
  {
    if s == [] then []
    else
      assert s == [s[0]] + s[1..];
      InsertByVelocity(s[0], SortByVelocity(s[1..]))
  }

  ghost predicate PositiveWeeks(s: seq<Candidate>)
  {
    forall c :: c in s ==> c.velocity.den > 0
  }

  ghost predicate SortedByVelocity(s: seq<Candidate>)
  {
    forall i, j :: 0 <= i < j < |s| ==> AtLeast(s[i].velocity, s[j].velocity)
  }

  lemma {:induction false} InsertKeepsSorted(c: Candidate, s: seq<Candidate>)
    requires PositiveWeeks(s) && c.velocity.den > 0 && SortedByVelocity(s)
    ensures SortedByVelocity(InsertByVelocity(c, s))
  {
    var r := InsertByVelocity(c, s);
    if s == [] || !Faster(s[0].velocity, c.velocity) {
      forall j | 0 < j < |r| ensures AtLeast(c.velocity, r[j].velocity) {
        assert r[j] == s[j - 1];
        if j > 1 { AtLeastTrans(c.velocity, s[0].velocity, s[j - 1].velocity); }
      }
    } else {
      assert s == [s[0]] + s[1..];
      InsertKeepsSorted(c, s[1..]);
      var tail := InsertByVelocity(c, s[1..]);
      forall j | 0 <= j < |tail| ensures AtLeast(s[0].velocity, tail[j].velocity) {
        assert tail[j] in multiset(tail);
        assert tail[j] == c || tail[j] in s[1..];
      }
    }
  }

  /** The sorted pool is in non-increasing velocity order. */
  lemma {:induction false} SortByVelocitySorted(s: seq<Candidate>)
    requires PositiveWeeks(s)
    ensures SortedByVelocity(SortByVelocity(s))
  {
    if s != [] {
      assert s == [s[0]] + s[1..];
      SortByVelocitySorted(s[1..]);
      assert forall x :: x in SortByVelocity(s[1..]) ==> x in multiset(s[1..]);
      InsertKeepsSorted(s[0], SortByVelocity(s[1..]));
    }
  }

  /** The candidates whose velocity equals `v`, in order. */
  function WithRate(s: seq<Candidate>, v: Ratio): seq<Candidate>
  {
    if s == [] then []
    else if SameRate(s[0].velocity, v) then [s[0]] + WithRate(s[1..], v)
    else WithRate(s[1..], v)
  }

  lemma {:induction false} InsertWithRate(c: Candidate, s: seq<Candidate>, v: Ratio)
    requires PositiveWeeks(s) && c.velocity.den > 0 && v.den > 0
    ensures WithRate(InsertByVelocity(c, s), v) ==
            (if SameRate(c.velocity, v) then [c] else []) + WithRate(s, v)
  {
    if s == [] || !Faster(s[0].velocity, c.velocity) {
      assert ([c] + s)[1..] == s;
    } else {
      assert s == [s[0]] + s[1..];
      InsertWithRate(c, s[1..], v);
      assert ([s[0]] + InsertByVelocity(c, s[1..]))[1..] == InsertByVelocity(c, s[1..]);
      if SameRate(c.velocity, v) { FasterNotSame(s[0].velocity, c.velocity, v); }
    }
  }

  /** The sort is stable: candidates of equal velocity keep their catalog order. */
  lemma {:induction false} SortByVelocityStable(s: seq<Candidate>, v: Ratio)
    requires PositiveWeeks(s) && v.den > 0
    ensures WithRate(SortByVelocity(s), v) == WithRate(s, v)
  {
    if s != [] {
      SortByVelocityStable(s[1..], v);
      assert forall x :: x in SortByVelocity(s[1..]) ==> x in multiset(s[1..]);
      InsertWithRate(s[0], SortByVelocity(s[1..]), v);
    }
  }
}

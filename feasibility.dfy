/** The feasibility evaluator of lib/sequencer.ts: whether an offer's deposit
    requirements can be met with the user's paycheck and pay frequency, and if so in
    how many whole weeks. */
module Feasibility {
  import opened Wrappers
  import opened Arith
  import opened Offers

  /** Why an offer is infeasible; each carries the numbers its message quotes. */
  datatype Reason =
    | NoDirectDeposit
    | BelowPerDepositMinimum(paycheck: nat, perDepositMin: nat)
    | WindowShortfall(achievable: nat, windowDays: nat, totalMin: nat)
    | NoPaycheckForTotal(totalMin: nat)

  datatype Evaluation = Infeasible(reason: Reason) | Feasible(weeksToComplete: nat)

  /** Deposits that fit into the window: ceil(window / daysPerPay), but at least one. */
  function MaxDeposits(windowDays: nat, f: PayFrequency): (n: nat)
    ensures n >= 1 && 10 * windowDays <= n * DaysPerPayTenths(f)
    ensures n == 1 || (n - 1) * DaysPerPayTenths(f) < 10 * windowDays
  {
    var d := CeilDiv(10 * windowDays, DaysPerPayTenths(f));
    if d >= 1 then d else 1
  }

  predicate BelowPerDeposit(req: Requirements, paycheck: nat)
  {
    Given(req.minDirectDepositPerDeposit) && paycheck < req.minDirectDepositPerDeposit.value
  }

  predicate ShortOfWindow(req: Requirements, f: PayFrequency, paycheck: nat)
  {
    && Given(req.minDirectDepositTotal) && Given(req.depositWindowDays)
    && MaxDeposits(req.depositWindowDays.value, f) * paycheck < req.minDirectDepositTotal.value
  }

  /** The checks that can reject an offer, in the source's order; the first that fails wins. */
  function Screen(o: Offer, f: PayFrequency, paycheck: nat): (r: Option<Reason>)
    ensures r.None? <==>
              o.requirements.directDepositRequired && !BelowPerDeposit(o.requirements, paycheck)
              && !ShortOfWindow(o.requirements, f, paycheck)
    ensures r == Some(NoDirectDeposit) <==> !o.requirements.directDepositRequired
  {
    var req := o.requirements;
    if !req.directDepositRequired then Some(NoDirectDeposit)
    else if BelowPerDeposit(req, paycheck) then
      Some(BelowPerDepositMinimum(paycheck, req.minDirectDepositPerDeposit.value))
    else if ShortOfWindow(req, f, paycheck) then
      Some(WindowShortfall(MaxDeposits(req.depositWindowDays.value, f) * paycheck,
                           req.depositWindowDays.value, req.minDirectDepositTotal.value))
    else None
  }

  /** The deposit count is derived from the total by dividing by the paycheck. */
  predicate CountFromTotal(req: Requirements)
  {
    !Given(req.ddCountRequired) && Given(req.minDirectDepositTotal)
  }

  /** Required deposits: the explicit count, else ceil(total / paycheck), else one. */
  function DepositCount(req: Requirements, paycheck: nat): (n: nat)
    requires paycheck > 0 || !CountFromTotal(req)
    ensures n >= 1
    ensures Given(req.ddCountRequired) ==> n == req.ddCountRequired.value
    ensures !Given(req.ddCountRequired) && !Given(req.minDirectDepositTotal) ==> n == 1
    ensures CountFromTotal(req) ==> n * paycheck >= req.minDirectDepositTotal.value
    ensures CountFromTotal(req) ==> (n - 1) * paycheck < req.minDirectDepositTotal.value
  {
    if Given(req.ddCountRequired) then req.ddCountRequired.value
    else if Given(req.minDirectDepositTotal) then
      var n := CeilDiv(req.minDirectDepositTotal.value, paycheck);
      assert n * paycheck == paycheck * n;
      assert (n - 1) * paycheck == paycheck * (n - 1);
      n
    else 1
  }

  /** Whole weeks needed for `count` pay periods: ceil(count * daysPerPay / 7). */
  function WeeksFor(count: nat, f: PayFrequency): (n: nat)
    ensures count * DaysPerPayTenths(f) <= 70 * n
    ensures n == 0 || 70 * (n - 1) < count * DaysPerPayTenths(f)
    ensures count >= 1 ==> n >= 1
  {
    CeilDiv(count * DaysPerPayTenths(f), 70)
  }

  /** `evaluate`, with a zero paycheck rejected where the source would divide by it
      (see EvaluateAsWritten). */
  function Evaluate(o: Offer, f: PayFrequency, paycheck: nat): (r: Evaluation)
    // Without a direct-deposit requirement nothing else is looked at.
    ensures !o.requirements.directDepositRequired <==> r == Infeasible(NoDirectDeposit)
    ensures (r.Infeasible? && r.reason.BelowPerDepositMinimum?) <==>
              (o.requirements.directDepositRequired && BelowPerDeposit(o.requirements, paycheck))
    ensures (r.Infeasible? && r.reason.WindowShortfall?) <==>
              (o.requirements.directDepositRequired && !BelowPerDeposit(o.requirements, paycheck)
               && ShortOfWindow(o.requirements, f, paycheck))
    ensures (r.Infeasible? && r.reason.NoPaycheckForTotal?) <==>
              (Screen(o, f, paycheck).None? && CountFromTotal(o.requirements) && paycheck == 0)
    // A feasible verdict passed every check and never divides by a zero paycheck ...
    ensures r.Feasible? <==>
              (Screen(o, f, paycheck).None? && (paycheck > 0 || !CountFromTotal(o.requirements)))
    // ... and its weeks are the fewest whole weeks that span the required pay periods.
    ensures r.Feasible? ==>
              && r.weeksToComplete >= 1
              && DepositCount(o.requirements, paycheck) * DaysPerPayTenths(f) <= 70 * r.weeksToComplete
              && 70 * (r.weeksToComplete - 1) < DepositCount(o.requirements, paycheck) * DaysPerPayTenths(f)
  {
    match Screen(o, f, paycheck)
    case Some(reason) => Infeasible(reason)
    case None =>
      if CountFromTotal(o.requirements) && paycheck == 0 then
        Infeasible(NoPaycheckForTotal(o.requirements.minDirectDepositTotal.value))
      else
        var n := DepositCount(o.requirements, paycheck);
        assert n * DaysPerPayTenths(f) >= 70 by { MulMono(DaysPerPayTenths(f), 1, n); }
        Feasible(WeeksFor(n, f))
  }

  /** The window check: failing it means no number of deposits that fits into the
      window reaches the total, and passing it means the window's full count does. */
  lemma {:induction false} WindowShortfallMeansNoPlanFits(windowDays: nat, f: PayFrequency, paycheck: nat, totalMin: nat)
    ensures MaxDeposits(windowDays, f) * paycheck < totalMin <==>
              forall n :: 1 <= n <= MaxDeposits(windowDays, f) ==> n * paycheck < totalMin
  {
    var m := MaxDeposits(windowDays, f);
    forall n | 1 <= n <= m
      ensures n * paycheck <= m * paycheck
    {
      assert n * paycheck == paycheck * n && m * paycheck == paycheck * m;
      MulMono(paycheck, n, m);
    }
  }

  /** A derived deposit count is the least one whose deposits reach the total. */
  lemma {:induction false} DerivedCountIsLeast(req: Requirements, paycheck: nat, n: nat)
    requires CountFromTotal(req) && paycheck > 0
    requires n * paycheck >= req.minDirectDepositTotal.value
    ensures DepositCount(req, paycheck) <= n
  {
    assert n * paycheck == paycheck * n;
    CeilDivLeast(req.minDirectDepositTotal.value, paycheck, n);
  }

  // ---------------------------------------------------------------------------
  // The evaluator exactly as written: the ceiling of the total over a zero paycheck
  // is Infinity, which counts as given, so the offer is reported feasible with
  // Infinity weeks to complete.

  /** A JavaScript number that is a count or positive infinity. */
  datatype Extended = Finite(n: nat) | Infinity

  datatype EvaluationAsWritten = InfeasibleAsWritten(reason: Reason) | FeasibleAsWritten(weeks: Extended)

  /** The JavaScript ceiling of `a / b` for a positive `a`: dividing by zero gives Infinity. */
  function JsCeilDiv(a: nat, b: nat): Extended
  {
    if b == 0 then Infinity else Finite(CeilDiv(a, b))
  }

  /** lib/sequencer.ts `evaluate` as written, lines 78-81 without a zero-paycheck guard. */
  function EvaluateAsWritten(o: Offer, f: PayFrequency, paycheck: nat): (r: EvaluationAsWritten)
    ensures r.FeasibleAsWritten? <==> Screen(o, f, paycheck).None?
  {
    match Screen(o, f, paycheck)
    case Some(reason) => InfeasibleAsWritten(reason)
    case None =>
      var req := o.requirements;
      var count :=
        if Given(req.ddCountRequired) then Finite(req.ddCountRequired.value)
        else if Given(req.minDirectDepositTotal) then JsCeilDiv(req.minDirectDepositTotal.value, paycheck)
        else Finite(1);
      match count
      case Finite(n) => FeasibleAsWritten(Finite(WeeksFor(n, f)))
      case Infinity => FeasibleAsWritten(Infinity)
  }

  /** The corrected evaluator differs from the code as written only where the code
      divides by a zero paycheck: there it rejects the offer instead of accepting it
      with Infinity weeks. */
  lemma EvaluateDiffersOnlyOnZeroPaycheck(o: Offer, f: PayFrequency, paycheck: nat)
    ensures Evaluate(o, f, paycheck).Feasible? ==>
              EvaluateAsWritten(o, f, paycheck) == FeasibleAsWritten(Finite(Evaluate(o, f, paycheck).weeksToComplete))
    ensures (Evaluate(o, f, paycheck).Infeasible? && !Evaluate(o, f, paycheck).reason.NoPaycheckForTotal?) ==>
              EvaluateAsWritten(o, f, paycheck) == InfeasibleAsWritten(Evaluate(o, f, paycheck).reason)
    ensures (Evaluate(o, f, paycheck).Infeasible? && Evaluate(o, f, paycheck).reason.NoPaycheckForTotal?) <==>
              EvaluateAsWritten(o, f, paycheck) == FeasibleAsWritten(Infinity)
  {
  }

  /** An offer shaped like the catalog's 316 Financial entry: direct deposits totalling
      $1000, with no per-deposit minimum, no count and no window. */
  function TotalOnlyOffer(): Offer
  {
    Offer("total-only", "Total Only Bank", 100, None,
          Requirements(true, None, Some(1000), None, None),
          Timeline(Some(30), None), Some(0), Some("low"), Some(false), [])
  }

  /** With a $0 paycheck (an emptied paycheck field reads as 0) no number of deposits
      reaches the total, yet the code as written reports the offer feasible with
      Infinity weeks; the corrected evaluator reports it infeasible. */
  lemma ZeroPaycheckCounterexample()
    ensures forall n: nat :: n * 0 < TotalOnlyOffer().requirements.minDirectDepositTotal.value
    ensures EvaluateAsWritten(TotalOnlyOffer(), Biweekly, 0) == FeasibleAsWritten(Infinity)
    ensures Evaluate(TotalOnlyOffer(), Biweekly, 0) == Infeasible(NoPaycheckForTotal(1000))
  {
  }

  /** The intended property, proved of the corrected evaluator: when the deposit count
      is derived from the total, a feasible offer's deposits reach that total. */
  lemma FeasibleDerivedCountReachesTotal(o: Offer, f: PayFrequency, paycheck: nat)
    requires Evaluate(o, f, paycheck).Feasible? && CountFromTotal(o.requirements)
    ensures paycheck > 0
    ensures DepositCount(o.requirements, paycheck) * paycheck >= o.requirements.minDirectDepositTotal.value
  {
  }
}

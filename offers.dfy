/** The offer catalog's record shape and the user's pay frequency. The catalog itself
    (static data) is an input sequence of `Offer`s. */
module Offers {
  import opened Wrappers

  /** The four pay frequencies of the profile, plus any other string, which falls back
      to the biweekly cadence. */
  datatype PayFrequency = Weekly | Biweekly | Semimonthly | Monthly | Unrecognised

  /** Days per pay period in tenths of a day: 7, 14, 15.2 and 30.4 days; 14 for an
      unrecognised frequency. */
  function DaysPerPayTenths(f: PayFrequency): (n: nat)
    ensures 70 <= n <= 304
    ensures f == Unrecognised ==> n == 140
  {
    match f
    case Weekly => 70
    case Biweekly => 140
    case Semimonthly => 152
    case Monthly => 304
    case Unrecognised => 140
  }

  datatype Requirements = Requirements(
    directDepositRequired: bool,
    minDirectDepositPerDeposit: Option<nat>,
    minDirectDepositTotal: Option<nat>,
    ddCountRequired: Option<nat>,
    depositWindowDays: Option<nat>)

  datatype Timeline = Timeline(bonusPostingDaysEst: Option<nat>, mustRemainOpenDays: Option<nat>)

  /** A bonus offer. `cooldownMonths == None` marks a lifetime (one-time) offer. The
      fee and screening fields are only carried through to the plan. */
  datatype Offer = Offer(
    id: string,
    bankName: string,
    bonusAmount: nat,
    cooldownMonths: Option<nat>,
    requirements: Requirements,
    timeline: Timeline,
    monthlyFee: Option<nat>,
    chexSensitive: Option<string>,
    hardPull: Option<bool>,
    sourceLinks: seq<string>)

  /** The source's truthiness test on an optional number: null and 0 both mean "not given". */
  predicate Given(o: Option<nat>) { o.Some? && o.value > 0 }

  predicate IsLifetime(o: Offer) { o.cooldownMonths.None? }
}

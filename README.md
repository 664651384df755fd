# Bank-bonus sequencer: a verified model

The application plans which bank sign-up bonuses a user should open, and when, so that the
user's paycheck can meet each bonus's direct-deposit requirements. Its engine has three
parts, and all of them are modelled here:

- **Feasibility evaluator** (`evaluate`). Given an offer, a pay frequency and a paycheck, it
  either rejects the offer with a reason or says how many whole weeks its deposits take.
- **Greedy slot scheduler** (`runSequencer`). It works in five steps:
  1. It evaluates the whole catalog, setting infeasible offers aside as `skipped`.
  2. It sorts the feasible candidates by velocity (dollars per week).
  3. It seeds each candidate's first available week and cycle number from the user's
     completion history.
  4. It fills a number of parallel slots. Each round takes the slot that frees up first and
     gives it the fastest candidate available by then. When no candidate is available, it
     idles the slot until the next candidate becomes available.
  5. It reports the schedule, `total_bonus` and `horizon_weeks`.
- **Churn classifier** (`getChurnStatus`). It decides whether an offer is available, in
  progress, in cooldown or used up for good.

The model also covers the roadmap page's helpers:
- chaining calendar start dates along a slot;
- picking the entries shown for one year;
- the per-year totals, and the year-window arithmetic.

## How the model is put together

| file | module | contents |
|---|---|---|
| wrappers.dfy | Wrappers | `Option` |
| arith.dfy | Arith | `CeilDiv`, which stands in for `Math.ceil(a / b)` |
| offers.dfy | Offers | the catalog's record shape; `DAYS_PER_PAY` in tenths of a day (70, 140, 152, 304) |
| feasibility.dfy | Feasibility | `evaluate`, together with the zero-paycheck finding |
| pool.dfy | Pool | candidates, the pool and skipped lists, the stable velocity sort |
| churn.dfy | Churn | `getChurnStatus` |
| history.dfy | History | seeding the availability and cycle maps from the history |
| schedule.dfy | Schedule | slot entries, slot chains, counts, `total_bonus`, `horizon_weeks` |
| scheduler.dfy | Scheduler | the three per-round choices, the greedy loop, `runSequencer` |
| keys.dfy | Keys | the `id-cycle` date keys and their decimal rendering |
| roadmap.dfy | Roadmap | `buildChainedDates`, `filterToYear`, `yearBonus`, `yearBonusCount`, year windows |
| fixtures.dfy | Fixtures | three catalog offers, what the model computes for them, and a one-slot schedule worked round by round |

How the source's values are represented:
- Numbers are exact integers. A velocity is a ratio (amount over weeks), and velocities are
  compared by cross-multiplication.
- Dates are day numbers. Today's day number is a parameter of the model.
- Calendar-month addition (`setMonth`) is a function parameter, `AddMonths`.
- The catalog and the completion records are input sequences.
- The scheduler's loop keeps its state in arrays:
  - the per-slot entry lists;
  - the slots' next-free weeks.

  The availability and cycle maps are `map`s keyed by offer id, read with the source's
  `?? 1` defaults.
- The loop is also written as a function of its state. `Scheduler.Round` is one iteration of
  the loop body, built from the three per-round choices (earliest slot, fastest available
  candidate, next availability); it returns nothing when the body breaks. `Scheduler.Run`
  repeats rounds until 200 placements are made or a round breaks. The in-place loop
  (`FillSlots`) is proved to produce exactly `Run`'s slots, so the schedule is determined by
  its inputs, and the lemmas about `Run` carry the loop's invariant and its exit condition.

## Model

| member | source | states |
|---|---|---|
| Arith.CeilDiv | lib/sequencer.ts:74-81 | the result is the least q with a ≤ b·q, i.e. the ceiling the source takes with `Math.ceil` |
| Offers.DaysPerPayTenths | lib/sequencer.ts:49-51 | the days per pay period in tenths lie between 7 and 30.4 days; an unrecognised frequency falls back to 14 days (line 63) |
| Feasibility.MaxDeposits | lib/sequencer.ts:73 | the fewest pay periods (at least 1) that span the deposit window: they reach its length, and one fewer would not |
| Feasibility.Screen | lib/sequencer.ts:62-77 | no reason exactly when direct deposit is required, the paycheck meets the per-deposit minimum and the window's deposits reach the total; "no direct deposit" exactly when it is not required |
| Feasibility.WeeksFor | lib/sequencer.ts:81 | the fewest whole weeks spanning the deposits' pay periods: they cover them and one fewer would not; at least 1 when there is a deposit |
| Feasibility.DepositCount | lib/sequencer.ts:78-80 | at least one deposit; an explicit positive `dd_count_required` is the count; with the count derived from the total, the deposits reach the total and one fewer would not; with neither an explicit count nor a total, it is 1 |
| Feasibility.Evaluate | lib/sequencer.ts:56-82 | each reason arises exactly when its check fails and all earlier checks pass: no direct deposit (nothing else looked at), below the per-deposit minimum, short of the total within the window, and a zero paycheck for a total-derived count; a feasible verdict is exactly the absence of those, and its weeks are the fewest whole weeks spanning the required pay periods (at least 1) |
| Feasibility.WindowShortfallMeansNoPlanFits | lib/sequencer.ts:72-77 | the window check fails exactly when no number of deposits from 1 up to the window's maximum reaches the total |
| Feasibility.DerivedCountIsLeast | lib/sequencer.ts:78-80 | a derived deposit count is not more than any count whose deposits reach the total |
| Feasibility.FeasibleDerivedCountReachesTotal | lib/sequencer.ts:78-81 | a feasible offer whose count is derived from the total had a positive paycheck, and its deposits reach the total |
| Feasibility.EvaluateAsWritten | lib/sequencer.ts:56-82 | the unguarded evaluator accepts an offer exactly when every screening check passes, even where it then divides by a zero paycheck |
| Feasibility.EvaluateDiffersOnlyOnZeroPaycheck | lib/sequencer.ts:78-81 | the corrected and as-written evaluators agree on every verdict, except that the as-written Infinity-weeks acceptance appears exactly where the corrected one rejects for a zero paycheck |
| Feasibility.ZeroPaycheckCounterexample | lib/sequencer.ts:78-81 | a $1000-total offer with a $0 paycheck: no deposit count reaches the total, yet the code as written accepts it with Infinity weeks, while the corrected evaluator rejects it |
| Pool.CooldownWeeks | lib/sequencer.ts:113 | the fewest whole weeks spanning the cooldown months at 30.4 days each; at least 1 for a positive cooldown |
| Pool.MakeCandidate | lib/sequencer.ts:111-114 | the candidate carries the offer, its weeks and its cooldown months; it is lifetime exactly when there is no cooldown, with 0 cooldown weeks, and otherwise has the months' cooldown weeks; its velocity is the amount over the weeks |
| Pool.PoolOf | lib/sequencer.ts:108-115 | the pool pushed by the loop is no longer than the catalog (its contents are stated by Pool.PoolPartition) |
| Pool.SkippedOf | lib/sequencer.ts:108-115 | the skipped list is no longer than the catalog (its contents are stated by Pool.PoolPartition) |
| Pool.BuildPool | lib/sequencer.ts:106-115 | the loop's pool and skipped lists are those of the catalog, in catalog order |
| Pool.PoolPartition | lib/sequencer.ts:106-115 | every offer lands in exactly one of the two lists; a feasible one is in the pool as its candidate (velocity = amount / weeks, cooldown weeks, lifetime flag), and an infeasible one is only in skipped, with its reason |
| Pool.InsertByVelocity | lib/sequencer.ts:117 | the insertion adds exactly the one candidate |
| Pool.SortByVelocity | lib/sequencer.ts:117 | the sort is a permutation of the pool |
| Pool.SortByVelocitySorted | lib/sequencer.ts:117 | the sorted pool is in non-increasing velocity order |
| Pool.SortByVelocityStable | lib/sequencer.ts:117 | candidates of equal velocity keep their catalog order (a stable sort, as `Array.prototype.sort` is) |
| Churn.RecordsFor | lib/churn.ts:23 | exactly the records of this offer are kept |
| Churn.FirstOpen | lib/churn.ts:27 | none exactly when no record is open; otherwise the first open record in order |
| Churn.MostRecentClosed | lib/churn.ts:38-43 | the chosen record is a closed one from the list |
| Churn.MostRecentClosedIsLatest | lib/churn.ts:38-43 | absent exactly when every record is open; otherwise a closed record with the latest close date, and the first one with that date in input order |
| Churn.FirstOpenIsFirstForOffer | lib/churn.ts:23-30 | the open record found after filtering is the first open record of this offer in the unfiltered input |
| Churn.GetChurnStatus | lib/churn.ts:18-64 | a cooldown status has at least one day left and its date is today plus those days; any status other than available needs a record of this offer |
| Churn.ChurnStatusClassifies | lib/churn.ts:18-64 | the four states and their precedence: with no record the offer is available; it is in progress exactly when a record is open, carrying the first open record's date and id; it is lifetime exactly when it has closed history and no cooldown; in cooldown, the date is the latest close plus the cooldown months and there is at least one day left; otherwise it is available exactly when that date has passed |
| Churn.StatusIgnoresRecordOrder | lib/churn.ts:38-43 | reordering the records changes at most which open record an in-progress status reports |
| Churn.LatestCloseUnique | lib/churn.ts:38-43 | the latest close date is one date |
| Churn.RecentCloseIsCoolingDown | lib/churn.ts:45-63 | when month addition moves dates forward, an offer with a cooldown that closed today or later is in cooldown |
| History.SeedEntry | lib/sequencer.ts:126-143 | a written week is at least 1; a cycle is written only with a week, and it is 2 |
| History.Seeded | lib/sequencer.ts:119-144 | after seeding the pool, every recorded week is at least 1, and every recorded cycle is 2 and has a recorded week |
| History.SeedFromHistory | lib/sequencer.ts:119-144 | the loop's maps are the fold of the per-candidate seeding over the pool |
| History.SeedMatchesChurnStatus | lib/sequencer.ts:126-143 | one candidate's seed: week 521 when in progress or when a lifetime offer is used up; the week after the remaining days when in cooldown; week 1 when available; cycle 2 exactly when closed history exists |
| History.SeedEntryWrites | lib/sequencer.ts:126-143 | a week is written exactly when the offer has history; an open record or a used lifetime offer writes week 521; any cycle written is 2 |
| History.SeededFacts | lib/sequencer.ts:119-144 | after seeding the whole pool: ids not in the pool are untouched, every written cycle is 2, and an open or used-up lifetime id is at week 521 |
| Schedule.PayoutWeeks | lib/sequencer.ts:200-203 | at least 1, so the payout week (start + n − 1) is the start week or later; with a posting estimate, n is the number of whole weeks covering those days (7(n − 1) < days ≤ 7n); with no estimate (null or 0), it is the completion weeks plus four |
| Schedule.ContiguousDisjoint | lib/sequencer.ts:182-224 | the entries of a slot are in start order and do not overlap |
| Schedule.ContiguousCovers | lib/sequencer.ts:182-224 | every week before the slot's next free week is covered by exactly one of its entries |
| Schedule.WeightAppend | lib/sequencer.ts:182-224 | pushing one entry onto one slot adds exactly that entry's weight to a count |
| Schedule.BonusEntries | lib/sequencer.ts:237 | exactly the placements are kept |
| Schedule.MaxPayout | lib/sequencer.ts:239 | the maximum payout week is attained and bounds all payout weeks |
| Schedule.FlattenMembers | lib/sequencer.ts:237 | an entry is in the flattened list exactly when it is in some slot |
| Schedule.SumAmounts | lib/sequencer.ts:238 | the sum of the placements' amounts is not negative, and 0 when there is no placement |
| Schedule.TotalBonus | lib/sequencer.ts:237-238 | `total_bonus` is not negative, and 0 when nothing is placed |
| Schedule.HorizonWeeks | lib/sequencer.ts:237-239 | `horizon_weeks` bounds every payout week, is 0 when nothing is placed, and otherwise is the payout week of some placement |
| Schedule.HorizonIsLatestPayout | lib/sequencer.ts:239 | `horizon_weeks` bounds every payout week and is attained by one, and it is 0 when nothing is placed |
| Scheduler.EarliestUpToIsFirstMinimum | lib/sequencer.ts:152-155 | the scan over the first n slots picks one of minimal next-free week, and every slot before it frees strictly later |
| Scheduler.FirstMinimumIsEarliest | lib/sequencer.ts:152-155 | conversely, the first slot of minimal next-free week is the one the scan picks |
| Scheduler.FindEarliestSlot | lib/sequencer.ts:152-155 | the loop returns the slot the scan picks |
| Scheduler.BestUpToAvailable | lib/sequencer.ts:160-167 | no candidate is chosen (-1) exactly when none is available by the slot's week, and a chosen one is available |
| Scheduler.BestUpToFastest | lib/sequencer.ts:160-167 | a chosen candidate is at least as fast as every available one and strictly faster than every available one before it |
| Scheduler.FastestIsBest | lib/sequencer.ts:160-167 | conversely, an available candidate that is at least as fast as all available ones and strictly faster than the earlier ones is the one chosen |
| Scheduler.FindBestCandidate | lib/sequencer.ts:160-167 | the loop returns the candidate the scan chooses |
| Scheduler.BestIsFirstAvailable | lib/sequencer.ts:160-167 | on the velocity-sorted pool, no candidate before the chosen one is available |
| Scheduler.NextUpToIsEarliest | lib/sequencer.ts:171-179 | the week found bounds every availability after the slot's week; below 521 it is some candidate's availability, with the bank of the first candidate reaching it; at 521 the bank is "" |
| Scheduler.FindNextAvailability | lib/sequencer.ts:171-179 | the loop returns the week and bank the scan finds |
| Scheduler.DistanceDrops | lib/sequencer.ts:150-234 | moving a slot forward, up to week 521, strictly lowers the second component of the loop's termination measure |
| Scheduler.TrackedAfterPlaceholder | lib/sequencer.ts:182-193 | a placeholder changes no count and keeps every history and cycle guarantee |
| Scheduler.TrackedAfterPlacement | lib/sequencer.ts:196-232 | a placement followed by the availability and cycle update keeps every guarantee: a lifetime offer placed once and then unavailable, a churnable offer's cycle numbers used once each, blocked ids never placed |
| Scheduler.TrackedInitially | lib/sequencer.ts:119-148 | the seeded maps with empty slots satisfy every guarantee |
| Scheduler.PlacementFor | lib/sequencer.ts:198-222 | a placement of the candidate's offer in this slot, starting at the slot's free week and spanning its completion weeks |
| Scheduler.Round | lib/sequencer.ts:150-234 | one round of the loop as a function of its state: it keeps the number of slots, and either adds one placement or moves a slot strictly forward without placing (so the loop ends) |
| Scheduler.Run | lib/sequencer.ts:146-235 | the whole loop as a function of its state, run until 200 placements or a round breaks; it keeps the number of slots |
| Scheduler.RoundBreaks | lib/sequencer.ts:156-180 | a round breaks exactly when every slot is past week 520, or no candidate is available at or before week 520 |
| Scheduler.RunStops | lib/sequencer.ts:150-180 | the loop ends in a stopping state: 200 placements, every slot past week 520, or no candidate available again by week 520 |
| Scheduler.RunOnlyAppends | lib/sequencer.ts:182-224 | entries are only appended: each slot's entries so far begin its final entries |
| Scheduler.IdleKeeps | lib/sequencer.ts:182-193 | an idle step keeps every slot a chain, the placement count and the history and cycle guarantees |
| Scheduler.PlacedKeeps | lib/sequencer.ts:196-234 | placing an available candidate keeps the same invariant, with the count one higher |
| Scheduler.RoundKeeps | lib/sequencer.ts:150-234 | every round that does not break keeps the invariant |
| Scheduler.RunKeeps | lib/sequencer.ts:146-235 | the whole loop keeps it |
| Scheduler.PlaceIdle | lib/sequencer.ts:182-193 | the arrays become the state of an idle round: the slot gains the placeholder [free week, next − 1] and moves to next; nothing else changes |
| Scheduler.PlaceBonus | lib/sequencer.ts:196-232 | the arrays and maps become the state of a placing round: the slot gains the placement and moves by its weeks; a lifetime offer becomes unavailable for good, while a churnable one becomes available at payout + cooldown with its cycle advanced |
| Scheduler.FillSlots | lib/sequencer.ts:146-235 | the slots the loop fills are exactly those of the functional run from the seeded state, and that run has stopped (200 placements, every slot past week 520, or nothing available again by then); the proof steps RoundIdles, RoundPlaces and RunAdvances each unfold one case of a round and have no row of their own |
| Scheduler.RunSequencer | lib/sequencer.ts:84-242 | at least one slot; the schedule is exactly the functional run over the sorted, seeded pool; one chain per slot from week 1; every placement is a feasible catalog offer with its evaluated weeks; at most 200 placements; `total_bonus` and `horizon_weeks` are the aggregates of the slots; skipped is the corrected evaluator's list (see the finding); an offer with an open account is never placed; a lifetime offer is placed at most once, and never if used before; a churnable offer never repeats a cycle |
| Scheduler.LoopOutcome | lib/sequencer.ts:119-235 | from the seeded start with empty slots, the run's slots are chains from week 1 with at most 200 placements, and satisfy the feasibility, open-account, lifetime and cycle guarantees |
| Scheduler.RunSequencerOutcome | lib/sequencer.ts:84-242 | the loop's guarantees at exit imply the run's promises about feasibility, open accounts, lifetime offers and cycles |
| Scheduler.PlacementsAreFeasible | lib/sequencer.ts:108-115 | every placement made from the pool is a catalog offer that the evaluator accepts with those weeks |
| Scheduler.CatalogKindIsPoolKind | lib/sequencer.ts:111-114 | when all catalog offers with an id are lifetime (or all churnable), so are all pool candidates with it |
| Keys.NatToDecimal | app/roadmap/sequencer/SequencerClient.tsx:34 | a non-empty string of decimal digits |
| Keys.DecimalRoundTrip | app/roadmap/sequencer/SequencerClient.tsx:34 | parsing the rendered digits gives the number back |
| Keys.LastDash | app/roadmap/sequencer/SequencerClient.tsx:34 | the position of the last '-', or none when there is no '-' |
| Keys.KeyShape | app/roadmap/sequencer/SequencerClient.tsx:34 | a key starts with the id and a dash, followed by the cycle's digits |
| Keys.KeyRoundTrip | app/roadmap/sequencer/SequencerClient.tsx:34 | the key `id-cycle` splits back into the id and the cycle |
| Keys.KeyInjective | app/roadmap/sequencer/SequencerClient.tsx:34 | with non-negative cycles, equal keys mean the same id and the same cycle |
| Roadmap.BuildChainedDates | app/roadmap/sequencer/SequencerClient.tsx:25-38 | the keys are exactly those of the placements; a placement whose key is not reused later is dated firstStart + 7 days per week spanned by all earlier entries (the placeholders' spans and the placements' completion weeks); the proof steps PlaceholderStep and BonusStep unfold one entry of the fold and have no row of their own |
| Roadmap.BonusKeysMembers | app/roadmap/sequencer/SequencerClient.tsx:31-35 | a key is present exactly when some earlier placement has it |
| Roadmap.WeeksBeforeIsStartWeek | app/roadmap/sequencer/SequencerClient.tsx:25-38 | on a slot chain, the weeks the cursor has passed before an entry are its start week minus one |
| Roadmap.ChainedDateIsStartDate | app/roadmap/sequencer/SequencerClient.tsx:25-38 | when an (offer, cycle) is placed at most once, as runSequencer guarantees for churnable and lifetime offers, its chained date is firstStart + 7 × (start week − 1) |
| Roadmap.FilterToYear | app/roadmap/sequencer/SequencerClient.tsx:41-43 | the result is no longer than the input |
| Roadmap.FilterToYearMembers | app/roadmap/sequencer/SequencerClient.tsx:41-43 | exactly the entries overlapping the year window are kept (start ≤ year end and end ≥ year start) |
| Roadmap.FilterOfRun | app/roadmap/sequencer/SequencerClient.tsx:41-43 | filtering keeps the input order: when the overlapping entries are those at positions lo to hi, the result is that slice |
| Roadmap.EndingBefore | app/roadmap/sequencer/SequencerClient.tsx:41-43 | the length of the leading run of entries that end before the week |
| Roadmap.StartingBy | app/roadmap/sequencer/SequencerClient.tsx:41-43 | the length of the leading run of entries that start by the week |
| Roadmap.FilterToYearIsRun | app/roadmap/sequencer/SequencerClient.tsx:41-43 | on a slot chain, a year's entries are a consecutive slice of the slot, in chain order |
| Roadmap.YearWindowsTile | app/roadmap/sequencer/SequencerClient.tsx:110-111 | each week from 1 on lies in exactly one year window |
| Roadmap.TotalYears | app/roadmap/sequencer/SequencerClient.tsx:109 | a non-negative horizon lies within the first `totalYears` years and, when positive, inside the last of them |
| Roadmap.InYearMembers | app/roadmap/sequencer/SequencerClient.tsx:46-57 | `yearBonus` and `yearBonusCount` range over the same entries: exactly the placements whose start week lies in the window |
| Roadmap.YearBonus | app/roadmap/sequencer/SequencerClient.tsx:46-50 | a year's bonus total is not negative, and 0 when no placement starts in the window |
| Roadmap.YearBonusCount | app/roadmap/sequencer/SequencerClient.tsx:53-57 | a year's count is at most the number of entries, and 0 exactly when no placement starts in the window |
| Roadmap.YearTallyAppend | app/roadmap/sequencer/SequencerClient.tsx:46-57 | one more entry adds to the year figures exactly when it is a placement starting inside them |
| Roadmap.YearTallyAll | app/roadmap/sequencer/SequencerClient.tsx:46-57 | when every placement starts inside the years counted, the year figures add up to the figure over all placements |
| Roadmap.HorizonBoundsStarts | lib/sequencer.ts:239 | the horizon is not negative and bounds every placement's start week |
| Roadmap.YearsAddUpToTotals | app/roadmap/sequencer/SequencerClient.tsx:46-111 | over the years 1 to `totalYears`, the per-year bonuses sum to `total_bonus` and the per-year counts sum to the number of placements |
| Fixtures.CapitalOneBiweekly | lib/data/bonuses.ts:61-115 | biweekly $600: feasible in 4 weeks, $300 over 4 weeks, a cooldown of 157 weeks, payout in week 20 |
| Fixtures.CapitalOneSmallPaycheck | lib/data/bonuses.ts:61-115 | a $400 paycheck is below the $500 per-deposit minimum |
| Fixtures.FigfcuBiweekly | lib/data/bonuses.ts:564-618 | biweekly $1000 reaches only $7000 of $15000 in 90 days; $2500 is feasible in 6 weeks; a lifetime offer with no cooldown |
| Fixtures.FigfcuDoneOnce | lib/data/bonuses.ts:564-618 | a closed record of this lifetime offer makes it lifetime-exhausted |
| Fixtures.CapitalOneCoolingDown | lib/data/bonuses.ts:61-115 | closed on day 100, with 36 months ending on day 1200: in cooldown on day 500, with 700 days left, whatever another offer's open record says |
| Fixtures.CapitalOneSecondCycleKey | app/roadmap/sequencer/SequencerClient.tsx:34 | the second-cycle key of Capital One's id splits back into that id and 2 |
| Fixtures.ThousandBiweekly | lib/data/bonuses.ts:450-507 | biweekly $1000: Capital One takes 4 weeks ($75 a week), BMO's $4000 total takes 8 weeks ($50 a week) with a 53-week cooldown, and Capital One is the faster |
| Fixtures.ScenarioFirstRound | lib/sequencer.ts:150-234 | one slot, BMO cooling down until week 10: the first round places Capital One at week 1 |
| Fixtures.ScenarioSecondRound | lib/sequencer.ts:169-193 | the second round finds nothing available at week 5 and idles the slot until BMO at week 10 |
| Fixtures.ScenarioThirdRound | lib/sequencer.ts:196-234 | the third round places BMO at week 10, its second cycle |
| Fixtures.OneSlotIdlesForTheSlowerOffer | lib/sequencer.ts:146-235 | the one-slot schedule begins with Capital One at weeks 1-4, a placeholder for weeks 5-9 waiting for BMO, then BMO at weeks 10-17 |

## Left out

- Floating point. Days per pay and the 30.4-day month are exact tenths; the ceilings are exact integer ceilings; a velocity is an exact ratio. So two velocities count as equal exactly when they are equal as rationals. JavaScript's floating-point `b.velocity - a.velocity` could differ where the two quotients round differently.
- Calendar arithmetic is left out: `Date`, `setMonth`, `setHours`, ISO date strings, time zones and `new Date()`.
  - Dates are day numbers, and today is a parameter.
  - Month addition is a function parameter, assumed strictly increasing only where a lemma needs it.
  - An in-cooldown `days_remaining` is the day difference of two midnights.
  - The page's `addDays` is addition of days, and keys map to day numbers rather than ISO strings.
- Reason messages are not built as strings (`toLocaleString` and the message texts). They are modelled as a `Reason` datatype carrying the numbers each message quotes.
- Supabase I/O, authentication, the profile provider, `fmtShortDate`, `fmtDate` and every React component are not part of this model. The catalog and the completion records are parameters.
- The roadmap page's `computeVelocity` (app/roadmap/RoadmapClient.tsx:15-37) is not modelled separately, because it repeats `evaluate`.
- The sequencer page's event handlers (`handleRun`, `handleStartDateChange`, which merge chained dates into the page's state) are not modelled. Nor is the `result ? … : 1` default of the year count before a result exists (app/roadmap/sequencer/SequencerClient.tsx:109).
- Pool.SortByVelocity: `pool.sort` sorts the array in place. The model sorts a value with a stable insertion sort, so it does not capture aliasing of the pool array.
- Scheduler.RunSequencer: it requires at least one slot. With zero slots and a non-empty pool, the source throws when it pushes to slot 0 (lib/sequencer.ts:206). The profile offers only 1 to 3 slots (app/components/ProfileBar.tsx:23).
- Scheduler.RunSequencer: it builds on the corrected evaluator (see "## Findings"). So at a $0 paycheck, offers whose deposit count comes only from a total (such as 316 Financial and Chime) go to `skipped` with the zero-paycheck reason. The source as written keeps them in the pool with Infinity weeks and velocity 0 (lib/sequencer.ts:79-81, 114) and may place them. The paycheck field accepts 0 (app/components/ProfileBar.tsx:56).
- Scheduler.Run: the loop's `slotWaitingFor` record (lib/sequencer.ts:122) is never read, so it is not modelled.
- Scheduler.FindBestCandidate: the source starts with `bestVelocity = -1`. The model encodes that sentinel as `bestIdx == -1`; the two agree because velocities are never negative.
- Schedule.SlotEntry: a placement carries the whole offer rather than the copied fields (`bank_name`, `bonus_amount`, …) that `SequencedBonus` lists.
- Feasibility.Evaluate: the paycheck is a whole number of dollars. Fractional and negative paychecks are not modelled.
- Keys.KeyInjective: it holds only for non-negative cycles. For a negative cycle, `String(n)` adds a '-' and two keys could collide. The scheduler's cycles start at 1 and only increase.
- Roadmap.ChainedDateIsStartDate: it needs the (offer, cycle) to be placed at most once. runSequencer guarantees that for an id whose catalog entries are all lifetime or all churnable, but not for an id whose entries mix the two.
- Roadmap.BuildChainedDates: when a key repeats within a slot, the state the model describes is the source's (the later placement's date wins). Only the last placement's date is characterised.

## Findings

| source | as written | input that shows it | evidently intended | confidence | as-written member | corrected member |
|---|---|---|---|---|---|---|
| lib/sequencer.ts:78-81 | the deposit count is `Math.ceil(totalMin / paycheck)` with no guard for a zero paycheck, which gives Infinity; the offer is returned feasible with `weeksToComplete` Infinity (its velocity is then 0) | an offer with a direct-deposit total, no explicit count and no window (such as 316 Financial), with a $0 paycheck (the paycheck field accepts 0) | such an offer is infeasible, since no number of $0 deposits reaches the total | not executed | Feasibility.EvaluateAsWritten, Feasibility.ZeroPaycheckCounterexample | Feasibility.Evaluate (with Feasibility.FeasibleDerivedCountReachesTotal) |

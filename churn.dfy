/** lib/churn.ts: an offer's eligibility given the user's completion history.
    Dates are day numbers; "today" and calendar-month addition are parameters. */
module Churn {
  import opened Wrappers

  type Day = int

  /** One completion record. `closedDate == None` while the account is still open. */
  datatype CompletedBonus = CompletedBonus(
    id: string,
    userId: string,
    bonusId: string,
    openedDate: Day,
    closedDate: Option<Day>,
    bonusReceived: bool)

  datatype ChurnStatus =
    | Available
    | InProgress(openedDate: Day, recordId: string)
    | InCooldown(availableDate: Day, daysRemaining: int, closedDate: Day)
    | Lifetime

  /** Calendar-month addition (`setMonth(getMonth() + n)`) is this parameter's job. */
  type AddMonths = (Day, nat) -> Day

  /** Adding at least one month moves a date strictly forward. */
  ghost predicate MovesForward(addMonths: AddMonths)
  {
    forall d: Day, n: nat :: n > 0 ==> addMonths(d, n) > d
  }

  predicate IsOpen(r: CompletedBonus) { r.closedDate.None? }

  ghost predicate HasRecord(records: seq<CompletedBonus>, bonusId: string)
  {
    exists r :: r in records && r.bonusId == bonusId
  }

  ghost predicate HasOpenRecord(records: seq<CompletedBonus>, bonusId: string)
  {
    exists r :: r in records && r.bonusId == bonusId && IsOpen(r)
  }

  /** The records of this offer, in input order. */
  function RecordsFor(bonusId: string, records: seq<CompletedBonus>): (rs: seq<CompletedBonus>)
    ensures forall r :: r in rs <==> r in records && r.bonusId == bonusId
    ensures forall k :: 0 <= k < |rs| ==> rs[k].bonusId == bonusId
  {
    if records == [] then []
    else if records[0].bonusId == bonusId then [records[0]] + RecordsFor(bonusId, records[1..])
    else RecordsFor(bonusId, records[1..])
  }

  /** The first record whose account is still open. */
  function FirstOpen(rs: seq<CompletedBonus>): (r: Option<CompletedBonus>)
    ensures r.None? <==> forall x :: x in rs ==> !IsOpen(x)
    ensures r.Some? ==> exists i :: 0 <= i < |rs| && rs[i] == r.value && IsOpen(rs[i])
                          && forall j :: 0 <= j < i ==> !IsOpen(rs[j])
  {
    if rs == [] then None
    else if IsOpen(rs[0]) then Some(rs[0])
    else
      var r := FirstOpen(rs[1..]);
      if r.Some? then
        var i :| 0 <= i < |rs[1..]| && rs[1..][i] == r.value && IsOpen(rs[1..][i])
                 && forall j :: 0 <= j < i ==> !IsOpen(rs[1..][j]);
        assert rs[i + 1] == r.value;
        r
      else r
  }

  /** The closed record that a stable sort by `closed_date`, latest first, puts at the
      front: a latest close, the first such one in input order (MostRecentClosedIsLatest). */
  function MostRecentClosed(rs: seq<CompletedBonus>): (r: Option<CompletedBonus>)
    ensures r.Some? ==> r.value in rs && !IsOpen(r.value)
  {
    if rs == [] then None
    else
      var rest := MostRecentClosed(rs[1..]);
      if !IsOpen(rs[0]) && (rest.None? || rest.value.closedDate.value <= rs[0].closedDate.value)
      then Some(rs[0])
      else rest
  }

  /** The record a stable sort, latest close first, puts in front: absent exactly when
      every record is open; otherwise a closed record whose date is the latest, and no
      earlier record in the input closed on that date. */
  lemma MostRecentClosedIsLatest(rs: seq<CompletedBonus>)
    ensures MostRecentClosed(rs).None? <==> forall x :: x in rs ==> IsOpen(x)
    ensures MostRecentClosed(rs).Some? ==>
              var r := MostRecentClosed(rs).value;
              && !IsOpen(r)
              && (forall x :: x in rs && !IsOpen(x) ==> x.closedDate.value <= r.closedDate.value)
              && exists i :: 0 <= i < |rs| && rs[i] == r
                   && forall j :: 0 <= j < i && !IsOpen(rs[j]) ==> rs[j].closedDate.value < r.closedDate.value
  {
    MostRecentClosedAbsent(rs);
    MostRecentClosedMax(rs);
    MostRecentClosedFirst(rs);
  }

  lemma {:induction false} MostRecentClosedAbsent(rs: seq<CompletedBonus>)
    ensures MostRecentClosed(rs).None? <==> forall x :: x in rs ==> IsOpen(x)
  {
    if rs != [] {
      MostRecentClosedAbsent(rs[1..]);
      assert forall x :: x in rs ==> x == rs[0] || x in rs[1..];
    }
  }

  lemma {:induction false} MostRecentClosedMax(rs: seq<CompletedBonus>)
    ensures MostRecentClosed(rs).Some? ==>
              forall x :: x in rs && !IsOpen(x) ==> x.closedDate.value <= MostRecentClosed(rs).value.closedDate.value
  {
    if rs != [] {
      MostRecentClosedMax(rs[1..]);
      MostRecentClosedAbsent(rs[1..]);
      assert forall x :: x in rs ==> x == rs[0] || x in rs[1..];
    }
  }

  lemma {:induction false} MostRecentClosedFirst(rs: seq<CompletedBonus>)
    ensures MostRecentClosed(rs).Some? ==>
              exists i :: 0 <= i < |rs| && rs[i] == MostRecentClosed(rs).value
                && forall j :: 0 <= j < i && !IsOpen(rs[j]) ==> rs[j].closedDate.value < MostRecentClosed(rs).value.closedDate.value
  {
    if rs != [] {
      var rest := MostRecentClosed(rs[1..]);
      if MostRecentClosed(rs) == Some(rs[0]) {
        assert rs[0] == MostRecentClosed(rs).value;
      } else if rest.Some? {
        MostRecentClosedFirst(rs[1..]);
        var r := rest.value;
        var i :| 0 <= i < |rs[1..]| && rs[1..][i] == r
                 && forall j :: 0 <= j < i && !IsOpen(rs[1..][j]) ==> rs[1..][j].closedDate.value < r.closedDate.value;
        assert rs[i + 1] == r;
        forall j | 0 <= j < i + 1 && !IsOpen(rs[j]) ensures rs[j].closedDate.value < r.closedDate.value {
          if j > 0 { assert rs[j] == rs[1..][j - 1]; }
        }
      }
    }
  }

  /** `getChurnStatus`. */
  function GetChurnStatus(bonusId: string, cooldownMonths: Option<nat>, completedRecords: seq<CompletedBonus>,
                          today: Day, addMonths: AddMonths): (st: ChurnStatus)
    ensures st.InCooldown? ==> st.daysRemaining >= 1 && st.availableDate == today + st.daysRemaining
    ensures st != Available ==> HasRecord(completedRecords, bonusId)
  {
    var records := RecordsFor(bonusId, completedRecords);
    if |records| == 0 then Available
    else
      match FirstOpen(records)
      case Some(open) => InProgress(open.openedDate, open.id)
      case None =>
        if cooldownMonths.None? then Lifetime
        else
          match MostRecentClosed(records)
          case None => Available
          case Some(last) =>
            var availableDate := addMonths(last.closedDate.value, cooldownMonths.value);
            if availableDate <= today then Available
            else InCooldown(availableDate, availableDate - today, last.closedDate.value)
  }

  /** `d` is the latest `closed_date` among the offer's closed records. */
  ghost predicate IsLatestClose(records: seq<CompletedBonus>, bonusId: string, d: Day)
  {
    && (exists r :: r in records && r.bonusId == bonusId && r.closedDate == Some(d))
    && forall r :: r in records && r.bonusId == bonusId && !IsOpen(r) ==> r.closedDate.value <= d
  }

  /** The first open record of the filtered list is the first open record for the
      offer in the input. */
  lemma {:induction false} FirstOpenIsFirstForOffer(bonusId: string, records: seq<CompletedBonus>)
    ensures FirstOpen(RecordsFor(bonusId, records)).Some? ==>
              exists i :: 0 <= i < |records| && records[i] == FirstOpen(RecordsFor(bonusId, records)).value
                && records[i].bonusId == bonusId && IsOpen(records[i])
                && forall j :: 0 <= j < i && records[j].bonusId == bonusId ==> !IsOpen(records[j])
  {
    if records != [] {
      var rest := records[1..];
      if records[0].bonusId == bonusId && IsOpen(records[0]) {
        assert RecordsFor(bonusId, records)[0] == records[0];
      } else {
        FirstOpenSkips(bonusId, records);
        FirstOpenIsFirstForOffer(bonusId, rest);
        if FirstOpen(RecordsFor(bonusId, rest)).Some? {
          var r := FirstOpen(RecordsFor(bonusId, rest)).value;
          var i :| 0 <= i < |rest| && rest[i] == r && rest[i].bonusId == bonusId && IsOpen(rest[i])
                   && forall j :: 0 <= j < i && rest[j].bonusId == bonusId ==> !IsOpen(rest[j]);
          FirstOpenBehindHead(bonusId, records, i);
        }
      }
    }
  }

  /** The first open record of the offer after a head that is not one is the first
      open record of the offer in the whole list. */
  lemma FirstOpenBehindHead(bonusId: string, records: seq<CompletedBonus>, i: nat)
    requires records != [] && !(records[0].bonusId == bonusId && IsOpen(records[0]))
    requires i < |records| - 1
    requires forall j :: 0 <= j < i && records[1..][j].bonusId == bonusId ==> !IsOpen(records[1..][j])
    ensures forall j :: 0 <= j < i + 1 && records[j].bonusId == bonusId ==> !IsOpen(records[j])
  {
    forall j | 0 <= j < i + 1 && records[j].bonusId == bonusId ensures !IsOpen(records[j]) {
      if j > 0 { assert records[j] == records[1..][j - 1]; }
    }
  }

  /** A first record that is not an open one for this offer does not change the result. */
  lemma FirstOpenSkips(bonusId: string, records: seq<CompletedBonus>)
    requires records != [] && !(records[0].bonusId == bonusId && IsOpen(records[0]))
    ensures FirstOpen(RecordsFor(bonusId, records)) == FirstOpen(RecordsFor(bonusId, records[1..]))
  {
    var fs := RecordsFor(bonusId, records);
    if records[0].bonusId == bonusId {
      assert fs == [records[0]] + RecordsFor(bonusId, records[1..]);
      assert fs[1..] == RecordsFor(bonusId, records[1..]);
    }
  }

  /** The four states and their precedence: an open record wins over everything, a
      lifetime offer with history is exhausted, and otherwise the latest close plus
      the cooldown decides between cooling down (at least one day left) and available. */
  lemma ChurnStatusClassifies(bonusId: string, cooldownMonths: Option<nat>, records: seq<CompletedBonus>,
                              today: Day, addMonths: AddMonths)
    ensures var st := GetChurnStatus(bonusId, cooldownMonths, records, today, addMonths);
      && (!HasRecord(records, bonusId) ==> st == Available)
      && (st.InProgress? <==> HasOpenRecord(records, bonusId))
      && (st.InProgress? ==>
            exists i :: 0 <= i < |records| && records[i].bonusId == bonusId && IsOpen(records[i])
              && st == InProgress(records[i].openedDate, records[i].id)
              && forall j :: 0 <= j < i && records[j].bonusId == bonusId ==> !IsOpen(records[j]))
      && (st == Lifetime <==>
            HasRecord(records, bonusId) && !HasOpenRecord(records, bonusId) && cooldownMonths.None?)
      && (st.InCooldown? ==>
            && cooldownMonths.Some?
            && IsLatestClose(records, bonusId, st.closedDate)
            && st.availableDate == addMonths(st.closedDate, cooldownMonths.value)
            && st.daysRemaining == st.availableDate - today
            && st.daysRemaining >= 1)
      && (st == Available <==>
            !HasRecord(records, bonusId)
            || (!HasOpenRecord(records, bonusId) && cooldownMonths.Some?
                && exists d :: IsLatestClose(records, bonusId, d) && addMonths(d, cooldownMonths.value) <= today))
  {
    var rs := RecordsFor(bonusId, records);
    var st := GetChurnStatus(bonusId, cooldownMonths, records, today, addMonths);
    FirstOpenIsFirstForOffer(bonusId, records);
    MostRecentClosedIsLatest(rs);
    if |rs| > 0 {
      assert rs[0] in rs;
      if FirstOpen(rs).None? && cooldownMonths.Some? {
        var last := MostRecentClosed(rs).value;
        assert IsLatestClose(records, bonusId, last.closedDate.value);
        forall d | IsLatestClose(records, bonusId, d) ensures d == last.closedDate.value {
          var r :| r in records && r.bonusId == bonusId && r.closedDate == Some(d);
          assert r in rs;
        }
      }
    }
  }

  /** Only the set of records matters for the classification, not their order (the
      open record reported by InProgress is the first one, so only the variant is fixed). */
  lemma StatusIgnoresRecordOrder(bonusId: string, cooldownMonths: Option<nat>,
                                 records1: seq<CompletedBonus>, records2: seq<CompletedBonus>,
                                 today: Day, addMonths: AddMonths)
    requires multiset(records1) == multiset(records2)
    ensures GetChurnStatus(bonusId, cooldownMonths, records1, today, addMonths).InProgress? ==
            GetChurnStatus(bonusId, cooldownMonths, records2, today, addMonths).InProgress?
    ensures !GetChurnStatus(bonusId, cooldownMonths, records1, today, addMonths).InProgress? ==>
            GetChurnStatus(bonusId, cooldownMonths, records1, today, addMonths) ==
            GetChurnStatus(bonusId, cooldownMonths, records2, today, addMonths)
  {
    assert forall r :: r in records1 <==> r in records2 by {
      forall r ensures r in records1 <==> r in records2 {
        assert r in records1 <==> r in multiset(records1);
        assert r in records2 <==> r in multiset(records2);
      }
    }
    ChurnStatusClassifies(bonusId, cooldownMonths, records1, today, addMonths);
    ChurnStatusClassifies(bonusId, cooldownMonths, records2, today, addMonths);
    var st1 := GetChurnStatus(bonusId, cooldownMonths, records1, today, addMonths);
    var st2 := GetChurnStatus(bonusId, cooldownMonths, records2, today, addMonths);
    assert HasRecord(records1, bonusId) == HasRecord(records2, bonusId);
    assert HasOpenRecord(records1, bonusId) == HasOpenRecord(records2, bonusId);
    assert forall d :: IsLatestClose(records1, bonusId, d) == IsLatestClose(records2, bonusId, d);
    if st1.InCooldown? && st2.InCooldown? {
      LatestCloseUnique(records1, bonusId, st1.closedDate, st2.closedDate);
    }
  }

  lemma LatestCloseUnique(records: seq<CompletedBonus>, bonusId: string, d1: Day, d2: Day)
    requires IsLatestClose(records, bonusId, d1) && IsLatestClose(records, bonusId, d2)
    ensures d1 == d2
  {
    var r1 :| r1 in records && r1.bonusId == bonusId && r1.closedDate == Some(d1);
    var r2 :| r2 in records && r2.bonusId == bonusId && r2.closedDate == Some(d2);
  }

  /** A churnable offer closed no earlier than today is still cooling down, when adding
      months moves dates forward. */
  lemma RecentCloseIsCoolingDown(bonusId: string, months: nat, records: seq<CompletedBonus>,
                                 today: Day, addMonths: AddMonths, d: Day)
    requires MovesForward(addMonths) && months > 0
    requires !HasOpenRecord(records, bonusId) && IsLatestClose(records, bonusId, d) && d >= today
    ensures GetChurnStatus(bonusId, Some(months), records, today, addMonths).InCooldown?
  {
    ChurnStatusClassifies(bonusId, Some(months), records, today, addMonths);
  }
}

/** Joint business days, modified following, and T+2 settlement (business_calendar.cpp). */
module BusinessDays {
  import opened Wrappers
  import opened Ordering
  import opened Values
  import opened Calendar

  datatype HolidayCalendarError = DuplicateHoliday

  datatype SettlementDateError = DateOutOfRange | NoJointBusinessDayInMonth

  datatype HolidayCalendarData = HolidayCalendar(holidays: seq<IsoDate>)

  predicate Increasing(s: seq<IsoDate>) {
    forall i, j :: 0 <= i < j < |s| ==> s[i] < s[j]
  }

  /** The holidays are in order and none is listed twice. */
  type HolidayCalendar = c: HolidayCalendarData | Increasing(c.holidays) witness HolidayCalendar([])

  predicate Nondecreasing(s: seq<IsoDate>) {
    forall i, j :: 0 <= i < j < |s| ==> s[i] <= s[j]
  }

  function InsertDate(s: seq<IsoDate>, d: IsoDate): seq<IsoDate> {
    if s == [] || s[|s| - 1] <= d then s + [d] else InsertDate(s[..|s| - 1], d) + [s[|s| - 1]]
  }

  lemma AppendLatest(s: seq<IsoDate>, d: IsoDate)
    requires Nondecreasing(s) && (s != [] ==> s[|s| - 1] <= d)
    ensures Nondecreasing(s + [d])
  {
    forall i | 0 <= i < |s| ensures s[i] <= d { if i < |s| - 1 { assert s[i] <= s[|s| - 1]; } }
  }

  lemma {:induction false} InsertedInOrder(s: seq<IsoDate>, d: IsoDate)
    requires Nondecreasing(s)
    ensures Nondecreasing(InsertDate(s, d)) && InsertDate(s, d) != []
    ensures InsertDate(s, d)[|InsertDate(s, d)| - 1] == if s == [] || s[|s| - 1] <= d then d else s[|s| - 1]
  {
    if s == [] || s[|s| - 1] <= d {
      AppendLatest(s, d);
    } else {
      var front, last := s[..|s| - 1], s[|s| - 1];
      InsertedInOrder(front, d);
      assert front != [] ==> front[|front| - 1] <= last;
      AppendLatest(InsertDate(front, d), last);
    }
  }

  lemma {:induction false} InsertedOnce(s: seq<IsoDate>, d: IsoDate)
    ensures multiset(InsertDate(s, d)) == multiset(s + [d])
  {
    if s != [] && s[|s| - 1] > d {
      var front, last := s[..|s| - 1], s[|s| - 1];
      InsertedOnce(front, d);
      assert s == front + [last];
    }
  }

  /** A stand-in for std::sort. */
  method SortDates(dates: seq<IsoDate>) returns (r: seq<IsoDate>)
    ensures Nondecreasing(r) && multiset(r) == multiset(dates)
  {
    hide Nondecreasing, InsertDate;
    r := [];
    assert Nondecreasing([]) by { NothingInOrder(); }
    for i := 0 to |dates|
      invariant Nondecreasing(r) && multiset(r) == multiset(dates[..i])
    {
      InsertedInOrder(r, dates[i]);
      InsertedOnce(r, dates[i]);
      r := InsertDate(r, dates[i]);
      assert dates[..i + 1] == dates[..i] + [dates[i]];
    }
    assert dates[..|dates|] == dates;
  }

  lemma NothingInOrder()
    ensures Nondecreasing([])
  {
  }

  method CreateHolidayCalendar(holidays: seq<IsoDate>) returns (r: Outcome<HolidayCalendar, HolidayCalendarError>)
    ensures r.Success? <==> Distinct(holidays)
    ensures r.Success? ==> multiset(r.value.holidays) == multiset(holidays)
  {
    var sorted := SortDates(holidays);
    SameMultiset(sorted, holidays);
    var i := 0;
    while i + 1 < |sorted|
      invariant 0 <= i
      invariant forall j :: 0 <= j < i && j + 1 < |sorted| ==> sorted[j] != sorted[j + 1]
    {
      if sorted[i] == sorted[i + 1] {
        assert !Distinct(sorted);
        return Failure(DuplicateHoliday);
      }
      i := i + 1;
    }
    StepsIncrease(sorted);
    return Success(HolidayCalendarData.HolidayCalendar(sorted));
  }

  lemma {:induction false} DistinctCounts<T>(s: seq<T>)
    ensures Distinct(s) <==> forall x :: x in s ==> multiset(s)[x] == 1
  {
    if s == [] {
    } else {
      var front, last := s[..|s| - 1], s[|s| - 1];
      assert s == front + [last];
      DistinctCounts(front);
      if Distinct(s) {
        ElementsStep(front, last);
      } else if Distinct(front) {
        var i, j :| 0 <= i < j < |s| && s[i] == s[j];
        assert last in front by { assert j == |front| && front[i] == last; }
        assert multiset(s)[last] == multiset(front)[last] + 1;
      } else {
        var x :| x in front && multiset(front)[x] != 1;
        assert x in s && multiset(s)[x] >= multiset(front)[x] > 1;
      }
    }
  }

  lemma SameMultiset(a: seq<IsoDate>, b: seq<IsoDate>)
    requires multiset(a) == multiset(b)
    ensures Distinct(a) <==> Distinct(b)
  {
    DistinctCounts(a);
    DistinctCounts(b);
    assert forall x :: x in a <==> x in multiset(a);
    assert forall x :: x in b <==> x in multiset(b);
  }

  lemma StepsIncrease(s: seq<IsoDate>)
    requires Nondecreasing(s) && forall j :: 0 <= j < |s| - 1 ==> s[j] != s[j + 1]
    ensures Increasing(s) && Distinct(s)
  {
    forall i, j | 0 <= i < j < |s| ensures s[i] < s[j] { assert s[i] <= s[i + 1] && s[i] != s[i + 1]; }
  }

  // Business days

  /** Saturday or Sunday; day zero was a Thursday. */
  predicate IsWeekend(d: IsoDate) {
    var weekday := (d + 4) % 7;
    weekday == 6 || weekday == 0
  }

  predicate IsBusinessDay(c: HolidayCalendar, d: IsoDate) {
    !IsWeekend(d) && d !in c.holidays
  }

  predicate IsJoint(d: IsoDate, first: HolidayCalendar, second: HolidayCalendar) {
    IsBusinessDay(first, d) && IsBusinessDay(second, d)
  }

  /** Joint business days avoid both calendars' holidays and, counting from Thursday 1970-01-01, days three and four. */
  lemma JointIff(d: IsoDate, first: HolidayCalendar, second: HolidayCalendar)
    ensures IsJoint(d, first, second) <==>
              (d - 2) % 7 != 0 && (d - 3) % 7 != 0 && d !in first.holidays && d !in second.holidays
  {
  }

  function OffsetDate(d: IsoDate, offset: int32): Outcome<IsoDate, SettlementDateError> {
    if MINIMUM_EPOCH_DAY <= d + offset <= MAXIMUM_EPOCH_DAY then Success(d + offset) else Failure(DateOutOfRange)
  }

  /** The month name, January to December. */
  function MonthName(d: IsoDate): nat {
    MonthOf(d) % 12
  }

  // Modified following

  predicate NoneFrom(low: int, high: int, first: HolidayCalendar, second: HolidayCalendar) {
    forall e: IsoDate :: low <= e < high ==> !IsJoint(e, first, second)
  }

  /** The nearest joint business day ahead in the month, else the nearest behind in it, else none. */
  ghost predicate IsModifiedFollowing(d: IsoDate, first: HolidayCalendar, second: HolidayCalendar,
          r: Outcome<IsoDate, SettlementDateError>)
  {
    match r
    case Success(x) =>
      && IsJoint(x, first, second) && MonthOf(x) == MonthOf(d)
      && if x >= d then NoneFrom(d, x, first, second)
          else NoneFrom(x as int + 1, MonthStart(MonthOf(d) + 1), first, second)
    case Failure(e) =>
      e == NoJointBusinessDayInMonth && NoneFrom(MonthStart(MonthOf(d)), MonthStart(MonthOf(d) + 1), first, second)
  }

  lemma DayAhead(d: IsoDate, x: IsoDate)
    requires d <= x && MonthOf(x) == MonthOf(d)
    ensures var next := OffsetDate(x, 1);
            if next.Failure? || MonthName(next.value) != MonthName(d) then x + 1 >= MonthStart(MonthOf(d) + 1)
                || x == MAXIMUM_EPOCH_DAY
            else MonthOf(next.value) == MonthOf(d)
  {
    if x < MAXIMUM_EPOCH_DAY { NextDay(x); }
  }

  lemma DayBehind(d: IsoDate, x: IsoDate)
    requires x <= d && MonthOf(x) == MonthOf(d)
    ensures var previous := OffsetDate(x, -1);
            if previous.Failure? || MonthName(previous.value) != MonthName(d) then x <= MonthStart(MonthOf(d))
            else MonthOf(previous.value) == MonthOf(d)
  {
    if x > MINIMUM_EPOCH_DAY {
      NextDay(x - 1);
    } else {
      if MonthOf(d) > 0 { StartsIncrease(0, MonthOf(d)); }
    }
  }

  method AdjustModifiedFollowing(d: IsoDate, first: HolidayCalendar,
          second: HolidayCalendar) returns (r: Outcome<IsoDate, SettlementDateError>)
    ensures IsModifiedFollowing(d, first, second, r)
  {
    hide MonthOf, MonthStart, IsJoint;
    if IsJoint(d, first, second) {
      return Success(d);
    }
    var following: IsoDate := d;
    while true
      invariant d <= following && MonthOf(following) == MonthOf(d)
      invariant NoneFrom(d, following as int + 1, first, second)
      decreases MAXIMUM_EPOCH_DAY - following
    {
      DayAhead(d, following);
      var next := OffsetDate(following, 1);
      if next.Failure? || MonthName(next.value) != MonthName(d) {
        break;
      }
      following := next.value;
      if IsJoint(following, first, second) {
        return Success(following);
      }
    }
    assert NoneFrom(d, MonthStart(MonthOf(d) + 1), first, second);
    var preceding: IsoDate := d;
    while true
      invariant preceding <= d && MonthOf(preceding) == MonthOf(d)
      invariant NoneFrom(preceding, MonthStart(MonthOf(d) + 1), first, second)
      decreases preceding - MINIMUM_EPOCH_DAY
    {
      DayBehind(d, preceding);
      var previous := OffsetDate(preceding, -1);
      if previous.Failure? || MonthName(previous.value) != MonthName(d) {
        return Failure(NoJointBusinessDayInMonth);
      }
      preceding := previous.value;
      if IsJoint(preceding, first, second) {
        return Success(preceding);
      }
    }
  }

  /** The adjustment is determined: no two outcomes satisfy its description. */
  lemma ModifiedFollowingIsUnique(d: IsoDate, first: HolidayCalendar, second: HolidayCalendar,
                                  a: Outcome<IsoDate, SettlementDateError>, b: Outcome<IsoDate, SettlementDateError>)
    requires IsModifiedFollowing(d, first, second, a) && IsModifiedFollowing(d, first, second, b)
    ensures a == b
  {
    hide IsJoint;
  }

  // T+2

  /** Joint business days after one date, up to and including another. */
  function JointDays(after: IsoDate, upTo: IsoDate, first: HolidayCalendar, second: HolidayCalendar): nat
    requires after <= upTo
    decreases upTo - after
  {
    if after == upTo then 0
    else JointDays(after, upTo - 1, first, second) + if IsJoint(upTo, first, second) then 1 else 0
  }

  /**
   The second joint business day after the trade date, which needs no adjustment; it fails only when the calendar
   runs out.
   */
  method CalculateTPlusTwo(tradeDate: IsoDate, first: HolidayCalendar,
          second: HolidayCalendar) returns (r: Outcome<IsoDate, SettlementDateError>)
    ensures r.Success? ==> r.value > tradeDate && IsJoint(r.value, first, second)
    ensures r.Success? ==> JointDays(tradeDate, r.value, first, second) == 2
    ensures r.Failure? ==> r.error == DateOutOfRange && JointDays(tradeDate, MAXIMUM_EPOCH_DAY, first, second) < 2
  {
    hide IsJoint;
    var candidate: IsoDate := tradeDate;
    var elapsed := 0;
    while elapsed < 2
      invariant candidate >= tradeDate && elapsed <= 2
      invariant elapsed == JointDays(tradeDate, candidate, first, second)
      invariant elapsed == 2 ==> candidate > tradeDate && IsJoint(candidate, first, second)
      decreases MAXIMUM_EPOCH_DAY - candidate
    {
      var next := OffsetDate(candidate, 1);
      if next.Failure? {
        return Failure(next.error);
      }
      candidate := next.value;
      if IsJoint(candidate, first, second) {
        elapsed := elapsed + 1;
      }
    }
    r := AdjustModifiedFollowing(candidate, first, second);
    AlreadyJoint(candidate, first, second, r);
  }

  /** Adjusting a joint business day changes nothing. */
  lemma AlreadyJoint(d: IsoDate, first: HolidayCalendar, second: HolidayCalendar,
          r: Outcome<IsoDate, SettlementDateError>)
    requires IsJoint(d, first, second) && IsModifiedFollowing(d, first, second, r)
    ensures r == Success(d)
  {
    ModifiedFollowingIsUnique(d, first, second, r, Success(d));
  }

  lemma {:induction false} JointDaysGrow(after: IsoDate, x: IsoDate, y: IsoDate, first: HolidayCalendar,
          second: HolidayCalendar)
    requires after <= x < y && IsJoint(y, first, second)
    ensures JointDays(after, x, first, second) < JointDays(after, y, first, second)
    decreases y
  {
    JointDaysMonotone(after, x, y - 1, first, second);
  }

  lemma {:induction false} JointDaysMonotone(after: IsoDate, x: IsoDate, y: IsoDate, first: HolidayCalendar,
          second: HolidayCalendar)
    requires after <= x <= y
    ensures JointDays(after, x, first, second) <= JointDays(after, y, first, second)
    decreases y - x
  {
    if x < y { JointDaysMonotone(after, x, y - 1, first, second); }
  }

  /** T+2 succeeds exactly when two joint business days remain, and is the only date it can be. */
  lemma TPlusTwoIsUnique(tradeDate: IsoDate, x: IsoDate, y: IsoDate, first: HolidayCalendar, second: HolidayCalendar)
    requires tradeDate <= x && tradeDate <= y
    requires IsJoint(x, first, second) && JointDays(tradeDate, x, first, second) == 2
    requires IsJoint(y, first, second) && JointDays(tradeDate, y, first, second) == 2
    ensures x == y
    ensures JointDays(tradeDate, MAXIMUM_EPOCH_DAY, first, second) >= 2
  {
    if x < y { JointDaysGrow(tradeDate, x, y, first, second); }
    if y < x { JointDaysGrow(tradeDate, y, x, first, second); }
    JointDaysMonotone(tradeDate, x, MAXIMUM_EPOCH_DAY, first, second);
  }
}

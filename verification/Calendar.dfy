/**
 The proleptic Gregorian calendar that stands behind IsoDate (date.cpp), and its
 fixed-width text.  Months are numbered from 0001-01.
 */
module Calendar {
  import opened Wrappers
  import opened Values
  import opened Decimals

  datatype DateError = InvalidFormat | OutOfRange | InvalidCalendarDate

  // Months

  predicate IsLeap(year: nat) {
    year % 4 == 0 && (year % 100 != 0 || year % 400 == 0)
  }

  function MonthLength(month: nat): (days: nat)
    ensures 28 <= days <= 31
  {
    var m := month % 12;
    if m == 1 then if IsLeap(month / 12 + 1) then 29 else 28
    else if m == 3 || m == 5 || m == 8 || m == 10 then 30
    else 31
  }

  /** The first day of a month, in epoch days. */
  function MonthStart(month: nat): int {
    if month == 0 then MINIMUM_EPOCH_DAY else MonthStart(month - 1) + MonthLength(month - 1)
  }

  lemma {:induction false} StartsIncrease(m: nat, n: nat)
    requires m < n
    ensures MonthStart(m) < MonthStart(n)
  {
    if m < n - 1 { StartsIncrease(m, n - 1); }
  }

  function MonthFrom(month: nat, day: int): (r: nat)
    requires MonthStart(month) <= day
    ensures MonthStart(r) <= day < MonthStart(r + 1)
    decreases day - MonthStart(month)
  {
    if day < MonthStart(month + 1) then month else MonthFrom(month + 1, day)
  }

  /** The month that a date lies in. */
  function MonthOf(d: IsoDate): (r: nat)
    ensures MonthStart(r) <= d < MonthStart(r + 1)
  {
    MonthFrom(0, d)
  }

  lemma MonthIsUnique(d: IsoDate, m: nat)
    requires MonthStart(m) <= d < MonthStart(m + 1)
    ensures MonthOf(d) == m
  {
    var r := MonthOf(d);
    if r < m && r + 1 < m { StartsIncrease(r + 1, m); }
    if m < r && m + 1 < r { StartsIncrease(m + 1, r); }
  }

  /** The next day lies in the same month or in the next one, so equal month names mean the same month. */
  lemma NextDay(d: IsoDate)
    requires d < MAXIMUM_EPOCH_DAY
    ensures MonthOf(d + 1) == MonthOf(d) || MonthOf(d + 1) == MonthOf(d) + 1
    ensures MonthOf(d + 1) % 12 == MonthOf(d) % 12 ==> MonthOf(d + 1) == MonthOf(d)
  {
    var m := MonthOf(d);
    if d + 1 < MonthStart(m + 1) { MonthIsUnique(d + 1, m); } else { MonthIsUnique(d + 1, m + 1); }
  }

  function LeapDays(years: nat): int {
    years / 4 - years / 100 + years / 400
  }

  lemma QuotientStep(years: nat)
    requires years > 0
    ensures years / 4 == (years - 1) / 4 + if years % 4 == 0 then 1 else 0
  {
  }

  lemma CenturyStep(years: nat)
    requires years > 0
    ensures years / 100 == (years - 1) / 100 + if years % 100 == 0 then 1 else 0
  {
  }

  lemma FourCenturyStep(years: nat)
    requires years > 0
    ensures years / 400 == (years - 1) / 400 + if years % 400 == 0 then 1 else 0
  {
  }

  lemma CenturiesDivide(years: nat)
    ensures (years % 400 == 0 ==> years % 100 == 0) && (years % 100 == 0 ==> years % 4 == 0)
  {
    var centuries, quads := years / 100, years / 400;
    if years % 400 == 0 { assert years == 100 * (4 * quads); }
    if years % 100 == 0 { assert years == 4 * (25 * centuries); }
  }

  lemma LeapDaysStep(years: nat)
    requires years > 0
    ensures LeapDays(years) == LeapDays(years - 1) + if IsLeap(years) then 1 else 0
  {
    QuotientStep(years);
    CenturyStep(years);
    FourCenturyStep(years);
    CenturiesDivide(years);
  }

  /** Whole years: 365 days each and the leap days between. */
  lemma {:induction false} YearStart(years: nat)
    ensures MonthStart(12 * years) == MINIMUM_EPOCH_DAY + 365 * years + LeapDays(years)
  {
    hide LeapDays, IsLeap;
    if years > 0 {
      YearStart(years - 1);
      YearLength(years - 1);
      LeapDaysStep(years);
    } else {
      assert LeapDays(0) == 0 by { NoLeapDays(); }
    }
  }

  lemma NoLeapDays()
    ensures LeapDays(0) == 0
  {
  }

  lemma MonthStep(m: nat)
    ensures MonthStart(m + 1) == MonthStart(m) + MonthLength(m)
  {
  }

  /** The month after the j-th of a year starts one month length later. */
  lemma MonthWithin(years: nat, j: nat)
    requires j < 12
    ensures MonthStart(12 * years + j + 1) == MonthStart(12 * years + j)
            + if j == 1 then (if IsLeap(years + 1) then 29 else 28) else if j == 3 || j == 5 || j == 8 || j == 10
                then 30 else 31
  {
    hide IsLeap;
    assert (12 * years + j) % 12 == j && (12 * years + j) / 12 == years;
  }

  lemma YearLength(years: nat)
    ensures MonthStart(12 * years + 12) == MonthStart(12 * years) + if IsLeap(years + 1) then 366 else 365
  {
    hide MonthStart, IsLeap;
    MonthWithin(years, 0);
    MonthWithin(years, 1);
    MonthWithin(years, 2);
    MonthWithin(years, 3);
    MonthWithin(years, 4);
    MonthWithin(years, 5);
    MonthWithin(years, 6);
    MonthWithin(years, 7);
    MonthWithin(years, 8);
    MonthWithin(years, 9);
    MonthWithin(years, 10);
    MonthWithin(years, 11);
  }

  /** Day zero is 1970-01-01 and the last day is 9999-12-31. */
  lemma EpochAndEnd()
    ensures MonthStart(12 * 1969) == 0
    ensures MonthStart(12 * 9999) == MAXIMUM_EPOCH_DAY + 1
  {
    hide MonthStart;
    YearStart(1969);
    YearStart(9999);
  }

  // Civil dates

  /** std::chrono::year_month_day. */
  datatype Civil = Civil(year: nat, month: nat, day: nat)
  {
    predicate Valid() {
      1 <= year <= 9999 && 1 <= month <= 12 && 1 <= day <= MonthLength(Index())
    }

    function Index(): nat
      requires year >= 1 && month >= 1
    {
      12 * (year - 1) + month - 1
    }
  }

  function ToCivil(d: IsoDate): Civil {
    var m := MonthOf(d);
    Civil(m / 12 + 1, m % 12 + 1, d - MonthStart(m) + 1)
  }

  function ToDays(c: Civil): int
    requires c.Valid()
  {
    MonthStart(c.Index()) + c.day - 1
  }

  lemma CivilIsValid(d: IsoDate)
    ensures ToCivil(d).Valid() && ToDays(ToCivil(d)) == d
  {
    hide MonthStart;
    var m := MonthOf(d);
    EpochAndEnd();
    if m >= 12 * 9999 {
      if m > 12 * 9999 { StartsIncrease(12 * 9999, m); }
      assert false;
    }
    MonthStep(m);
    assert 12 * (m / 12) + m % 12 == m;
  }

  /** Epoch days and civil dates are the same thing, both ways. */
  lemma DaysAreCivil(c: Civil)
    requires c.Valid()
    ensures MINIMUM_EPOCH_DAY <= ToDays(c) <= MAXIMUM_EPOCH_DAY && ToCivil(ToDays(c)) == c
  {
    hide MonthStart;
    var m := c.Index();
    MonthStep(m);
    FirstMonth();
    EpochAndEnd();
    if m > 0 { StartsIncrease(0, m); }
    if m + 1 < 12 * 9999 { StartsIncrease(m + 1, 12 * 9999); }
    MonthIsUnique(ToDays(c), m);
  }

  lemma FirstMonth()
    ensures MonthStart(0) == MINIMUM_EPOCH_DAY
  {
  }

  /** April, June, September and November end on the 30th, and February on the 29th of a leap year, else the 28th. */
  predicate EndsMonth(c: Civil) {
    || c.day == 31
    || (c.day == 30 && c.month in {4, 6, 9, 11})
    || (c.month == 2 && c.day == 29)
    || (c.month == 2 && c.day == 28 && !(c.year % 400 == 0 || (c.year % 4 == 0 && c.year % 100 != 0)))
  }

  function NextCivil(c: Civil): Civil {
    if !EndsMonth(c) then c.(day := c.day + 1)
    else if c.month < 12 then Civil(c.year, c.month + 1, 1)
    else Civil(c.year + 1, 1, 1)
  }

  lemma MonthLengthIs(m: nat)
    ensures MonthLength(m) == if m % 12 + 1 in {4, 6, 9, 11} then 30 else if m % 12 + 1 != 2 then 31
        else if (m / 12 + 1) % 400 == 0 || ((m / 12 + 1) % 4 == 0 && (m / 12 + 1) % 100 != 0) then 29 else 28
  {
    if (m / 12 + 1) % 400 == 0 { assert (m / 12 + 1) % 4 == 0; }
  }

  /** Counting days counts civil dates: the day after a date is the next date of the Gregorian calendar. */
  lemma DaysFollowCalendar(d: IsoDate)
    requires d < MAXIMUM_EPOCH_DAY
    ensures ToCivil(d + 1) == NextCivil(ToCivil(d))
  {
    hide MonthLength, MonthOf;
    var m := MonthOf(d);
    MonthStarts(m);
    MonthLengthIs(m);
    if d + 1 < MonthStart(m + 1) {
      MonthIsUnique(d + 1, m);
    } else {
      MonthStarts(m + 1);
      MonthIsUnique(d + 1, m + 1);
    }
  }

  lemma MonthStarts(m: nat)
    ensures MonthStart(m + 1) == MonthStart(m) + MonthLength(m)
  {
  }

  /** The day numbers of the epoch and of the first and last dates. */
  lemma FixedDays()
    ensures ToCivil(0) == Civil(1970, 1, 1)
    ensures ToCivil(-719162) == Civil(1, 1, 1) && ToCivil(2932896) == Civil(9999, 12, 31)
  {
    hide MonthStart, MonthOf;
    EpochAndEnd();
    FirstMonth();
    MonthStarts(0);
    MonthStarts(12 * 1969);
    MonthStarts(12 * 9999 - 1);
    MonthIsUnique(0, 12 * 1969);
    MonthIsUnique(MINIMUM_EPOCH_DAY, 0);
    MonthIsUnique(MAXIMUM_EPOCH_DAY, 12 * 9999 - 1);
  }

  // ISO text: yyyy-mm-dd

  function Decimal4(n: nat): string {
    [DigitChar(n / 1000 % 10), DigitChar(n / 100 % 10), DigitChar(n / 10 % 10), DigitChar(n % 10)]
  }

  function Decimal2(n: nat): string {
    [DigitChar(n / 10 % 10), DigitChar(n % 10)]
  }

  function DateText(d: IsoDate): string {
    var c := ToCivil(d);
    Decimal4(c.year) + "-" + Decimal2(c.month) + "-" + Decimal2(c.day)
  }

  /** The digits overwrite a template. */
  method WriteDate(d: IsoDate) returns (s: string)
    ensures s == DateText(d)
  {
    var c := ToCivil(d);
    s := "0000-00-00";
    s := s[0 := DigitChar(c.year / 1000 % 10)];
    s := s[1 := DigitChar(c.year / 100 % 10)];
    s := s[2 := DigitChar(c.year / 10 % 10)];
    s := s[3 := DigitChar(c.year % 10)];
    s := s[5 := DigitChar(c.month / 10 % 10)];
    s := s[6 := DigitChar(c.month % 10)];
    s := s[8 := DigitChar(c.day / 10 % 10)];
    s := s[9 := DigitChar(c.day % 10)];
  }

  predicate HasDateShape(text: string) {
    && |text| == 10 && text[4] == '-' && text[7] == '-'
    && AllDigits(text[..4]) && AllDigits(text[5..7]) && AllDigits(text[8..])
  }

  function CivilOf(text: string): Civil
    requires HasDateShape(text)
  {
    Civil(Value(text[..4]), Value(text[5..7]), Value(text[8..]))
  }

  function ParsedDate(text: string): Outcome<IsoDate, DateError> {
    if !HasDateShape(text) then Failure(InvalidFormat)
    else
      var c := CivilOf(text);
      if c.year == 0 then Failure(OutOfRange)
      else if !c.Valid() then Failure(InvalidCalendarDate)
      else
        DaysAreCivil(c);
        Success(ToDays(c))
  }

  /** The digits of a fixed window, most significant first. */
  method ParseDigits(text: string, offset: nat, count: nat) returns (result: nat)
    requires offset + count <= |text| && AllDigits(text[offset..offset + count])
    ensures result == Value(text[offset..offset + count])
  {
    ghost var window := text[offset..offset + count];
    result := 0;
    for i := 0 to count
      invariant result == Value(window[..i])
    {
      assert window[..i + 1][..i] == window[..i];
      assert text[offset + i] == window[i];
      result := result * 10 + Digit(text[offset + i]);
    }
    assert window[..count] == window;
  }

  method ParseDate(text: string) returns (r: Outcome<IsoDate, DateError>)
    ensures r == ParsedDate(text)
  {
    if |text| != 10 || text[4] != '-' || text[7] != '-' {
      return Failure(InvalidFormat);
    }
    var indexes := [0, 1, 2, 3, 5, 6, 8, 9];
    for i := 0 to 8
      invariant forall j :: 0 <= j < i ==> IsDigit(text[indexes[j]])
    {
      if !IsDigit(text[indexes[i]]) {
        assert !HasDateShape(text) by {
          assert i < 4 ==> text[..4][indexes[i]] == text[indexes[i]];
          assert 4 <= i < 6 ==> text[5..7][indexes[i] - 5] == text[indexes[i]];
          assert 6 <= i ==> text[8..][indexes[i] - 8] == text[indexes[i]];
        }
        return Failure(InvalidFormat);
      }
    }
    assert IsDigit(text[indexes[0]]) && IsDigit(text[indexes[1]]) && IsDigit(text[indexes[2]])
        && IsDigit(text[indexes[3]]);
    assert IsDigit(text[indexes[4]]) && IsDigit(text[indexes[5]]) && IsDigit(text[indexes[6]])
        && IsDigit(text[indexes[7]]);
    assert HasDateShape(text);
    assert text[8..10] == text[8..] && text[0..4] == text[..4];
    var year := ParseDigits(text, 0, 4);
    var month := ParseDigits(text, 5, 2);
    var day := ParseDigits(text, 8, 2);
    if year == 0 {
      return Failure(OutOfRange);
    }
    var parsed := Civil(year, month, day);
    if !parsed.Valid() {
      return Failure(InvalidCalendarDate);
    }
    DaysAreCivil(parsed);
    return Success(ToDays(parsed));
  }

  lemma ValueOfTwo(s: string)
    requires AllDigits(s) && |s| == 2
    ensures Value(s) == 10 * Digit(s[0]) + Digit(s[1])
    ensures s == Decimal2(Value(s))
  {
    assert s[..1][..0] == [];
    assert Value(s[..1]) == Digit(s[0]);
    hide Value;
    FourDigits(0, 0, Digit(s[0]), Digit(s[1]));
  }

  lemma FourDigits(a: nat, b: nat, c: nat, d: nat)
    requires a < 10 && b < 10 && c < 10 && d < 10
    ensures var n := 1000 * a + 100 * b + 10 * c + d;
            n / 1000 % 10 == a && n / 100 % 10 == b && n / 10 % 10 == c && n % 10 == d
  {
    var n := 1000 * a + 100 * b + 10 * c + d;
    assert n / 1000 == a && n / 100 == 10 * a + b && n / 10 == 100 * a + 10 * b + c;
  }

  lemma TextOfFour(s: string, n: nat)
    requires AllDigits(s) && |s| == 4
    requires n == 1000 * Digit(s[0]) + 100 * Digit(s[1]) + 10 * Digit(s[2]) + Digit(s[3])
    ensures s == Decimal4(n)
  {
    FourDigits(Digit(s[0]), Digit(s[1]), Digit(s[2]), Digit(s[3]));
  }

  lemma ValueOfFour(s: string)
    requires AllDigits(s) && |s| == 4
    ensures Value(s) == 1000 * Digit(s[0]) + 100 * Digit(s[1]) + 10 * Digit(s[2]) + Digit(s[3])
    ensures s == Decimal4(Value(s))
  {
    hide Decimal4, Decimal2, Digit;
    ValueOfTwo(s[..2]);
    assert s[..3][..2] == s[..2];
    assert Value(s[..3]) == 10 * Value(s[..2]) + Digit(s[2]);
    assert Value(s) == 10 * Value(s[..3]) + Digit(s[3]);
    hide Value;
    TextOfFour(s, Value(s));
  }

  lemma Recombine(n: nat)
    ensures n < 100 ==> 10 * (n / 10 % 10) + n % 10 == n
    ensures n < 10000 ==> 1000 * (n / 1000 % 10) + 100 * (n / 100 % 10) + 10 * (n / 10 % 10) + n % 10 == n
  {
    var tens, hundreds := n / 10, n / 100;
    assert n / 1000 == hundreds / 10 && hundreds == tens / 10;
  }

  /** Every date's text parses back to it. */
  lemma ParseOfDateText(d: IsoDate)
    ensures ParsedDate(DateText(d)) == Success(d)
  {
    hide MonthStart, Value, MonthLength;
    CivilIsValid(d);
    var c, text := ToCivil(d), DateText(d);
    hide ToCivil, ToDays;
    TextWindows(c);
    Recombine(c.year);
    Recombine(c.month);
    Recombine(c.day);
    ValueOfFour(text[..4]);
    ValueOfTwo(text[5..7]);
    ValueOfTwo(text[8..]);
    assert CivilOf(text) == c;
  }

  lemma TextWindows(c: Civil)
    ensures var text := Decimal4(c.year) + "-" + Decimal2(c.month) + "-" + Decimal2(c.day);
            text[..4] == Decimal4(c.year) && text[5..7] == Decimal2(c.month) && text[8..] == Decimal2(c.day)
                && HasDateShape(text)
  {
    var text := Decimal4(c.year) + "-" + Decimal2(c.month) + "-" + Decimal2(c.day);
    assert text[..4] == Decimal4(c.year) && text[5..7] == Decimal2(c.month) && text[8..] == Decimal2(c.day);
  }

  /** Any text that parses is the text of the date it gives. */
  lemma DateTextOfParse(text: string)
    requires ParsedDate(text).Success?
    ensures text == DateText(ParsedDate(text).value)
  {
    var c := CivilOf(text);
    DaysAreCivil(c);
    ValueOfFour(text[..4]);
    ValueOfTwo(text[5..7]);
    ValueOfTwo(text[8..]);
    assert text == text[..4] + "-" + text[5..7] + "-" + text[8..];
  }
}

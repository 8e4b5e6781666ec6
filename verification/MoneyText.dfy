/** Exact decimal text for money (money.cpp). */
module MoneyText {
  import opened Wrappers
  import opened Values
  import opened Decimals

  datatype MoneyError = InvalidFormat | NegativeZero | Overflow

  function Exponent(c: Currency): nat {
    match c case Usd => 2 case Jpy => 0 case Kwd => 3
  }

  // What a decimal text means

  /** An optional sign, an integer part without leading zeros, and a fraction that may be absent. */
  datatype Decimal = Decimal(negative: bool, integer: string, fraction: string)
  {
    ghost predicate Valid(c: Currency) {
      && AllDigits(integer) && AllDigits(fraction)
      && |integer| >= 1 && (|integer| > 1 ==> integer[0] != '0')
      && |fraction| <= Exponent(c)
    }

    function Spelling(): string {
      (if negative then "-" else "") + integer + if fraction == [] then [] else "." + fraction
    }
  }

  ghost predicate Spells(c: Currency, text: string, d: Decimal) {
    d.Valid(c) && text == d.Spelling()
  }

  /** The scaled decimal without its sign: an integer number of minor units of any size. */
  ghost function Magnitude(c: Currency, d: Decimal): nat
    requires d.Valid(c)
  {
    Value(d.integer + d.fraction) * Pow10(Exponent(c) - |d.fraction|)
  }

  ghost function MinorUnits(c: Currency, d: Decimal): int
    requires d.Valid(c)
  {
    if d.negative then 0 - Magnitude(c, d) else Magnitude(c, d)
  }

  ghost function Meaning(c: Currency, d: Decimal): Outcome<Money, MoneyError>
    requires d.Valid(c)
  {
    if !(INT64_MIN <= MinorUnits(c, d) <= INT64_MAX) then Failure(Overflow)
    else if d.negative && Magnitude(c, d) == 0 then Failure(NegativeZero)
    else Success(Money(c, MinorUnits(c, d)))
  }

  ghost function Parsed(c: Currency, text: string): Outcome<Money, MoneyError> {
    if exists d :: Spells(c, text, d) then
      var d :| Spells(c, text, d);
      Meaning(c, d)
    else Failure(InvalidFormat)
  }

  // A text spells at most one decimal

  /** The scanned digits are the integer part, and the rest is its tail. */
  lemma ScanFindsInteger(c: Currency, text: string, begin: nat, end: nat, d: Decimal)
    requires begin == (if text != [] && text[0] == '-' then 1 else 0)
    requires begin <= end && DigitsIn(text, begin, end) && (end < |text| ==> !IsDigit(text[end]))
    requires Spells(c, text, d)
    ensures (begin == 1 <==> d.negative) && text[begin..end] == d.integer
    ensures text[end..] == if d.fraction == [] then [] else "." + d.fraction
  {
    var sign := if d.negative then "-" else "";
    var tail := if d.fraction == [] then [] else "." + d.fraction;
    ThreeParts(text, sign, d.integer, tail);
    assert IsDigit(d.integer[0]);
    assert |sign| == begin;
    var stop := begin + |d.integer|;
    assert stop == end;
  }

  lemma ThreeParts(text: string, sign: string, integer: string, tail: string)
    requires text == sign + integer + tail
    ensures var stop := |sign| + |integer|;
            && text[..|sign|] == sign && text[|sign|..stop] == integer && text[stop..] == tail
            && (sign != [] ==> text[0] == sign[0])
            && (forall i :: |sign| <= i < stop ==> text[i] == integer[i - |sign|])
            && (stop < |text| ==> text[stop] == tail[0])
  {
  }

  lemma FractionFollows(text: string, end: nat, fraction: string)
    requires end <= |text| && AllDigits(fraction) && text[end..] == "." + fraction
    ensures |text| == end + 1 + |fraction| && text[end] == '.' && text[end + 1..] == fraction
    ensures DigitsIn(text, end + 1, |text|)
  {
    var tail := "." + fraction;
    assert text[end] == text[end..][0];
    assert tail[1..] == fraction && text[end + 1..] == text[end..][1..];
    assert forall i :: end + 1 <= i < |text| ==> text[i] == text[end + 1..][i - end - 1];
  }

  lemma OneScan(c: Currency, text: string, begin: nat, end: nat, d: Decimal)
    requires begin == (if text != [] && text[0] == '-' then 1 else 0)
    requires begin <= end && DigitsIn(text, begin, end) && (end < |text| ==> !IsDigit(text[end]))
    requires Spells(c, text, d)
    ensures d == Decimal(begin == 1, text[begin..end], FractionAfter(text, end)) && Acceptable(c, text, begin, end)
  {
    ScanFindsInteger(c, text, begin, end, d);
    assert end <= |text|;
    hide AllDigits, DigitsIn, IsDigit;
    if d.fraction != [] { FractionFollows(text, end, d.fraction); }
    assert |text[begin..end]| == |d.integer| && text[begin] == d.integer[0];
  }

  /** The text's integer part runs to end, and what follows is nothing or a point and a fraction. */
  predicate Acceptable(c: Currency, text: string, begin: nat, end: nat)
    requires begin <= end && DigitsIn(text, begin, end)
  {
    && begin < end && (end - begin > 1 ==> text[begin] != '0')
    && (end < |text| ==>
          text[end] == '.' && end + 1 < |text| <= end + 1 + Exponent(c) && DigitsIn(text, end + 1, |text|))
  }

  function FractionAfter(text: string, end: nat): string {
    if end < |text| then text[end + 1..] else []
  }

  /** Where the digits of the integer part end decides everything. */
  lemma ScanDecides(c: Currency, text: string, begin: nat, end: nat)
    requires begin == (if text != [] && text[0] == '-' then 1 else 0)
    requires begin <= end && DigitsIn(text, begin, end) && (end < |text| ==> !IsDigit(text[end]))
    ensures var d := Decimal(begin == 1, text[begin..end], FractionAfter(text, end));
            if Acceptable(c, text, begin, end) then d.Valid(c) && Parsed(c, text) == Meaning(c, d)
            else Parsed(c, text) == Failure(InvalidFormat)
  {
    hide Meaning;
    var d := Decimal(begin == 1, text[begin..end], FractionAfter(text, end));
    forall e | Spells(c, text, e) ensures e == d && Acceptable(c, text, begin, end) { OneScan(c, text, begin, end, e); }
    if Acceptable(c, text, begin, end) {
      SpellsItself(c, text, begin, end);
    }
  }

  lemma SpellsItself(c: Currency, text: string, begin: nat, end: nat)
    requires begin == (if text != [] && text[0] == '-' then 1 else 0)
    requires begin <= end && DigitsIn(text, begin, end) && Acceptable(c, text, begin, end)
    ensures Spells(c, text, Decimal(begin == 1, text[begin..end], FractionAfter(text, end)))
  {
    var sign := if begin == 1 then "-" else "";
    assert text[..begin] == sign;
    assert text == text[..begin] + text[begin..end] + text[end..];
    if end < |text| { assert text[end..] == "." + text[end + 1..]; }
  }

  // Digit strings and their values

  lemma {:induction false} PrefixIsSmaller(s: string, n: nat)
    requires AllDigits(s) && n <= |s|
    ensures Value(s[..n]) <= Value(s)
  {
    if n == |s| {
      assert s[..n] == s;
    } else {
      var front := s[..|s| - 1];
      assert front[..n] == s[..n];
      PrefixIsSmaller(front, n);
    }
  }

  /** One more zero multiplies by ten. */
  lemma Tenfold(v: nat, n: nat)
    ensures v * Pow10(n + 1) == 10 * (v * Pow10(n))
  {
    var p := Pow10(n);
    assert Pow10(n + 1) == 10 * p;
    assert v * (10 * p) == 10 * (v * p);
  }

  lemma {:induction false} PowersGrow(v: nat, m: nat, n: nat)
    requires m <= n
    ensures v * Pow10(m) <= v * Pow10(n)
  {
    hide Pow10;
    if m < n {
      PowersGrow(v, m, n - 1);
      Tenfold(v, n - 1);
    }
  }

  // Parsing

  /** Checked before it is made, so that the accumulator never wraps. */
  function AppendDigit(magnitude: uint64, digit: nat, limit: uint64): (r: Option<uint64>)
    requires digit < 10 && limit >= 9
    ensures r.Some? <==> 10 * magnitude + digit <= limit
    ensures r.Some? ==> r.value == 10 * magnitude + digit
  {
    if magnitude > (limit - digit) / 10 then None else Some(magnitude * 10 + digit)
  }

  lemma ValueAppend(s: string, ch: char)
    requires AllDigits(s) && IsDigit(ch)
    ensures AllDigits(s + [ch]) && Value(s + [ch]) == 10 * Value(s) + Digit(ch)
  {
    assert (s + [ch])[..|s|] == s;
  }

  method AppendDigits(start: uint64, before: string, digits: string, limit: uint64) returns (r: Option<uint64>)
    requires AllDigits(before) && AllDigits(digits) && start == Value(before) <= limit && limit >= 9
    ensures AllDigits(before + digits)
    ensures r.Some? ==> r.value == Value(before + digits) <= limit
    ensures r.None? ==> Value(before + digits) > limit
  {
    hide Value;
    var magnitude := start;
    assert before + digits[..0] == before;
    for i := 0 to |digits|
      invariant magnitude == Value(before + digits[..i]) <= limit
    {
      var s := before + digits[..i + 1];
      assert s == (before + digits[..i]) + [digits[i]];
      ValueAppend(before + digits[..i], digits[i]);
      var next := AppendDigit(magnitude, Digit(digits[i]), limit);
      if next.None? {
        PrefixIsSmaller(before + digits, |before| + i + 1);
        assert (before + digits)[..|before| + i + 1] == s;
        return None;
      }
      magnitude := next.value;
    }
    assert digits[..|digits|] == digits;
    return Some(magnitude);
  }

  method AppendZeros(start: uint64, count: nat, limit: uint64) returns (r: Option<uint64>)
    requires start <= limit && limit >= 9
    ensures r.Some? ==> r.value == start * Pow10(count) <= limit
    ensures r.None? ==> start * Pow10(count) > limit
  {
    hide Pow10;
    assert start * Pow10(0) == start by { ValueOfNone(); }
    var magnitude := start;
    for i := 0 to count
      invariant magnitude == start * Pow10(i) <= limit
    {
      Tenfold(start, i);
      var next := AppendDigit(magnitude, 0, limit);
      if next.None? {
        PowersGrow(start, i + 1, count);
        return None;
      }
      magnitude := next.value;
    }
    return Some(magnitude);
  }

  /** The scaled magnitude, unless it exceeds the limit. */
  method Accumulate(integer: string, fraction: string, zeros: nat, limit: uint64) returns (r: Option<uint64>)
    requires AllDigits(integer) && AllDigits(fraction) && limit >= 9
    ensures AllDigits(integer + fraction)
    ensures r.Some? ==> r.value == Value(integer + fraction) * Pow10(zeros) <= limit
    ensures r.None? ==> Value(integer + fraction) * Pow10(zeros) > limit
  {
    hide Value, Pow10;
    assert Value([]) == 0 && Pow10(0) == 1 by { ValueOfNone(); }
    assert [] + integer == integer;
    assert (integer + fraction)[..|integer|] == integer;
    var whole := AppendDigits(0, [], integer, limit);
    assert AllDigits(integer + fraction);
    PrefixIsSmaller(integer + fraction, |integer|);
    PowersGrow(Value(integer + fraction), 0, zeros);
    if whole.None? {
      return None;
    }
    var all := AppendDigits(whole.value, integer, fraction, limit);
    if all.None? {
      return None;
    }
    r := AppendZeros(all.value, zeros, limit);
  }

  lemma ValueOfNone()
    ensures Value([]) == 0 && Pow10(0) == 1
  {
  }

  /** The digits, scaled to minor units and signed. */
  method Scale(c: Currency, negative: bool, integer: string, fraction: string) returns (r: Outcome<Money, MoneyError>)
    requires Decimal(negative, integer, fraction).Valid(c)
    ensures r == Meaning(c, Decimal(negative, integer, fraction))
  {
    hide Value, Pow10;
    var limit: uint64 := if negative then 0x8000_0000_0000_0000 else 0x7FFF_FFFF_FFFF_FFFF;
    var accumulated := Accumulate(integer, fraction, Exponent(c) - |fraction|, limit);
    if accumulated.None? {
      return Failure(Overflow);
    }
    var magnitude: int := accumulated.value;
    if negative && magnitude == 0 {
      return Failure(NegativeZero);
    }
    var units: int := if negative then 0 - magnitude else magnitude;
    return Success(Money(c, units));
  }

  method ScanDigits(text: string, begin: nat) returns (position: nat)
    requires begin <= |text|
    ensures begin <= position && DigitsIn(text, begin, position)
    ensures position < |text| ==> !IsDigit(text[position])
  {
    position := begin;
    while position < |text| && IsDigit(text[position])
      invariant begin <= position && DigitsIn(text, begin, position)
    {
      position := position + 1;
    }
  }

  method Parse(c: Currency, text: string) returns (r: Outcome<Money, MoneyError>)
    ensures r == Parsed(c, text)
  {
    hide Parsed, Meaning;
    if text == [] {
      ScanDecides(c, text, 0, 0);
      return Failure(InvalidFormat);
    }
    var negative := text[0] == '-';
    var integerBegin := if negative then 1 else 0;
    var position := ScanDigits(text, integerBegin);
    ScanDecides(c, text, integerBegin, position);
    var integer := text[integerBegin..position];
    if integer == [] || (|integer| > 1 && integer[0] == '0') {
      return Failure(InvalidFormat);
    }
    ghost var end := position;
    var fraction := [];
    if position < |text| {
      if text[position] != '.' || Exponent(c) == 0 {
        return Failure(InvalidFormat);
      }
      var fractionBegin := position + 1;
      position := ScanDigits(text, fractionBegin);
      fraction := text[fractionBegin..position];
      if fraction == [] || |fraction| > Exponent(c) {
        return Failure(InvalidFormat);
      }
    }
    if position != |text| {
      return Failure(InvalidFormat);
    }
    assert fraction == FractionAfter(text, end);
    r := Scale(c, negative, integer, fraction);
  }

  // Formatting

  /** std::to_string of a non-negative integer. */
  function ToString(n: nat): (s: string)
    ensures |s| >= 1 && AllDigits(s)
  {
    if n < 10 then [DigitChar(n)] else ToString(n / 10) + [DigitChar(n % 10)]
  }

  function Zeros(n: nat): (s: string)
    ensures |s| == n && AllDigits(s)
  {
    seq(n, i => '0')
  }

  /** At least one digit in front of the fraction. */
  function Padded(digits: string, width: nat): (s: string)
    requires AllDigits(digits)
    ensures AllDigits(s) && |s| >= width && |s| >= |digits|
  {
    if |digits| < width then Zeros(width - |digits|) + digits else digits
  }

  function AbsoluteMagnitude(units: int64): uint64 {
    if units >= 0 then units else (0 - (units + 1)) + 1
  }

  function Digits(m: Money): (s: string)
    ensures AllDigits(s) && |s| > Exponent(m.currency)
  {
    Padded(ToString(AbsoluteMagnitude(m.minorUnits)), Exponent(m.currency) + 1)
  }

  /** The decimal that a formatted amount spells: its whole fraction is written out. */
  function AsDecimal(m: Money): Decimal {
    var digits, point := Digits(m), |Digits(m)| - Exponent(m.currency);
    Decimal(m.minorUnits < 0, digits[..point], digits[point..])
  }

  /** Padding, point and sign are inserted into the digits in turn. */
  method Format(m: Money) returns (s: string)
    ensures s == AsDecimal(m).Spelling()
  {
    hide ToString, Zeros, AbsoluteMagnitude, AllDigits;
    ghost var d := AsDecimal(m);
    var exponent := Exponent(m.currency);
    s := ToString(AbsoluteMagnitude(m.minorUnits));
    if exponent != 0 {
      var required := exponent + 1;
      if |s| < required {
        s := Zeros(required - |s|) + s;
      }
      assert s == Digits(m);
      s := s[..|s| - exponent] + ['.'] + s[|s| - exponent..];
      assert s == d.integer + ("." + d.fraction);
    }
    ghost var tail := if d.fraction == [] then [] else "." + d.fraction;
    assert s == d.integer + tail;
    if m.minorUnits < 0 {
      s := ['-'] + s;
      assert s == ("-" + d.integer) + tail;
    } else {
      assert s == ("" + d.integer) + tail;
    }
  }

  lemma {:induction false} ToStringValue(n: nat)
    ensures Value(ToString(n)) == n
    ensures |ToString(n)| > 1 ==> ToString(n)[0] != '0'
  {
    if n >= 10 {
      ToStringValue(n / 10);
      var s := ToString(n);
      assert s[..|s| - 1] == ToString(n / 10);
      if |s| == 2 { assert s[0] == DigitChar(n / 10); }
    }
  }

  lemma {:induction false} LeadingZeros(n: nat, s: string)
    requires AllDigits(s)
    ensures AllDigits(Zeros(n) + s) && Value(Zeros(n) + s) == Value(s)
    decreases |s|, n
  {
    var t := Zeros(n) + s;
    if s != [] {
      LeadingZeros(n, s[..|s| - 1]);
      assert t[..|t| - 1] == Zeros(n) + s[..|s| - 1];
    } else if n > 0 {
      assert t[..n - 1] == Zeros(n - 1) + [];
      assert t == Zeros(n) && t[n - 1] == '0';
      LeadingZeros(n - 1, []);
    } else {
      assert t == [];
    }
  }

  lemma PaddedValue(t: string, width: nat)
    requires AllDigits(t) && t != [] && (|t| > 1 ==> t[0] != '0')
    ensures Value(Padded(t, width)) == Value(t)
    ensures |Padded(t, width)| > width && |Padded(t, width)| > 1 ==> Padded(t, width)[0] != '0'
  {
    hide Value, Zeros;
    if |t| < width { LeadingZeros(width - |t|, t); }
  }

  lemma FormatIsValid(m: Money)
    ensures AsDecimal(m).Valid(m.currency)
    ensures Magnitude(m.currency, AsDecimal(m)) == AbsoluteMagnitude(m.minorUnits)
        && (AsDecimal(m).negative <==> m.minorUnits < 0)
  {
    hide ToString, Padded, Value, AbsoluteMagnitude;
    ToStringValue(AbsoluteMagnitude(m.minorUnits));
    PaddedValue(ToString(AbsoluteMagnitude(m.minorUnits)), Exponent(m.currency) + 1);
    var d := AsDecimal(m);
    assert d.integer + d.fraction == Digits(m);
    assert Pow10(0) == 1;
  }

  /** Parsing what was formatted gives the amount back, for every amount and currency. */
  lemma ParseOfFormat(m: Money)
    ensures Parsed(m.currency, AsDecimal(m).Spelling()) == Success(m)
  {
    hide Magnitude, AsDecimal;
    FormatIsValid(m);
    ParsedIs(m.currency, AsDecimal(m).Spelling(), AsDecimal(m));
  }

  lemma ParsedIs(c: Currency, text: string, d: Decimal)
    requires Spells(c, text, d)
    ensures Parsed(c, text) == Meaning(c, d)
  {
    hide Meaning;
    var begin := if d.negative then 1 else 0;
    var end := begin + |d.integer|;
    assert forall i :: begin <= i < end ==> text[i] == d.integer[i - begin];
    forall e | Spells(c, text, e) ensures e == d {
      OneScan(c, text, begin, end, e);
      OneScan(c, text, begin, end, d);
    }
  }

  /** Parsing overflows exactly on the well-formed decimals whose scaled value is outside 64 bits. */
  lemma OverflowIff(c: Currency, text: string)
    ensures Parsed(c, text) == Failure(Overflow) <==>
            exists d :: Spells(c, text, d) && !(INT64_MIN <= MinorUnits(c, d) <= INT64_MAX)
  {
    hide MinorUnits;
    forall d | Spells(c, text, d) ensures Parsed(c, text) == Meaning(c, d) { ParsedIs(c, text, d); }
  }

  lemma ToStringStep(v: nat, d: nat)
    requires d < 10
    ensures ToString(10 * v + d) == if v == 0 then [DigitChar(d)] else ToString(v) + [DigitChar(d)]
  {
    assert (10 * v + d) / 10 == v && (10 * v + d) % 10 == d;
  }

  lemma OneMoreDigit(front: string, v: nat, last: char)
    requires front != [] && IsDigit(last)
    requires |ToString(v)| <= |front| && front == Zeros(|front| - |ToString(v)|) + ToString(v)
    ensures var t := ToString(10 * v + Digit(last));
            |t| <= |front| + 1 && front + [last] == Zeros(|front| + 1 - |t|) + t
  {
    hide ToString, DigitChar, Digit;
    DigitIsItsChar(last);
    ToStringStep(v, Digit(last));
    if v == 0 {
      ZeroIsZero();
      assert front == Zeros(|front|);
    } else {
      var zeros := Zeros(|front| - |ToString(v)|);
      assert (zeros + ToString(v)) + [last] == zeros + (ToString(v) + [last]);
    }
  }

  /** A digit string is its value written out behind zeros. */
  lemma {:induction false} ZerosThenValue(s: string)
    requires AllDigits(s) && s != []
    ensures |ToString(Value(s))| <= |s|
    ensures s == Zeros(|s| - |ToString(Value(s))|) + ToString(Value(s))
  {
    hide ToString, Zeros, DigitChar, Digit;
    var front, last := s[..|s| - 1], s[|s| - 1];
    assert s == front + [last];
    if front != [] {
      ZerosThenValue(front);
      OneMoreDigit(front, Value(front), last);
    } else {
      DigitIsItsChar(last);
      ToStringStep(0, Digit(last));
      assert Value(front) == 0;
      assert s == Zeros(0) + s;
    }
  }

  lemma ZeroIsZero()
    ensures ToString(0) == Zeros(1)
  {
  }

  /** Formatting is the one spelling with the whole fraction written out. */
  lemma FormatOfParse(c: Currency, text: string, d: Decimal, m: Money)
    requires Spells(c, text, d) && |d.fraction| == Exponent(c)
    requires Parsed(c, text) == Success(m)
    ensures text == AsDecimal(m).Spelling()
  {
    hide Parsed, ToString, Value, Zeros;
    ParsedIs(c, text, d);
    var s := d.integer + d.fraction;
    assert Pow10(0) == 1;
    assert Value(s) == AbsoluteMagnitude(m.minorUnits) && m.currency == c;
    PaddedBack(s, Exponent(c) + 1);
    assert Digits(m) == s;
    assert s[..|d.integer|] == d.integer && s[|d.integer|..] == d.fraction;
  }

  /** Padding the written value of a digit string without surplus zeros gives the string back. */
  lemma PaddedBack(s: string, width: nat)
    requires AllDigits(s) && s != [] && |s| >= width && (|s| > width ==> s[0] != '0')
    ensures Padded(ToString(Value(s)), width) == s
  {
    hide ToString, Value;
    ZerosThenValue(s);
    assert |s| > width ==> |ToString(Value(s))| == |s|;
  }

  /** A whole number of units is worth 100, 1 or 1000 minor units of the currency each. */
  lemma WholeUnits(text: string)
    requires AllDigits(text) && |text| >= 1 && (|text| > 1 ==> text[0] != '0')
    requires 1000 * Value(text) <= INT64_MAX
    ensures Parsed(Usd, text) == Success(Money(Usd, 100 * Value(text)))
    ensures Parsed(Jpy, text) == Success(Money(Jpy, Value(text)))
    ensures Parsed(Kwd, text) == Success(Money(Kwd, 1000 * Value(text)))
  {
    hide Value, Parsed;
    var d := Decimal(false, text, "");
    assert text + "" == text && "" + text + [] == text;
    assert Pow10(0) == 1 && Pow10(1) == 10 && Pow10(2) == 100 && Pow10(3) == 1000;
    ParsedIs(Usd, text, d);
    ParsedIs(Jpy, text, d);
    ParsedIs(Kwd, text, d);
  }
}

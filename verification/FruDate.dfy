/** The manufacturing date: DD-MM-YYYY text and 24-bit minutes since 1996-01-01. */
module FruDate {
  import opened Options
  import opened Bytes

  predicate IsLeap(year: int) {
    year % 4 == 0 && (year % 100 != 0 || year % 400 == 0)
  }

  function MonthDays(month: int, year: int): nat {
    if month == 2 then (if IsLeap(year) then 29 else 28)
    else if month in {4, 6, 9, 11} then 30 else 31
  }

  predicate ValidDate(day: int, month: int, year: int) {
    year >= 1996 && 1 <= month <= 12 && 1 <= day <= MonthDays(month, year)
  }

  function YearDays(year: int): nat {
    if IsLeap(year) then 366 else 365
  }

  /** Days from 1996-01-01 to January 1st of `year`. */
  function YearStart(year: int): nat
    decreases year
  {
    if year <= 1996 then 0 else YearStart(year - 1) + YearDays(year - 1)
  }

  /** Days of `year` before the first of `month`. */
  function MonthStart(month: int, year: int): nat
    decreases month
  {
    if month <= 1 then 0 else MonthStart(month - 1, year) + MonthDays(month - 1, year)
  }

  /** The day count since 1996-01-01 that the encoding is defined by. */
  function DayNumber(day: int, month: int, year: int): int {
    YearStart(year) + MonthStart(month, year) + day - 1
  }

  const DAY := 1440
  const MASK := 0x100_0000
  const WORD := 0x1_0000_0000

  function TimeValue(time: seq<Byte>): nat
    requires |time| == 3
  {
    (time[0] as int) + 256 * (time[1] as int) + 65536 * (time[2] as int)
  }

  lemma WrappedSum(a: nat, b: nat)
    ensures (a % WORD + b) % WORD == (a + b) % WORD
    ensures a % WORD % MASK == a % MASK
  {
    var q, r := a / WORD, a % WORD;
    assert (a + b) - WORD * q == r + b;
    ModOffset(r + b, q);
    assert a == MASK * (256 * q) + r;
    ModOffsetMask(r, 256 * q);
  }

  lemma {:induction false} ModOffset(x: nat, q: nat)
    ensures (x + WORD * q) % WORD == x % WORD
  {
    if q > 0 {
      ModOffset(x, q - 1);
      assert x + WORD * q == (x + WORD * (q - 1)) + WORD;
    }
  }

  lemma {:induction false} ModOffsetMask(x: nat, q: nat)
    ensures (x + MASK * q) % MASK == x % MASK
  {
    if q > 0 {
      ModOffsetMask(x, q - 1);
      assert x + MASK * q == (x + MASK * (q - 1)) + MASK;
    }
  }

  lemma {:induction false} CommonMonthStart(month: nat, year: int)
    requires 1 <= month <= 13
    ensures MonthStart(month, year) == MonthStart(month, 1997) + (if month > 2 && IsLeap(year) then 1 else 0)
  {
    if month > 1 {
      CommonMonthStart(month - 1, year);
    }
  }

  /** The days_per_month table, for a common year. */
  function DaysPerMonth(month: int): (n: nat)
    requires 1 <= month <= 12
    ensures forall year :: MonthDays(month, year) == n + (if month == 2 && IsLeap(year) then 1 else 0)
    ensures n >= 28
  {
    [0, 31, 28, 31, 30, 31, 30, 31, 31, 30, 31, 30, 31][month]
  }

  /** Minutes up to January 1st, in a 32-bit word. */
  method YearMinutes(year: int) returns (minutes: int, isLeapYear: bool)
    requires year >= 1996
    ensures minutes == DAY * YearStart(year) % WORD && isLeapYear == IsLeap(year)
  {
    minutes, isLeapYear := 0, true;
    var i := 1996;
    while i < year
      invariant 1996 <= i <= year && isLeapYear == IsLeap(i)
      invariant minutes == DAY * YearStart(i) % WORD
    {
      WrappedSum(DAY * YearStart(i), (if isLeapYear then 366 else 365) * DAY);
      minutes := (minutes + (if isLeapYear then 366 else 365) * DAY) % WORD;
      i := i + 1;
      isLeapYear := i % 4 == 0 && (i % 100 != 0 || i % 400 == 0);
    }
  }

  lemma MonthAdvance(month: nat, year: int)
    requires month <= 12
    ensures MonthStart(1, year) == 0
    ensures month >= 1 ==>
              MonthStart(month + 1, year)
              == MonthStart(month, year) + DaysPerMonth(month) + (if month == 2 && IsLeap(year) then 1 else 0)
    ensures !IsLeap(1997)
  {
    hide DaysPerMonth, MonthDays;
  }

  /** Adds the months before `month`. */
  method AddMonths(start: int, ghost base: nat, month: int, isLeapYear: bool, ghost year: int) returns (minutes: int)
    requires 1 <= month <= 12 && start == DAY * base % WORD && isLeapYear == IsLeap(year)
    ensures minutes == DAY * (base + MonthStart(month, year)) % WORD
  {
    hide DaysPerMonth, MonthDays, MonthStart, IsLeap;
    minutes := start;
    var i := 1;
    MonthAdvance(0, 1997);
    while i < month
      invariant 1 <= i <= month
      invariant minutes == DAY * (base + MonthStart(i, 1997)) % WORD
    {
      WrappedSum(DAY * (base + MonthStart(i, 1997)), DaysPerMonth(i) * DAY);
      MonthAdvance(i, 1997);
      minutes := (minutes + DaysPerMonth(i) * DAY) % WORD;
      i := i + 1;
    }
    CommonMonthStart(month, year);
    if month > 2 && isLeapYear {
      WrappedSum(DAY * (base + MonthStart(month, 1997)), DAY);
      minutes := (minutes + DAY) % WORD;
    }
  }

  /** date_to_ipmi_time. Day 0 of the encoding (and what wraps to it) is refused. */
  method DateToTime(day: int, month: int, year: int) returns (ok: bool, time: seq<Byte>)
    requires 1 <= month <= 12 && 1 <= day <= 31
    ensures ok <==> year >= 1996 && DAY * DayNumber(day, month, year) % MASK != 0
    ensures ok ==> |time| == 3 && TimeValue(time) == DAY * DayNumber(day, month, year) % MASK
  {
    hide YearStart, MonthStart;
    time := [];
    if year < 1996 { return false, []; }
    var minutes, isLeapYear := YearMinutes(year);
    minutes := AddMonths(minutes, YearStart(year), month, isLeapYear, year);
    WrappedSum(DAY * (YearStart(year) + MonthStart(month, year)), (day - 1) * DAY);
    minutes := (minutes + (day - 1) * DAY) % WORD;
    WrappedSum(DAY * DayNumber(day, month, year), 0);
    if minutes % MASK == 0 { return false, []; }
    ok := true;
    time := SplitMinutes(minutes);
  }

  lemma ThreeBytes(minutes: nat)
    ensures minutes % MASK == minutes % 256 + 256 * (minutes / 256 % 256) + 65536 * (minutes / 256 / 256 % 256)
  {
    var m1 := minutes / 256;
    var m2 := m1 / 256;
    var low := minutes % 256 + 256 * (m1 % 256) + 65536 * (m2 % 256);
    assert minutes == low + MASK * (m2 / 256);
    ModOffsetMask(low, m2 / 256);
  }

  /** The three bytes written, least significant first; higher bits are dropped. */
  function SplitMinutes(minutes: nat): (time: seq<Byte>)
    ensures |time| == 3 && TimeValue(time) == minutes % MASK
  {
    ThreeBytes(minutes);
    [minutes % 256, minutes / 256 % 256, minutes / 256 / 256 % 256]
  }

  lemma FourDivides(year: int)
    ensures year % 400 == 0 ==> year % 4 == 0
  {
    if year % 400 == 0 {
      var k := 100 * (year / 400);
      assert year == 4 * k;
    }
  }

  /** The leap-year test as the month walk and the parser write it. */
  function LeapTest(year: int): (r: bool)
    ensures r == IsLeap(year)
  {
    FourDivides(year);
    year % 400 == 0 || (year % 4 == 0 && year % 100 != 0)
  }

  /** ipmi_time_to_date: walks month by month from 1996-01-01. */
  method TimeToDate(time: seq<Byte>) returns (day: int, month: int, year: int)
    requires |time| == 3
    ensures ValidDate(day, month, year)
    ensures DayNumber(day, month, year) == TimeValue(time) / DAY
  {
    hide TimeValue, DaysPerMonth, MonthDays, YearStart, MonthStart, YearDays, IsLeap;
    var total_days := TimeValue(time) / DAY;
    ghost var n := total_days;
    year, month, day := 1996, 1, 1;
    YearAdvance(1996);
    var is_leap_year := LeapTest(year);
    while total_days >= DaysPerMonth(month) + (if is_leap_year && month == 2 then 1 else 0)
      invariant year >= 1996 && 1 <= month <= 12 && is_leap_year == IsLeap(year) && total_days >= 0
      invariant YearStart(year) + MonthStart(month, year) + total_days == n
      decreases total_days
    {
      MonthAdvance(month, year);
      total_days := total_days - (DaysPerMonth(month) + (if is_leap_year && month == 2 then 1 else 0));
      month := month + 1;
      if month > 12 {
        YearAdvance(year);
        year := year + 1;
        month := 1;
        is_leap_year := LeapTest(year);
      }
    }
    day := day + total_days;
  }

  lemma YearAdvance(year: int)
    requires year >= 1996
    ensures YearStart(1996) + MonthStart(1, 1996) == 0
    ensures YearStart(year + 1) + MonthStart(1, year + 1) == YearStart(year) + MonthStart(13, year)
  {
    MonthsFillYear(year);
  }

  lemma MonthsFillYear(year: int)
    ensures MonthStart(13, year) == YearDays(year)
  {
    CommonMonthStart(13, year);
    MonthsOfCommonYear();
  }

  lemma MonthsOfCommonYear()
    ensures MonthStart(13, 1997) == 365
  {
    assert MonthStart(4, 1997) == 90;
    assert MonthStart(7, 1997) == 181;
    assert MonthStart(10, 1997) == 273;
  }

  lemma {:induction false} YearStartMonotone(a: int, b: int)
    requires 1996 <= a < b
    ensures YearStart(a) + YearDays(a) <= YearStart(b)
    decreases b - a
  {
    if a + 1 < b {
      YearStartMonotone(a, b - 1);
    }
  }

  lemma {:induction false} MonthStartMonotone(a: int, b: int, year: int)
    requires 1 <= a < b
    ensures MonthStart(a, year) + MonthDays(a, year) <= MonthStart(b, year)
    decreases b - a
  {
    if a + 1 < b {
      MonthStartMonotone(a, b - 1, year);
    }
  }

  /** Two valid dates with the same day number are the same date. */
  lemma DayNumberInjective(d: int, m: int, y: int, d': int, m': int, y': int)
    requires ValidDate(d, m, y) && ValidDate(d', m', y')
    requires DayNumber(d, m, y) == DayNumber(d', m', y')
    ensures d == d' && m == m' && y == y'
  {
    WithinYear(d, m, y);
    WithinYear(d', m', y');
    if y < y' {
      YearStartMonotone(y, y');
    } else if y' < y {
      YearStartMonotone(y', y);
    } else if m < m' {
      MonthStartMonotone(m, m', y);
    } else if m' < m {
      MonthStartMonotone(m', m, y);
    }
  }

  lemma WithinYear(d: int, m: int, y: int)
    requires ValidDate(d, m, y)
    ensures YearStart(y) <= DayNumber(d, m, y) < YearStart(y) + YearDays(y)
  {
    MonthStartMonotone(m, 13, y);
    MonthsFillYear(y);
  }

  // --------------------------------------------------- the calendar in closed form

  lemma QuotientStep(x: int)
    ensures x / 4 == (x - 1) / 4 + (if x % 4 == 0 then 1 else 0)
    ensures x / 100 == (x - 1) / 100 + (if x % 100 == 0 then 1 else 0)
    ensures x / 400 == (x - 1) / 400 + (if x % 400 == 0 then 1 else 0)
  {
  }

  /** Years since 1996 and the Gregorian leap days among them; 1996 began after 484 leap days. */
  lemma {:induction false} YearStartIs(year: int)
    requires year >= 1996
    ensures YearStart(year) == 365 * (year - 1996) + (year - 1) / 4 - (year - 1) / 100 + (year - 1) / 400 - 483
    decreases year
  {
    if year > 1996 {
      YearStartIs(year - 1);
      QuotientStep(year - 1);
      FourDivides(year - 1);
      HundredDivides(year - 1);
    }
  }

  lemma HundredDivides(year: int)
    ensures year % 400 == 0 ==> year % 100 == 0
    ensures year % 100 == 0 ==> year % 4 == 0
  {
    hide IsLeap;
    if year % 400 == 0 {
      MultipleOf100(year, year / 400);
    }
    if year % 100 == 0 {
      MultipleOf4(year, year / 100);
    }
  }

  lemma MultipleOf100(year: int, q: int)
    requires year == 400 * q
    ensures year % 100 == 0
  {
    var k := 4 * q;
    assert year == 100 * k;
  }

  lemma MultipleOf4(year: int, q: int)
    requires year == 100 * q
    ensures year % 4 == 0
  {
    var k := 25 * q;
    assert year == 4 * k;
  }

  /** 31 days, February, and from March on the months of 31 and 30 days five at a time. */
  lemma {:induction false} MonthStartIs(month: int, year: int)
    requires 1 <= month <= 13
    ensures month <= 2 ==> MonthStart(month, year) == 31 * (month - 1)
    ensures month >= 3 ==>
              MonthStart(month, year)
              == 59 + (if year % 4 == 0 && (year % 100 != 0 || year % 400 == 0) then 1 else 0) + (153 * month - 457) / 5
  {
    hide IsLeap;
    assert IsLeap(year) <==> year % 4 == 0 && (year % 100 != 0 || year % 400 == 0) by { LeapIs(year); }
    if month > 1 {
      MonthStartIs(month - 1, year);
      FifthsStep(month);
    }
  }

  lemma LeapIs(year: int)
    ensures IsLeap(year) <==> year % 4 == 0 && (year % 100 != 0 || year % 400 == 0)
  {
  }

  lemma FifthsStep(month: int)
    ensures (153 * 3 - 457) / 5 == 0
    ensures 4 <= month <= 13 ==>
              (153 * month - 457) / 5 == (153 * (month - 1) - 457) / 5 + (if month - 1 in {4, 6, 9, 11} then 30 else 31)
  {
  }

  /** The day number by the civil calendar, with no walk over years or months. */
  lemma DayNumberIs(day: int, month: int, year: int)
    requires 1 <= month <= 12 && year >= 1996
    ensures DayNumber(day, month, year)
         == 365 * (year - 1996) + (year - 1) / 4 - (year - 1) / 100 + (year - 1) / 400 - 483 + day - 1
            + (if month <= 2 then 31 * (month - 1)
               else 59 + (if year % 4 == 0 && (year % 100 != 0 || year % 400 == 0) then 1 else 0)
                    + (153 * month - 457) / 5)
  {
    hide YearStart, MonthStart;
    YearStartIs(year);
    MonthStartIs(month, year);
  }

  /** A valid day is one before the first of the next month. */
  lemma ValidDateIs(day: int, month: int, year: int)
    ensures ValidDate(day, month, year) <==>
            && year >= 1996 && 1 <= month <= 12 && 1 <= day
            && day - 1 + MonthStart(month, year) < MonthStart(month + 1, year)
  {
  }

  /**
   Encoding then decoding. Every valid date that encodes decodes to the day of the wrapped
   minute count, which is the same date exactly up to day 11650 (24-11-2027).
   */
  method EncodeDecode(day: int, month: int, year: int) returns (ok: bool, d: int, m: int, y: int)
    requires ValidDate(day, month, year)
    ensures ok <==> DAY * DayNumber(day, month, year) % MASK != 0
    ensures ok ==> ValidDate(d, m, y) && DayNumber(d, m, y) == DAY * DayNumber(day, month, year) % MASK / DAY
    ensures ok ==> (d == day && m == month && y == year <==> DayNumber(day, month, year) <= 11650)
  {
    hide DayNumber, ValidDate, TimeValue;
    d, m, y := 0, 0, 0;
    var time;
    ValidParts(day, month, year);
    ok, time := DateToTime(day, month, year);
    DayIsKeptIff(DayNumber(day, month, year));
    if ok {
      d, m, y := TimeToDate(time);
      if DayNumber(day, month, year) == DayNumber(d, m, y) {
        DayNumberInjective(day, month, year, d, m, y);
      }
    }
  }

  lemma ValidParts(d: int, m: int, y: int)
    requires ValidDate(d, m, y)
    ensures 1 <= m <= 12 && 1 <= d <= 31 && y >= 1996 && DayNumber(d, m, y) >= 0
  {
    hide YearStart, MonthStart;
  }

  /** The last day whose minutes fit in 24 bits. */
  lemma DayIsKeptIff(n: nat)
    ensures DAY * n % MASK / DAY == n <==> n <= 11650
  {
    if n <= 11650 {
      assert DAY * n % MASK == DAY * n;
    } else {
      assert DAY * n % MASK / DAY <= 11650;
    }
  }

  // ------------------------------------------------------------------------ text

  predicate IsDigit(c: Byte) {
    48 <= c <= 57
  }

  /** Where the run of digits starting at `i` ends. */
  function DigitsEnd(s: seq<Byte>, i: nat): (j: nat)
    ensures j >= i && (i <= |s| ==> j <= |s|)
    ensures forall k :: i <= k < j ==> k < |s| && IsDigit(s[k])
    ensures j < |s| ==> !IsDigit(s[j])
    decreases |s| - i
  {
    if i < |s| && IsDigit(s[i]) then DigitsEnd(s, i + 1) else i
  }

  /** The decimal number spelled by `s`. */
  function Decimal(s: seq<Byte>): nat {
    if |s| == 0 then 0 else Decimal(s[..|s| - 1]) * 10 + (if IsDigit(s[|s| - 1]) then s[|s| - 1] - 48 else 0)
  }

  lemma DecimalStep(s: seq<Byte>, start: nat, i: nat)
    requires start <= i < |s|
    ensures IsDigit(s[i]) ==> Decimal(s[start..i + 1]) == Decimal(s[start..i]) * 10 + (s[i] - 48)
  {
    var t := s[start..i + 1];
    assert t[..|t| - 1] == s[start..i];
  }

  lemma NoDigits()
    ensures Decimal([]) == 0
  {
  }

  lemma DigitsEndStep(s: seq<Byte>, i: nat)
    requires i <= |s|
    ensures DigitsEnd(s, i) == if i < |s| && IsDigit(s[i]) then DigitsEnd(s, i + 1) else i
  {
  }

  method ScanNumber(s: seq<Byte>, start: nat) returns (value: nat, i: nat)
    requires start <= |s|
    ensures i == DigitsEnd(s, start) && value == Decimal(s[start..i])
  {
    hide Decimal, DigitsEnd;
    value, i := 0, start;
    assert s[start..start] == [];
    NoDigits();
    while i < |s| && 48 <= s[i] <= 57
      invariant start <= i <= |s| && DigitsEnd(s, start) == DigitsEnd(s, i)
      invariant value == Decimal(s[start..i])
    {
      DecimalStep(s, start, i);
      DigitsEndStep(s, i);
      value := value * 10 + (s[i] - 48);
      i := i + 1;
    }
    DigitsEndStep(s, i);
  }

  /** Day, month and year are digit runs separated by dashes; what follows the year is not looked at. */
  function DateFields(s: seq<Byte>): Option<(int, int, int)> {
    var i := DigitsEnd(s, 0);
    if i >= |s| || s[i] != 45 then None
    else
      var j := DigitsEnd(s, i + 1);
      if j >= |s| || s[j] != 45 then None
      else Some((Decimal(s[..i]), Decimal(s[i + 1..j]), Decimal(s[j + 1..DigitsEnd(s, j + 1)])))
  }

  /** Day, then month, then year, whatever follows. */
  lemma DateTextIs(day: seq<Byte>, month: seq<Byte>, year: seq<Byte>, rest: seq<Byte>)
    requires AllDigits(day) && AllDigits(month) && AllDigits(year) && (rest == [] || !IsDigit(rest[0]))
    ensures DateFields(day + [45] + month + [45] + year + rest) == Some((Decimal(day), Decimal(month), Decimal(year)))
  {
    hide Decimal, DigitsEnd, AllDigits;
    var s := day + [45] + month + [45] + year + rest;
    var i, j := |day|, |day| + 1 + |month|;
    DateParts(day, month, year, rest);
    assert !IsDigit(45);
    DigitsUpTo(s, 0, i);
    DigitsUpTo(s, i + 1, j);
    DigitsUpTo(s, j + 1, j + 1 + |year|);
  }

  lemma DateParts(day: seq<Byte>, month: seq<Byte>, year: seq<Byte>, rest: seq<Byte>)
    ensures var s := day + [45] + month + [45] + year + rest;
            var i, j := |day|, |day| + 1 + |month|;
            && s[0..i] == s[..i] == day && s[i] == 45 && s[i + 1..j] == month && s[j] == 45
            && s[j + 1..j + 1 + |year|] == year && s[j + 1 + |year|..] == rest
            && (rest != [] ==> s[j + 1 + |year|] == rest[0])
  {
  }

  predicate AllDigits(s: seq<Byte>) {
    forall i :: 0 <= i < |s| ==> 48 <= s[i] <= 57
  }

  lemma {:induction false} DigitsUpTo(s: seq<Byte>, i: nat, j: nat)
    requires i <= j <= |s| && AllDigits(s[i..j]) && (j < |s| ==> !IsDigit(s[j]))
    ensures DigitsEnd(s, i) == j
    decreases j - i
  {
    if i < j {
      assert s[i] == s[i..j][0] && s[i..j][1..] == s[i + 1..j];
      DigitsUpTo(s, i + 1, j);
    }
  }

  predicate IsDate(s: seq<Byte>) {
    && DateFields(s).Some?
    && ValidDate(DateFields(s).value.0, DateFields(s).value.1, DateFields(s).value.2)
  }

  /** The three bytes stored for a date text, or None for the day that does not encode. */
  function DateBytes(s: seq<Byte>): (r: Option<seq<Byte>>)
    requires IsDate(s)
    ensures r.Some? ==> |r.value| == 3
  {
    var (d, m, y) := DateFields(s).value;
    if DAY * DayNumber(d, m, y) % MASK == 0 then None else Some(SplitMinutes(DAY * DayNumber(d, m, y) % MASK))
  }

  lemma DecimalOf2(a: Byte, b: Byte)
    requires 48 <= a <= 57 && 48 <= b <= 57
    ensures Decimal([a, b]) == 10 * (a - 48) + (b - 48)
  {
    assert [a, b][..1] == [a] && [a][..0] == [];
    assert Decimal([a]) == a - 48;
    assert [a, b][1] == b;
  }

  lemma DecimalOf4(a: Byte, b: Byte, c: Byte, d: Byte)
    requires AllDigits([a, b, c, d])
    ensures Decimal([a, b, c, d]) == 1000 * (a - 48) + 100 * (b - 48) + 10 * (c - 48) + (d - 48)
  {
    hide Decimal;
    var s := [a, b, c, d];
    assert s[0] == a && s[1] == b && s[2] == c && s[3] == d;
    DecimalOf2(a, b);
    assert s[0..2] == [a, b] && s[0..4] == s && s[0..3] == [a, b, c];
    DecimalStep(s, 0, 2);
    DecimalStep(s, 0, 3);
  }

  /** A date written as ten characters. */
  lemma TenCharacters(a: Byte, b: Byte, c: Byte, d: Byte, e: Byte, f: Byte, g: Byte, h: Byte)
    requires AllDigits([a, b, c, d, e, f, g, h])
    ensures DateFields([a, b, 45, c, d, 45, e, f, g, h])
         == Some((10 * (a - 48) + (b - 48), 10 * (c - 48) + (d - 48),
                  1000 * (e - 48) + 100 * (f - 48) + 10 * (g - 48) + (h - 48)))
  {
    hide Decimal, DateFields;
    var all := [a, b, c, d, e, f, g, h];
    assert all[0] == a && all[1] == b && all[2] == c && all[3] == d;
    assert all[4] == e && all[5] == f && all[6] == g && all[7] == h;
    DecimalOf2(a, b);
    DecimalOf2(c, d);
    DecimalOf4(e, f, g, h);
    DateTextIs([a, b], [c, d], [e, f, g, h], []);
    assert [a, b] + [45] + [c, d] + [45] + [e, f, g, h] + [] == [a, b, 45, c, d, 45, e, f, g, h];
  }

  /** 02-01-1996, 29-02-2000, 31-12-2023 and 24-11-2027, the last day that comes back. */
  lemma KnownDates()
    ensures DateFields([48, 50, 45, 48, 49, 45, 49, 57, 57, 54]) == Some((2, 1, 1996)) && DayNumber(2, 1, 1996) == 1
    ensures DateFields([50, 57, 45, 48, 50, 45, 50, 48, 48, 48]) == Some((29, 2, 2000)) && DayNumber(29, 2, 2000) == 1520
    ensures DateFields([51, 49, 45, 49, 50, 45, 50, 48, 50, 51]) == Some((31, 12, 2023))
    ensures DayNumber(31, 12, 2023) == 10226
    ensures DateFields([50, 52, 45, 49, 49, 45, 50, 48, 50, 55]) == Some((24, 11, 2027))
    ensures DayNumber(24, 11, 2027) == 11650
  {
    hide DateFields, DayNumber;
    TenCharacters(48, 50, 48, 49, 49, 57, 57, 54);
    TenCharacters(50, 57, 48, 50, 50, 48, 48, 48);
    TenCharacters(51, 49, 49, 50, 50, 48, 50, 51);
    TenCharacters(50, 52, 49, 49, 50, 48, 50, 55);
    DayNumberIs(2, 1, 1996);
    DayNumberIs(29, 2, 2000);
    DayNumberIs(31, 12, 2023);
    DayNumberIs(24, 11, 2027);
  }

  /** The stored bytes of those dates. */
  lemma KnownBytes()
    ensures SplitMinutes(1440 * 1) == [0xA0, 0x05, 0x00] && SplitMinutes(1440 * 1520) == [0x00, 0x66, 0x21]
    ensures SplitMinutes(1440 * 10226) == [0x40, 0xB1, 0xE0] && SplitMinutes(1440 * 11650) == [0x40, 0xFB, 0xFF]
  {
  }

  lemma TimeValueInjective(a: seq<Byte>, b: seq<Byte>)
    requires |a| == 3 && |b| == 3 && TimeValue(a) == TimeValue(b)
    ensures a == b
  {
    ThreeDigits(a[0], a[1], a[2], b[0], b[1], b[2]);
  }

  lemma ThreeDigits(a: Byte, b: Byte, c: Byte, d: Byte, e: Byte, f: Byte)
    requires (a as int) + 256 * (b as int) + 65536 * (c as int) == (d as int) + 256 * (e as int) + 65536 * (f as int)
    ensures a == d && b == e && c == f
  {
    var x: int, y: int, z: int := (a as int) - d, (b as int) - e, (c as int) - f;
    LowDigit(x, -(y + 256 * z));
    LowDigit(y, -z);
  }

  lemma LowDigit(x: int, q: int)
    requires -256 < x < 256 && x == 256 * q
    ensures x == 0 && q == 0
  {
  }

  /** date2dmy, on a text without NUL bytes. */
  method ParseDate(s: seq<Byte>) returns (ok: bool, day: int, month: int, year: int)
    ensures ok <==> IsDate(s)
    ensures ok ==> DateFields(s) == Some((day, month, year)) && ValidDate(day, month, year)
  {
    hide DigitsEnd, Decimal, DaysPerMonth;
    month, year := 0, 0;
    var i, j, k;
    day, i := ScanNumber(s, 0);
    assert s[..i] == s[0..i];
    if i >= |s| || s[i] != 45 { return false, day, 0, 0; }
    if day < 1 || day > 31 { return false, day, 0, 0; }
    month, j := ScanNumber(s, i + 1);
    if j >= |s| || s[j] != 45 { return false, day, month, 0; }
    if month < 1 || month > 12 { return false, day, month, 0; }
    year, k := ScanNumber(s, j + 1);
    if year < 1996 { return false, day, month, year; }
    if month != 2 {
      if day > DaysPerMonth(month) { return false, day, month, year; }
    } else {
      var is_leap_year := LeapTest(year);
      if is_leap_year && day > 29 { return false, day, month, year; }
      if !is_leap_year && day > 28 { return false, day, month, year; }
    }
    ok := true;
  }
}

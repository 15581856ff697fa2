/**
  The Gregorian calendar from 2020-01-01 on, as a successor function on dates and as a day count.
 */
module Calendar {

  const BEGYEAR := 2020

  datatype Date = Date(y: nat, m: nat, d: nat)

  predicate Leap(y: nat) {
    y % 4 == 0 && (y % 100 == 0 ==> y % 400 == 0)
  }

  function DaysIn(y: nat, m: nat): (n: nat)
    requires 1 <= m <= 12
    ensures 28 <= n <= 31
  {
    match m
    case 2 => if Leap(y) then 29 else 28
    case 4 => 30
    case 6 => 30
    case 9 => 30
    case 11 => 30
    case _ => 31
  }

  predicate Valid(t: Date) {
    1 <= t.m <= 12 && 1 <= t.d <= DaysIn(t.y, t.m)
  }

  function Next(t: Date): (next: Date)
    requires Valid(t)
    ensures Valid(next)
  {
    if t.d < DaysIn(t.y, t.m) then Date(t.y, t.m, t.d + 1)
    else if t.m < 12 then Date(t.y, t.m + 1, 1)
    else Date(t.y + 1, 1, 1)
  }

  /** The date `n` days after 2020-01-01. */
  function DateOf(n: nat): (t: Date)
    ensures Valid(t) && t.y >= BEGYEAR
  {
    if n == 0 then Date(BEGYEAR, 1, 1) else Next(DateOf(n - 1))
  }

  function DaysOfYear(y: nat): nat {
    if Leap(y) then 366 else 365
  }

  function YearsBefore(y: nat): nat {
    if y <= BEGYEAR then 0 else YearsBefore(y - 1) + DaysOfYear(y - 1)
  }

  function MonthsBefore(y: nat, m: nat): nat
    requires 1 <= m <= 12
  {
    if m == 1 then 0 else MonthsBefore(y, m - 1) + DaysIn(y, m - 1)
  }

  function DayNumber(t: Date): nat
    requires Valid(t)
  {
    YearsBefore(t.y) + MonthsBefore(t.y, t.m) + (t.d - 1)
  }

  /** The twelve months make up the year. */
  lemma December(y: nat)
    ensures MonthsBefore(y, 12) + DaysIn(y, 12) == DaysOfYear(y)
  {
    hide Leap;
    assert MonthsBefore(y, 2) == MonthsBefore(y, 1) + 31;
    assert MonthsBefore(y, 4) == MonthsBefore(y, 3) + 31;
    assert MonthsBefore(y, 6) == MonthsBefore(y, 5) + 31;
    assert MonthsBefore(y, 8) == MonthsBefore(y, 7) + 31;
    assert MonthsBefore(y, 10) == MonthsBefore(y, 9) + 30;
  }

  lemma {:induction false} MonthsGrow(y: nat, m: nat, n: nat)
    requires 1 <= m < n <= 12
    ensures MonthsBefore(y, m) + DaysIn(y, m) <= MonthsBefore(y, n)
  {
    hide DaysIn;
    if m < n - 1 {
      MonthsGrow(y, m, n - 1);
    }
  }

  lemma WithinYear(t: Date)
    requires Valid(t)
    ensures MonthsBefore(t.y, t.m) + t.d <= DaysOfYear(t.y)
  {
    hide DaysIn, MonthsBefore;
    December(t.y);
    if t.m < 12 {
      MonthsGrow(t.y, t.m, 12);
    }
  }

  lemma {:induction false} YearsGrow(y: nat, z: nat)
    requires BEGYEAR <= y < z
    ensures YearsBefore(y) + DaysOfYear(y) <= YearsBefore(z)
  {
    hide DaysOfYear;
    if y < z - 1 {
      YearsGrow(y, z - 1);
    }
  }

  lemma NextDayNumber(t: Date)
    requires Valid(t) && t.y >= BEGYEAR
    ensures DayNumber(Next(t)) == DayNumber(t) + 1
  {
    hide DaysIn, DaysOfYear;
    December(t.y);
    FirstOfMonth(Next(t).y);
  }

  lemma FirstOfMonth(y: nat)
    ensures MonthsBefore(y, 1) == 0
  {
  }

  lemma {:induction false} DayNumberOfDate(n: nat)
    ensures DayNumber(DateOf(n)) == n
  {
    hide DayNumber, Next;
    if n > 0 {
      DayNumberOfDate(n - 1);
      NextDayNumber(DateOf(n - 1));
    } else {
      FirstDay();
    }
  }

  lemma FirstDay()
    ensures DayNumber(Date(BEGYEAR, 1, 1)) == 0
  {
  }

  /** Leap years up to and including year `n`, in closed form. */
  function Leaps(n: nat): int {
    n / 4 - n / 100 + n / 400
  }

  lemma LeapStep(y: nat)
    requires y > 0
    ensures Leaps(y) == Leaps(y - 1) + (if Leap(y) then 1 else 0)
  {
    Fourth(y);
    Hundredth(y);
    FourHundredth(y);
    Centuries(y);
  }

  lemma Fourth(y: nat)
    requires y > 0
    ensures y / 4 == (y - 1) / 4 + (if y % 4 == 0 then 1 else 0)
  {
  }

  lemma Hundredth(y: nat)
    requires y > 0
    ensures y / 100 == (y - 1) / 100 + (if y % 100 == 0 then 1 else 0)
  {
  }

  lemma FourHundredth(y: nat)
    requires y > 0
    ensures y / 400 == (y - 1) / 400 + (if y % 400 == 0 then 1 else 0)
  {
  }

  lemma Centuries(y: nat)
    ensures y % 400 == 0 ==> y % 100 == 0
    ensures y % 100 == 0 ==> y % 4 == 0
  {
    var k := y / 400;
    assert y == 400 * k + y % 400;
    assert y % 100 == y % 400 % 100;
    assert y % 4 == y % 100 % 4;
  }

  lemma {:induction false} YearsClosed(y: nat)
    requires y >= BEGYEAR
    ensures YearsBefore(y) == 365 * (y - BEGYEAR) + Leaps(y - 1) - Leaps(BEGYEAR - 1)
  {
    hide Leap, Leaps;
    if y > BEGYEAR {
      YearsClosed(y - 1);
      LeapStep(y - 1);
    }
  }

  lemma MonthsClosed(y: nat, m: nat)
    requires 1 <= m <= 12
    ensures MonthsBefore(y, m) ==
      if m <= 2 then 31 * (m - 1) else 59 + (if Leap(y) then 1 else 0) + (153 * (m - 3) + 2) / 5
  {
    hide Leap;
    assert MonthsBefore(y, 2) == 31;
    assert MonthsBefore(y, 3) == 59 + (if Leap(y) then 1 else 0);
    var march := MonthsBefore(y, 3);
    assert MonthsBefore(y, 5) == march + 61;
    assert MonthsBefore(y, 7) == march + 122;
    assert MonthsBefore(y, 9) == march + 184;
    assert MonthsBefore(y, 11) == march + 245;
  }

  /**
    The day count in closed form, with the year taken to begin in March: 365 days a year, the
    leap days by their centuries, and 153 days for five months.
   */
  lemma DayNumberClosed(t: Date)
    requires Valid(t) && t.y >= 2020
    ensures var y, m := if t.m <= 2 then t.y - 1 else t.y, (t.m + 9) % 12;
      DayNumber(t) == 365 * y + y / 4 - y / 100 + y / 400 + (153 * m + 2) / 5 + t.d - 1 - 737730
  {
    hide Leap, YearsBefore, MonthsBefore, DaysIn, Leaps;
    YearsClosed(t.y);
    MonthsClosed(t.y, t.m);
    MarchMonths(t.m);
    if t.m > 2 {
      LeapStep(t.y);
    }
    LeapsAre(t.y);
    LeapsAre(t.y - 1);
    LeapsAre(2019);
  }

  lemma LeapsAre(n: nat)
    ensures Leaps(n) == n / 4 - n / 100 + n / 400
  {
  }

  lemma MarchMonths(m: nat)
    requires 1 <= m <= 12
    ensures (m + 9) % 12 == if m <= 2 then m + 9 else m - 3
    ensures m <= 2 ==> (153 * (m + 9) + 2) / 5 == 306 + 31 * (m - 1)
  {
  }

  lemma EarlierYear(s: Date, t: Date)
    requires Valid(s) && Valid(t) && BEGYEAR <= s.y < t.y
    ensures DayNumber(s) < DayNumber(t)
  {
    hide DaysIn, DaysOfYear, MonthsBefore, YearsBefore;
    WithinYear(s);
    YearsGrow(s.y, t.y);
  }

  lemma EarlierMonth(s: Date, t: Date)
    requires Valid(s) && Valid(t) && s.y == t.y && s.m < t.m
    ensures DayNumber(s) < DayNumber(t)
  {
    hide DaysIn, DaysOfYear, MonthsBefore, YearsBefore;
    MonthsGrow(s.y, s.m, t.m);
  }

  /** The day number names the date. */
  lemma DateOfDayNumber(t: Date)
    requires Valid(t) && t.y >= BEGYEAR
    ensures DateOf(DayNumber(t)) == t
  {
    var s := DateOf(DayNumber(t));
    DayNumberOfDate(DayNumber(t));
    if s.y < t.y {
      EarlierYear(s, t);
    } else if t.y < s.y {
      EarlierYear(t, s);
    } else if s.m < t.m {
      EarlierMonth(s, t);
    } else if t.m < s.m {
      EarlierMonth(t, s);
    }
  }
}

/** The real-time clock driver: loading the counters from a date and time, and reading them back. */
module RealTimeClock {
  import opened Calendar

  const DAY_MASK := 0x4000

  predicate IsLeapYear(yr: nat) {
    yr % 400 == 0 || (yr % 100 != 0 && yr % 4 == 0)
  }

  function YearLength(yr: nat): nat {
    if IsLeapYear(yr) then 366 else 365
  }

  /** Months count from 0 here. */
  function MonthLength(leap: bool, mon: nat): nat {
    if mon == 1 then 28 + (if leap then 1 else 0)
    else if mon > 6 then (if mon % 2 == 1 then 31 else 30)
    else (if mon % 2 == 1 then 30 else 31)
  }

  lemma YearLengthIsGregorian(y: nat)
    ensures IsLeapYear(y) <==> Leap(y)
    ensures YearLength(y) == DaysOfYear(y)
  {
    var k := y / 400;
    assert y == 400 * k + y % 400;
    assert y % 100 == y % 400 % 100;
    assert y % 4 == y % 100 % 4;
  }

  lemma MonthLengthIsGregorian(y: nat, m: nat)
    requires 1 <= m <= 12
    ensures MonthLength(IsLeapYear(y), m - 1) == DaysIn(y, m)
  {
    hide IsLeapYear, Leap;
    YearLengthIsGregorian(y);
  }

  class Clock {
    var cntDay: nat
    var cnt2s: nat
    var cnt32k: nat

    constructor ()
      ensures cntDay == 0 && cnt2s == 0 && cnt32k == 0
    {
      cntDay, cnt2s, cnt32k := 0, 0, 0;
    }

    /** Unsigned 16-bit arguments and locals; the day counter takes the low 14 bits. */
    method InitTime(y: nat, mon: nat, d: nat, h: nat, m: nat, s: nat)
      requires y < 0x1_0000 && Valid(Date(y, mon, d)) && h < 24 && m < 60 && s < 60
      modifies this
      ensures cntDay == DayNumber(Date(y, mon, d)) % 16384
      ensures 2 * cnt2s + (if cnt32k < 0x8000 then 0 else 1) == 3600 * h + 60 * m + s
      ensures cnt2s < 43200 && (cnt32k == 0 || cnt32k == 0x8000)
    {
      hide DayNumber, DaysIn;
      var day := CountDays(y, mon, d);
      var sec2 := h % 24 * 1800 + m * 30 + s / 2;
      var t32k := if s % 2 == 1 then 0x8000 else 0;
      LowDayBits(DayNumber(Date(y, mon, d)), day);
      cntDay := day % DAY_MASK;
      cnt2s := sec2;
      cnt32k := t32k;
    }

    /** The fields are read back from the counters as they stand. */
    method GetTime() returns (py: nat, pmon: nat, pd: nat, ph: nat, pm: nat, ps: nat)
      requires cnt2s < 43200
      ensures Date(py, pmon, pd) == DateOf(cntDay % 16384) && py < 0x1_0000
      ensures ph < 24 && pm < 60 && ps < 60
      ensures 3600 * ph + 60 * pm + ps == 2 * cnt2s + (if cnt32k < 0x8000 then 0 else 1)
    {
      hide DateOf;
      var t := cnt2s * 2 + (if cnt32k < 0x8000 then 0 else 1);
      py, pmon, pd := SplitDays(cntDay % DAY_MASK);
      ph, pm, ps := t / 3600, t % 3600 / 60, t % 60;
      TimeFields(t);
    }
  }

  lemma TimeFields(t: nat)
    requires t < 86400
    ensures t / 3600 < 24 && t % 3600 / 60 < 60 && t % 60 < 60
    ensures 3600 * (t / 3600) + 60 * (t % 3600 / 60) + t % 60 == t
  {
    var r := t % 3600;
    assert t == 3600 * (t / 3600) + r;
    assert r == 60 * (r / 60) + r % 60;
    assert t == 60 * (60 * (t / 3600) + r / 60) + r % 60;
  }

  /** The two loops of RTC_InitTime, in wrapping 16-bit arithmetic. */
  method CountDays(y: nat, mon: nat, d: nat) returns (day: nat)
    requires y < 0x1_0000 && Valid(Date(y, mon, d))
    ensures day == DayNumber(Date(y, mon, d)) % 0x1_0000
  {
    hide IsLeapYear, Leap, YearLength, DaysOfYear, DaysIn, MonthLength;
    var year: nat, month: nat := y, mon;
    ghost var total: nat := 0;
    day := 0;
    while year > BEGYEAR
      invariant year <= y && total + YearsBefore(year) == YearsBefore(y)
      invariant day == total % 0x1_0000
    {
      YearLengthIsGregorian(year - 1);
      Wrapped(total, DaysOfYear(year - 1));
      total := total + DaysOfYear(year - 1);
      day := (day + YearLength(year - 1)) % 0x1_0000;
      year := year - 1;
    }
    while month > 1
      invariant 1 <= month <= mon
      invariant total + MonthsBefore(y, month) == YearsBefore(y) + MonthsBefore(y, mon)
      invariant day == total % 0x1_0000
    {
      MonthLengthIsGregorian(y, month - 1);
      Wrapped(total, DaysIn(y, month - 1));
      total := total + DaysIn(y, month - 1);
      day := (day + MonthLength(IsLeapYear(y), month - 2)) % 0x1_0000;
      month := month - 1;
    }
    FirstOfMonth(y);
    Wrapped(total, d - 1);
    day := (day + (d - 1)) % 0x1_0000;
  }

  lemma Wrapped(total: nat, more: nat)
    ensures (total % 0x1_0000 + more) % 0x1_0000 == (total + more) % 0x1_0000
  {
  }

  /** The two loops of RTC_GetTime. */
  method SplitDays(days: nat) returns (py: nat, pmon: nat, pd: nat)
    requires days < DAY_MASK
    ensures Date(py, pmon, pd) == DateOf(days) && py < 0x1_0000
  {
    hide IsLeapYear, Leap, YearLength, DaysOfYear, DaysIn, MonthLength, DateOf;
    var day: nat := days;
    py := BEGYEAR;
    YearLengthIsGregorian(py);
    while day >= YearLength(py)
      invariant py >= BEGYEAR && YearsBefore(py) + day == days
      invariant YearLength(py) == DaysOfYear(py)
      decreases day
    {
      YearIsLong(py);
      day := day - YearLength(py);
      py := py + 1;
      YearLengthIsGregorian(py);
    }
    YearsAreLong(py);
    pmon := 0;
    FirstOfMonth(py);
    December(py);
    MonthLengthIsGregorian(py, 1);
    while day >= MonthLength(IsLeapYear(py), pmon)
      invariant pmon <= 11 && MonthLength(IsLeapYear(py), pmon) == DaysIn(py, pmon + 1)
      invariant YearsBefore(py) + MonthsBefore(py, pmon + 1) + day == days
      invariant MonthsBefore(py, pmon + 1) + day < DaysOfYear(py)
    {
      day := day - MonthLength(IsLeapYear(py), pmon);
      pmon := pmon + 1;
      MonthLengthIsGregorian(py, pmon + 1);
    }
    pmon := pmon + 1;
    pd := day + 1;
    DateOfDayNumber(Date(py, pmon, pd));
  }

  lemma LowDayBits(total: nat, day: nat)
    requires day == total % 0x1_0000
    ensures day % DAY_MASK == total % DAY_MASK
  {
    assert total == 4 * (total / 0x1_0000) * DAY_MASK + day;
  }

  lemma YearIsLong(y: nat)
    ensures 365 <= YearLength(y)
  {
  }

  lemma {:induction false} YearsAreLong(y: nat)
    ensures y >= BEGYEAR ==> YearsBefore(y) >= 365 * (y - BEGYEAR)
  {
    if y > BEGYEAR {
      YearsAreLong(y - 1);
    }
  }

  /**
    Setting the clock and reading it back returns the same six fields exactly for the dates
    within 2^14 days of 2020-01-01.
   */
  method SetThenGet(clock: Clock, y: nat, mon: nat, d: nat, h: nat, m: nat, s: nat)
    returns (py: nat, pmon: nat, pd: nat, ph: nat, pm: nat, ps: nat)
    requires y < 0x1_0000 && Valid(Date(y, mon, d)) && h < 24 && m < 60 && s < 60
    modifies clock
    ensures Date(py, pmon, pd) == DateOf(DayNumber(Date(y, mon, d)) % 16384)
    ensures ph == h && pm == m && ps == s
    ensures (Date(py, pmon, pd) == Date(y, mon, d)) <==> (y >= 2020 && DayNumber(Date(y, mon, d)) < 16384)
  {
    hide DayNumber, DateOf, DaysIn;
    clock.InitTime(y, mon, d, h, m, s);
    py, pmon, pd, ph, pm, ps := clock.GetTime();
    SameTime(ph, pm, ps, h, m, s);
    RoundTrip(Date(y, mon, d));
  }

  lemma SameTime(h: nat, m: nat, s: nat, h': nat, m': nat, s': nat)
    requires m < 60 && s < 60 && m' < 60 && s' < 60
    requires 3600 * h + 60 * m + s == 3600 * h' + 60 * m' + s'
    ensures h == h' && m == m' && s == s'
  {
  }

  lemma RoundTrip(t: Date)
    requires Valid(t)
    ensures DateOf(DayNumber(t) % DAY_MASK) == t <==> (t.y >= BEGYEAR && DayNumber(t) < DAY_MASK)
  {
    hide DayNumber, DateOf;
    DayNumberOfDate(DayNumber(t) % DAY_MASK);
    if t.y >= BEGYEAR {
      DateOfDayNumber(t);
    }
  }
}

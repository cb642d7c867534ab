/**
 * Calendar date arithmetic of main.js: local `YYYY-MM-DD` parsing
 * (`parseYMD`), formatting (`dateToISO`), `addDays`, `daysBetween`,
 * `clampDate` and the days-in-month helper.
 *
 * A JavaScript `Date` that the editor builds is always local midnight, so it
 * is modelled as a proleptic Gregorian (year, month, day) triple. `DayNumber`
 * counts days from 0001-01-01 and is a bijection between valid triples and
 * the integers; it plays the role of the time value that `<`, `>` and
 * millisecond subtraction compare.
 */
module Dates {
  import opened Text

  datatype Date = Date(year: int, month: int, day: int)

  predicate IsLeapYear(y: int)
  {
    (y % 4 == 0 && y % 100 != 0) || y % 400 == 0
  }

  /** `new Date(y, m, 0).getDate()`: the length of month `m` (1-based) of year `y`. */
  function DaysInMonth(y: int, m: int): (n: int)
    ensures 28 <= n <= 31
  {
    if m == 2 then (if IsLeapYear(y) then 29 else 28)
    else if m == 4 || m == 6 || m == 9 || m == 11 then 30
    else 31
  }

  /** The lengths `daysInMonth` gives: 31 for the long months, 29 only for a leap February. */
  lemma {:induction false} DaysInMonthCases(y: int, m: int)
    requires 1 <= m <= 12
    ensures DaysInMonth(y, m) == 31 <==> m in {1, 3, 5, 7, 8, 10, 12}
    ensures DaysInMonth(y, m) == 29 <==> m == 2 && IsLeapYear(y)
    ensures DaysInMonth(y, m) == 28 <==> m == 2 && !IsLeapYear(y)
  {
  }

  ghost predicate ValidDate(d: Date)
  {
    1 <= d.month <= 12 && 1 <= d.day <= DaysInMonth(d.year, d.month)
  }

  function YearLength(y: int): int
  {
    if IsLeapYear(y) then 366 else 365
  }

  function DaysBeforeYear(y: int): int
  {
    var p := y - 1;
    365 * p + p / 4 - p / 100 + p / 400
  }

  function DaysBeforeMonth(y: int, m: int): int
    requires 1 <= m <= 12
  {
    var common :=
      if m == 1 then 0 else if m == 2 then 31 else if m == 3 then 59
      else if m == 4 then 90 else if m == 5 then 120 else if m == 6 then 151
      else if m == 7 then 181 else if m == 8 then 212 else if m == 9 then 243
      else if m == 10 then 273 else if m == 11 then 304 else 334;
    common + (if m > 2 && IsLeapYear(y) then 1 else 0)
  }

  /** Days since 0001-01-01 (day 0). */
  function DayNumber(d: Date): int
    requires ValidDate(d)
  {
    DaysBeforeYear(d.year) + DaysBeforeMonth(d.year, d.month) + d.day - 1
  }

  lemma {:induction false} YearStep(y: int)
    ensures DaysBeforeYear(y + 1) == DaysBeforeYear(y) + YearLength(y)
  {
    var p := y - 1;
    assert DaysBeforeYear(y + 1) == 365 * y + y / 4 - y / 100 + y / 400;
    assert DaysBeforeYear(y) == 365 * p + p / 4 - p / 100 + p / 400;
    StepDiv4(y);
    StepDiv100(y);
    StepDiv400(y);
    LeapDivisibility(y);
  }

  /** A multiple of 400 is a multiple of 100, which is a multiple of 4. */
  lemma {:induction false} LeapDivisibility(y: int)
    ensures y % 400 == 0 ==> y % 100 == 0
    ensures y % 100 == 0 ==> y % 4 == 0
  {
    if y % 400 == 0 {
      var k := y / 400;
      assert y == 100 * (4 * k);
      TimesHundred(4 * k);
    }
    if y % 100 == 0 {
      var k := y / 100;
      assert y == 4 * (25 * k);
      TimesFour(25 * k);
    }
  }

  lemma {:induction false} TimesHundred(m: int)
    ensures (100 * m) % 100 == 0
  {
  }

  lemma {:induction false} TimesFour(m: int)
    ensures (4 * m) % 4 == 0
  {
  }

  /** Going from `y - 1` to `y`, the count of multiples of 4 (100, 400) grows exactly when `y` is one. */
  lemma {:induction false} StepDiv4(y: int)
    ensures y / 4 - (y - 1) / 4 == if y % 4 == 0 then 1 else 0
  {
  }

  lemma {:induction false} StepDiv100(y: int)
    ensures y / 100 - (y - 1) / 100 == if y % 100 == 0 then 1 else 0
  {
  }

  lemma {:induction false} StepDiv400(y: int)
    ensures y / 400 - (y - 1) / 400 == if y % 400 == 0 then 1 else 0
  {
  }

  lemma {:induction false} DaysBeforeYearMonotone(a: int, b: int)
    requires a < b
    ensures DaysBeforeYear(a) + YearLength(a) <= DaysBeforeYear(b)
    decreases b - a
  {
    YearStep(a);
    if a + 1 < b {
      DaysBeforeYearMonotone(a + 1, b);
    }
  }

  /** Chronological order of dates, which is what `<` on local-midnight `Date`s compares. */
  predicate Before(a: Date, b: Date)
  {
    a.year < b.year
    || (a.year == b.year && a.month < b.month)
    || (a.year == b.year && a.month == b.month && a.day < b.day)
  }

  predicate AtMost(a: Date, b: Date)
  {
    !Before(b, a)
  }

  lemma {:induction false} DayNumberWithinYear(d: Date)
    requires ValidDate(d)
    ensures DaysBeforeYear(d.year) <= DayNumber(d) < DaysBeforeYear(d.year) + YearLength(d.year)
  {
  }

  lemma {:induction false} DayNumberStrictlyMonotone(a: Date, b: Date)
    requires ValidDate(a) && ValidDate(b)
    requires Before(a, b)
    ensures DayNumber(a) < DayNumber(b)
  {
    DayNumberWithinYear(a);
    DayNumberWithinYear(b);
    if a.year < b.year {
      DaysBeforeYearMonotone(a.year, b.year);
    }
  }

  /** Comparing dates is comparing their day numbers, in both directions. */
  lemma {:induction false} DayNumberOrder(a: Date, b: Date)
    requires ValidDate(a) && ValidDate(b)
    ensures Before(a, b) <==> DayNumber(a) < DayNumber(b)
    ensures a == b <==> DayNumber(a) == DayNumber(b)
  {
    if Before(a, b) {
      DayNumberStrictlyMonotone(a, b);
    } else if Before(b, a) {
      DayNumberStrictlyMonotone(b, a);
    }
  }

  lemma {:induction false} DayNumberInjective(a: Date, b: Date)
    requires ValidDate(a) && ValidDate(b)
    requires DayNumber(a) == DayNumber(b)
    ensures a == b
  {
    DayNumberOrder(a, b);
  }

  function NextDay(d: Date): (r: Date)
    requires ValidDate(d)
    ensures ValidDate(r) && DayNumber(r) == DayNumber(d) + 1
  {
    if d.day < DaysInMonth(d.year, d.month) then Date(d.year, d.month, d.day + 1)
    else if d.month < 12 then Date(d.year, d.month + 1, 1)
    else YearStep(d.year); Date(d.year + 1, 1, 1)
  }

  function PrevDay(d: Date): (r: Date)
    requires ValidDate(d)
    ensures ValidDate(r) && DayNumber(r) == DayNumber(d) - 1
  {
    if d.day > 1 then Date(d.year, d.month, d.day - 1)
    else if d.month > 1 then Date(d.year, d.month - 1, DaysInMonth(d.year, d.month - 1))
    else YearStep(d.year - 1); Date(d.year - 1, 12, 31)
  }

  /** `addDays(d, n)`: `setDate(getDate() + n)` on a copy, which normalises into later or earlier months. */
  function AddDays(d: Date, n: int): (r: Date)
    requires ValidDate(d)
    ensures ValidDate(r) && DayNumber(r) == DayNumber(d) + n
    decreases if n >= 0 then n else -n
  {
    if n == 0 then d
    else if n > 0 then AddDays(NextDay(d), n - 1)
    else AddDays(PrevDay(d), n + 1)
  }

  /** `daysBetween(a, b)`: whole days from `a` to `b` (negative when `b` is earlier). */
  function DaysBetween(a: Date, b: Date): int
    requires ValidDate(a) && ValidDate(b)
  {
    DayNumber(b) - DayNumber(a)
  }

  /** `addDays` and `daysBetween` are inverse: stepping `daysBetween(a, b)` days from `a` reaches `b`. */
  lemma {:induction false} AddDaysBetween(a: Date, b: Date)
    requires ValidDate(a) && ValidDate(b)
    ensures AddDays(a, DaysBetween(a, b)) == b
  {
    DayNumberInjective(AddDays(a, DaysBetween(a, b)), b);
  }

  lemma {:induction false} DaysBetweenAddDays(a: Date, n: int)
    requires ValidDate(a)
    ensures DaysBetween(a, AddDays(a, n)) == n
  {
  }

  lemma {:induction false} DaysBetweenSign(a: Date, b: Date)
    requires ValidDate(a) && ValidDate(b)
    ensures DaysBetween(a, b) >= 0 <==> AtMost(a, b)
    ensures DaysBetween(a, b) == 0 <==> a == b
  {
    DayNumberOrder(a, b);
    DayNumberOrder(b, a);
  }

  /** The year `new Date(y, ...)` uses: two-digit years 0..99 mean 1900..1999. */
  function LocalYear(y: int): (r: int)
    ensures !(0 <= r <= 99)
    ensures !(0 <= y <= 99) ==> r == y
  {
    if 0 <= y <= 99 then 1900 + y else y
  }

  /**
   * `new Date(y, m0, d)` with a 0-based month index and any day number:
   * years 0..99 mean 1900..1999, the month index carries into the year, and
   * the day counts on from the first of that month.
   */
  function MakeLocalDate(y: int, m0: int, d: int): (r: Date)
    ensures ValidDate(r)
  {
    AddDays(Date(LocalYear(y) + m0 / 12, m0 % 12 + 1, 1), d - 1)
  }

  /** An in-range triple is built exactly, outside the 0..99 year window. */
  lemma {:induction false} MakeLocalDateExact(d: Date)
    requires ValidDate(d) && !(0 <= d.year <= 99)
    ensures MakeLocalDate(d.year, d.month - 1, d.day) == d
  {
    assert (d.month - 1) / 12 == 0 && (d.month - 1) % 12 == d.month - 1;
    DayNumberInjective(MakeLocalDate(d.year, d.month - 1, d.day), d);
  }

  /**
   * `new Date(x.getFullYear(), x.getMonth(), x.getDate())`, the copy that
   * `clampDate` and `daysBetween` take: it goes through the two-digit-year
   * window, so a date in years 0..99 lands in 1900..1999.
   */
  function Rebuilt(d: Date): (r: Date)
    ensures ValidDate(r)
    ensures OutsideYearWindow(d) ==> r == d
  {
    MakeLocalDateKeeps(d);
    MakeLocalDate(d.year, d.month - 1, d.day)
  }

  lemma {:induction false} MakeLocalDateKeeps(d: Date)
    ensures OutsideYearWindow(d) ==> MakeLocalDate(d.year, d.month - 1, d.day) == d
  {
    if OutsideYearWindow(d) {
      MakeLocalDateExact(d);
    }
  }

  /** A valid date outside years 0..99, which the rebuild leaves as it is. */
  ghost predicate OutsideYearWindow(d: Date)
  {
    ValidDate(d) && !(0 <= d.year <= 99)
  }

  /** A date in years 0..99 is moved forward by 1900 years (here 0050-06-01 becomes 1950-06-01). */
  lemma {:induction false} RebuiltMovesWindow()
    ensures Rebuilt(Date(50, 6, 1)) == Date(1950, 6, 1)
    ensures Rebuilt(Date(99, 12, 1)) == Date(1999, 12, 1)
  {
  }

  /**
   * Outside years 0..99 `daysBetween` is the difference of the two day
   * numbers, which is what `DaysBetween` computes.
   */
  lemma {:induction false} DaysBetweenRebuilt(a: Date, b: Date)
    requires OutsideYearWindow(a) && OutsideYearWindow(b)
    ensures DaysBetween(a, b) == DayNumber(Rebuilt(b)) - DayNumber(Rebuilt(a))
  {
  }

  /**
   * Inside the window the two differ: from 0099-12-01 to 0100-01-01 the
   * rebuilt dates are 1999-12-01 and 0100-01-01, a negative distance,
   * while the dates themselves are one month apart.
   */
  lemma {:induction false} DaysBetweenWindowGap(a: Date, b: Date)
    requires a == Date(99, 12, 1) && b == Date(100, 1, 1)
    ensures DayNumber(Rebuilt(b)) - DayNumber(Rebuilt(a)) < 0
    ensures DaysBetween(a, b) == 31
  {
    WindowDayNumbers();
    RebuiltMovesWindow();
  }

  lemma {:induction false} WindowDayNumbers()
    ensures DayNumber(Date(99, 12, 1)) == 36128
    ensures DayNumber(Date(100, 1, 1)) == 36159
    ensures DayNumber(Date(1999, 12, 1)) == 730088
  {
    assert DaysBeforeYear(99) == 35794;
    assert DaysBeforeYear(100) == 36159;
    assert DaysBeforeYear(1999) == 729754;
  }

  /**
   * `clampDate(d, minD, maxD)`: a rebuilt copy of `minD` if `d` is earlier,
   * else one of `maxD` if `d` is later, else `d` itself.
   */
  function ClampDate(d: Date, minD: Date, maxD: Date): (r: Date)
    ensures Before(d, minD) ==> r == Rebuilt(minD)
    ensures !Before(d, minD) && Before(maxD, d) ==> r == Rebuilt(maxD)
    ensures AtMost(minD, d) && AtMost(d, maxD) ==> r == d
  {
    if Before(d, minD) then Rebuilt(minD) else if Before(maxD, d) then Rebuilt(maxD) else d
  }

  /** With bounds outside years 0..99 and `minD <= maxD`, the result always lies between them. */
  lemma {:induction false} ClampDateInRange(d: Date, minD: Date, maxD: Date)
    requires OutsideYearWindow(minD) && OutsideYearWindow(maxD) && AtMost(minD, maxD)
    ensures Before(d, minD) ==> ClampDate(d, minD, maxD) == minD
    ensures !Before(d, minD) && Before(maxD, d) ==> ClampDate(d, minD, maxD) == maxD
    ensures AtMost(minD, ClampDate(d, minD, maxD)) && AtMost(ClampDate(d, minD, maxD), maxD)
  {
  }

  /** With a bound inside the window the result can leave the range: 1950-06-01 is after 0060-01-01. */
  lemma {:induction false} ClampDateWindowEscapes()
    ensures ClampDate(Date(40, 1, 1), Date(50, 6, 1), Date(60, 1, 1)) == Date(1950, 6, 1)
    ensures Before(Date(60, 1, 1), ClampDate(Date(40, 1, 1), Date(50, 6, 1), Date(60, 1, 1)))
  {
    RebuiltMovesWindow();
  }

  /** The text shape `^\d{4}-\d{2}-\d{2}$` that `parseYMD` reads as a local date. */
  predicate IsIsoShape(s: string)
  {
    |s| == 10 && AllDigits(s[..4]) && s[4] == '-' && AllDigits(s[5..7]) && s[7] == '-'
    && AllDigits(s[8..])
  }

  /**
   * The ISO branch of `parseYMD`: the three numbers go through
   * `new Date(y, (m || 1) - 1, d || 1)`, so a zero month or day reads as 1 and
   * an out-of-range month or day rolls over. Other non-empty strings go to a
   * generic `new Date(...)` parse, which is not part of this model (None).
   */
  function ParseYMD(s: string): (r: Option<Date>)
    ensures r.Some? <==> IsIsoShape(s)
    ensures r.Some? ==> ValidDate(r.value)
  {
    if s == "" then None
    else if IsIsoShape(s) then
      var y := DigitsToNat(s[..4]);
      var m := DigitsToNat(s[5..7]);
      var d := DigitsToNat(s[8..]);
      Some(DateOfFields(y, m, d))
    else None
  }

  /** `^(\d{4})-(\d{2})-(\d{2})$` with a month of 1..12 and a day of 1..31. */
  predicate IsoInRange(s: string)
  {
    IsIsoShape(s) && 1 <= DigitsToNat(s[5..7]) <= 12 && 1 <= DigitsToNat(s[8..]) <= 31
  }

  /**
   * `new Date(iso)` of an ISO date, as a day number: midnight UTC of
   * that day, where a day past the end of its month runs on into the next
   * month (`2024-02-31` is 2 March), as the V8 engine reads it.
   */
  function IsoDay(s: string): int
    requires IsoInRange(s)
  {
    var first := Date(DigitsToNat(s[..4]), DigitsToNat(s[5..7]), 1);
    DayNumber(AddDays(first, DigitsToNat(s[8..]) - 1))
  }

  /** `new Date(startISO) > new Date(endISO)`. */
  predicate IsoAfter(a: string, b: string)
    requires IsoInRange(a) && IsoInRange(b)
  {
    IsoDay(a) > IsoDay(b)
  }

  /** The calendar date an ISO date names, when that day exists in its month. */
  function IsoDate(s: string): Date
    requires IsoInRange(s)
  {
    Date(DigitsToNat(s[..4]), DigitsToNat(s[5..7]), DigitsToNat(s[8..]))
  }

  /** For two calendar dates `new Date(a) > new Date(b)` is chronological order, for years 0..99 too. */
  lemma {:induction false} IsoAfterIsLater(a: string, b: string)
    requires IsoInRange(a) && IsoInRange(b) && ValidDate(IsoDate(a)) && ValidDate(IsoDate(b))
    ensures IsoAfter(a, b) <==> Before(IsoDate(b), IsoDate(a))
  {
    DayNumberOrder(IsoDate(b), IsoDate(a));
  }

  /** `new Date(y, (m || 1) - 1, d || 1)`: a zero month or day counts as 1. */
  function DateOfFields(y: nat, m: nat, d: nat): (r: Date)
    ensures ValidDate(r)
  {
    MakeLocalDate(y, (if m == 0 then 1 else m) - 1, if d == 0 then 1 else d)
  }

  /** Two decimal digits, as `String(n).padStart(2, '0')` gives for 0..99. */
  function TwoDigits(n: nat): (s: string)
    requires n <= 99
    ensures s == [DigitChar(n / 10), DigitChar(n % 10)]
  {
    Pad2Digits(n);
    PadStart(NatToString(n), 2, '0')
  }

  lemma {:induction false} TwoDigitsValue(n: nat)
    requires n <= 99
    ensures AllDigits(TwoDigits(n)) && DigitsToNat(TwoDigits(n)) == n
  {
    DigitsToNatTwo(TwoDigits(n));
  }

  /** The `-MM-DD` part of `dateToISO`. */
  function MonthDayTail(m: nat, day: nat): (t: string)
    requires m <= 99 && day <= 99
    ensures t == ['-', DigitChar(m / 10), DigitChar(m % 10), '-', DigitChar(day / 10), DigitChar(day % 10)]
  {
    "-" + TwoDigits(m) + "-" + TwoDigits(day)
  }

  /** `dateToISO(d)`: the year is unpadded, month and day are two digits. */
  function DateToISO(d: Date): string
    requires ValidDate(d)
  {
    IntToString(d.year) + MonthDayTail(d.month, d.day)
  }

  /** Two dates have the same ISO text exactly when they are the same date. */
  lemma {:induction false} DateToISOInjective(a: Date, b: Date)
    requires ValidDate(a) && ValidDate(b)
    ensures DateToISO(a) == DateToISO(b) <==> a == b
  {
    if DateToISO(a) == DateToISO(b) {
      var ya, yb := IntToString(a.year), IntToString(b.year);
      var ta, tb := MonthDayTail(a.month, a.day), MonthDayTail(b.month, b.day);
      assert |ya| == |yb|;
      assert ya == (ya + ta)[..|ya|] == (yb + tb)[..|yb|] == yb;
      assert ta == (ya + ta)[|ya|..] == (yb + tb)[|yb|..] == tb;
      IntToStringInjective(a.year, b.year);
      assert DigitValue(ta[1]) * 10 + DigitValue(ta[2]) == a.month;
      assert DigitValue(ta[4]) * 10 + DigitValue(ta[5]) == a.day;
    }
  }

  /** A well-formed in-range ISO string is read as exactly the date it spells. */
  lemma {:induction false} ParseYMDExact(s: string, d: Date)
    requires IsIsoShape(s) && ValidDate(d) && 100 <= d.year
    requires DigitsToNat(s[..4]) == d.year && DigitsToNat(s[5..7]) == d.month
    requires DigitsToNat(s[8..]) == d.day
    ensures ParseYMD(s) == Some(d)
  {
    MakeLocalDateExact(d);
  }

  /** For a four-digit year, `dateToISO` writes the `YYYY-MM-DD` shape with the date's own numbers. */
  lemma {:induction false} DateToISOFields(d: Date)
    requires ValidDate(d) && 1000 <= d.year <= 9999
    ensures var s := DateToISO(d);
      IsIsoShape(s) && DigitsToNat(s[..4]) == d.year && DigitsToNat(s[5..7]) == d.month
      && DigitsToNat(s[8..]) == d.day
  {
    var s := DateToISO(d);
    NatToStringFour(d.year);
    NatToStringRoundTrip(d.year);
    assert s[..4] == NatToString(d.year);
    assert s[5..7] == TwoDigits(d.month) && s[8..] == TwoDigits(d.day);
    TwoDigitsValue(d.month);
    TwoDigitsValue(d.day);
  }

  /** `parseYMD` reads back what `dateToISO` writes, for four-digit years. */
  lemma {:induction false} ParseDateToISO(d: Date)
    requires ValidDate(d) && 1000 <= d.year <= 9999
    ensures ParseYMD(DateToISO(d)) == Some(d)
  {
    DateToISOFields(d);
    ParseYMDExact(DateToISO(d), d);
  }

  /** What `parseYMD` computes from the three digit groups of an ISO-shaped string. */
  lemma {:induction false} ParseYMDFields(s: string, y: nat, m: nat, day: nat)
    requires IsIsoShape(s)
    requires DigitsToNat(s[..4]) == y && DigitsToNat(s[5..7]) == m && DigitsToNat(s[8..]) == day
    ensures ParseYMD(s) == Some(DateOfFields(y, m, day))
  {
    assert s != "";
  }

  lemma {:induction false} DigitsToNatFour(s: string)
    requires |s| == 4 && AllDigits(s)
    ensures DigitsToNat(s) == DigitValue(s[0]) * 1000 + DigitValue(s[1]) * 100 + DigitValue(s[2]) * 10 + DigitValue(s[3])
  {
    var h := s[..3];
    var g := h[..2];
    assert h[..|h| - 1] == g && s[..|s| - 1] == h;
    DigitsToNatTwo(g);
  }

  /**
   * A February day past the 28th of a common year rolls over into March:
   * `YYYY-02-DD` with 29 <= DD <= 59 is read as March DD - 28.
   */
  lemma {:induction false} FebruaryOverflowRollsOver(s: string, y: nat, day: nat)
    requires IsIsoShape(s) && 100 <= y && !IsLeapYear(y) && 29 <= day <= 59
    requires DigitsToNat(s[..4]) == y && DigitsToNat(s[5..7]) == 2 && DigitsToNat(s[8..]) == day
    ensures ParseYMD(s) == Some(Date(y, 3, day - 28))
  {
    ParseYMDFields(s, y, 2, day);
    DaysInMonthCases(y, 2);
    var r := DateOfFields(y, 2, day);
    assert r == MakeLocalDate(y, 1, day);
    assert r == AddDays(Date(y, 2, 1), day - 1);
    DayNumberInjective(r, Date(y, 3, day - 28));
  }

  /** An impossible day of the month rolls over: 2025-02-30 is read as 2 March 2025. */
  lemma {:induction false} ParseYMDRollsOver(s: string)
    requires s == "2025-02-30"
    ensures ParseYMD(s) == Some(Date(2025, 3, 2))
  {
    var ys, ms, ds := s[..4], s[5..7], s[8..];
    assert ys == "2025" && ms == "02" && ds == "30";
    assert IsIsoShape(s);
    DigitsToNatFour(ys);
    DigitsToNatTwo(ms);
    DigitsToNatTwo(ds);
    assert DigitsToNat(ys) == 2025 && DigitsToNat(ms) == 2 && DigitsToNat(ds) == 30;
    assert !IsLeapYear(2025);
    FebruaryOverflowRollsOver(s, 2025, 30);
  }
}

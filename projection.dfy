/**
 * Timeline projection of the chart: a date becomes a fractional month
 * position on the month grid (`posFromDate`), a position becomes a date
 * again (`dateFromPos`), and bars and markers get their left/width
 * percentages from the same start-uses-day-minus-one / end-uses-day rule
 * (`computeLeftWidthPct`, `createTaskRow`, `createGroupBar`, the milestone
 * and today markers). Positions are exact rationals.
 */
module Projection {
  import opened Text
  import opened Dates
  import opened MonthGrid

  /** `Math.round(x)` for the values used here: the floor of `x + 1/2`. */
  function Round(x: real): (r: int)
    ensures x - 0.5 < r as real <= x + 0.5
  {
    (x + 0.5).Floor
  }

  /** `Math.max(lo, Math.min(hi, x))`. */
  function ClampInt(x: int, lo: int, hi: int): int
  {
    if x > hi then (if hi < lo then lo else hi) else if x < lo then lo else x
  }

  function ClampReal(x: real, lo: real, hi: real): (r: real)
    requires lo <= hi
    ensures lo <= r <= hi
    ensures lo <= x <= hi ==> r == x
  {
    if x > hi then hi else if x < lo then lo else x
  }

  /** `{ year: d.getFullYear(), month: d.getMonth() + 1 }`. */
  function CalMonth(d: Date): YearMonth
  {
    YearMonth(d.year, d.month)
  }

  /** `new Date(y, m, 0).getDate()`: the length of month `m` of the year `new Date` reads `y` as. */
  function MonthLength(y: int, m: int): (n: int)
    ensures 28 <= n <= 31
  {
    DaysInMonth(LocalYear(y), m)
  }

  /** `months.findIndex(mm => mm.year === y && mm.month === m)`: the first match, or -1. */
  function IndexOf(months: seq<YearMonth>, ym: YearMonth): (i: int)
    ensures -1 <= i < |months|
    ensures i >= 0 ==> months[i] == ym
    ensures i < 0 <==> ym !in months
  {
    if months == [] then -1
    else if months[0] == ym then 0
    else
      var r := IndexOf(months[1..], ym);
      if r < 0 then -1 else r + 1
  }

  lemma {:induction false} IndexOfFirst(months: seq<YearMonth>, ym: YearMonth, j: int)
    requires 0 <= j < IndexOf(months, ym)
    ensures months[j] != ym
  {
    if j > 0 {
      IndexOfFirst(months[1..], ym, j - 1);
    }
  }

  /** The grid the chart uses: at least one month, each a real month, none in a year `new Date` would move. */
  predicate GridOk(months: seq<YearMonth>)
  {
    |months| >= 1 && forall k :: 0 <= k < |months| ==> ValidMonth(months[k]) && !(0 <= months[k].year <= 99)
  }

  /**
   * The elapsed fraction of the month at a date: `(day - 1) / dim` for a
   * start (the start of the day), `day / dim` for an inclusive end (the end of the day).
   */
  function DayFraction(d: Date, inclusiveEnd: bool): real
  {
    (if inclusiveEnd then d.day else d.day - 1) as real / MonthLength(d.year, d.month) as real
  }

  /** `posFromDate(d, inclusiveEnd)`: month index plus the elapsed fraction of the month. */
  function PosFromDate(months: seq<YearMonth>, d: Date, inclusiveEnd: bool): real
  {
    IndexOf(months, CalMonth(d)) as real + DayFraction(d, inclusiveEnd)
  }

  /** The grid index `dateFromPos` reads from: the floor of the position, clamped to the grid. */
  function GridIndex(months: seq<YearMonth>, pos: real): (k: int)
    requires |months| >= 1
    ensures 0 <= k < |months|
  {
    ClampInt(pos.Floor, 0, |months| - 1)
  }

  /** The day of the month `dateFromPos` picks, before the date is built. */
  function DayFromFraction(frac: real, dim: int, inclusiveEnd: bool): (day: int)
    requires dim >= 1
    ensures 1 <= day <= dim
  {
    if inclusiveEnd then ClampInt(Round(frac * dim as real), 1, dim)
    else ClampInt(Round(frac * dim as real) + 1, 1, dim)
  }

  /**
   * `dateFromPos(pos, inclusiveEnd)`. The fraction is taken against the
   * unclamped floor, as the code does. The date is `new Date(y, m - 1, day)`
   * with a day inside the month of a grid year outside 0..99, which
   * `DateFromPosIsLocalDate` shows is exactly the triple.
   */
  function DateFromPos(months: seq<YearMonth>, pos: real, inclusiveEnd: bool): (r: Date)
    requires GridOk(months)
    ensures ValidDate(r)
  {
    var frac := pos - pos.Floor as real;
    var ym := months[GridIndex(months, pos)];
    var dim := MonthLength(ym.year, ym.month);
    Date(ym.year, ym.month, DayFromFraction(frac, dim, inclusiveEnd))
  }

  lemma {:induction false} DateFromPosIsLocalDate(months: seq<YearMonth>, pos: real, inclusiveEnd: bool)
    requires GridOk(months)
    ensures var ym := months[GridIndex(months, pos)];
      var frac := pos - pos.Floor as real;
      DateFromPos(months, pos, inclusiveEnd)
        == MakeLocalDate(ym.year, ym.month - 1, DayFromFraction(frac, MonthLength(ym.year, ym.month), inclusiveEnd))
  {
    var ym := months[GridIndex(months, pos)];
    assert ValidMonth(ym) && !(0 <= ym.year <= 99);
    var dim := MonthLength(ym.year, ym.month);
    LocalDateInMonth(ym, DayFromFraction(pos - pos.Floor as real, dim, inclusiveEnd));
  }

  /** `new Date(y, m - 1, day)` for a day inside a month of a year outside 0..99 is that very day. */
  lemma {:induction false} LocalDateInMonth(ym: YearMonth, day: int)
    requires ValidMonth(ym) && !(0 <= ym.year <= 99) && 1 <= day <= MonthLength(ym.year, ym.month)
    ensures MakeLocalDate(ym.year, ym.month - 1, day) == Date(ym.year, ym.month, day)
  {
    var d := Date(ym.year, ym.month, day);
    assert LocalYear(ym.year) == ym.year;
    assert ValidDate(d);
    MakeLocalDateExact(d);
  }

  /** Every position maps to a real day of a grid month: the clamped month, a day within its length. */
  lemma {:induction false} DateFromPosInGrid(months: seq<YearMonth>, pos: real, inclusiveEnd: bool)
    requires GridOk(months)
    ensures var r := DateFromPos(months, pos, inclusiveEnd);
      var k := GridIndex(months, pos);
      CalMonth(r) == months[k] && 1 <= r.day <= DaysInMonth(r.year, r.month)
  {
  }

  lemma {:induction false} FloorOfIndexPlusFraction(i: int, f: real)
    requires 0.0 <= f < 1.0
    ensures (i as real + f).Floor == i
  {
  }

  /** `k / n` for `0 <= k <= n` lies in `[0, 1]`, below 1 when `k < n`, and scales back to `k`. */
  lemma {:induction false} Fraction(k: int, n: int)
    requires 0 <= k <= n && n >= 1
    ensures 0.0 <= k as real / n as real <= 1.0
    ensures k < n ==> k as real / n as real < 1.0
    ensures (k as real / n as real) * n as real == k as real
  {
    var f := k as real / n as real;
    assert f * n as real == k as real;
  }

  /** The date `dateFromPos` gives for a position `i + k / dim` inside grid month `i`. */
  lemma {:induction false} DateFromPosAt(months: seq<YearMonth>, i: int, k: int, inclusiveEnd: bool)
    requires GridOk(months) && 0 <= i < |months|
    requires var dim := MonthLength(months[i].year, months[i].month); 0 <= k < dim
    ensures var ym := months[i];
      var dim := MonthLength(ym.year, ym.month);
      var day := if inclusiveEnd then (if k == 0 then 1 else k) else k + 1;
      DateFromPos(months, i as real + k as real / dim as real, inclusiveEnd) == Date(ym.year, ym.month, day)
  {
    var ym := months[i];
    var dim := MonthLength(ym.year, ym.month);
    var f := k as real / dim as real;
    Fraction(k, dim);
    PositionInMonth(months, i, f);
    DayAtFraction(k, dim, inclusiveEnd);
  }

  /** A position `i + f` with `0 <= f < 1` reads grid month `i` and fraction `f`. */
  lemma {:induction false} PositionInMonth(months: seq<YearMonth>, i: int, f: real)
    requires |months| >= 1 && 0 <= i < |months| && 0.0 <= f < 1.0
    ensures var pos := i as real + f;
      GridIndex(months, pos) == i && pos - pos.Floor as real == f
  {
    FloorOfIndexPlusFraction(i, f);
  }

  /** The fraction `k / dim` of a month rounds back to day `k` (end) or `k + 1` (start). */
  lemma {:induction false} DayAtFraction(k: int, dim: int, inclusiveEnd: bool)
    requires 0 <= k < dim
    ensures DayFromFraction(k as real / dim as real, dim, inclusiveEnd)
      == if inclusiveEnd then (if k == 0 then 1 else k) else k + 1
  {
    var f := k as real / dim as real;
    Fraction(k, dim);
    assert Round(f * dim as real) == k;
  }

  /** The position of a date whose month is on the grid, at the grid index of that month. */
  lemma {:induction false} PosFromDateAt(months: seq<YearMonth>, d: Date, inclusiveEnd: bool)
    requires GridOk(months) && ValidDate(d) && CalMonth(d) in months
    ensures var i := IndexOf(months, CalMonth(d));
      0 <= i < |months| && months[i] == CalMonth(d) && LocalYear(d.year) == d.year
      && MonthLength(d.year, d.month) == DaysInMonth(d.year, d.month)
      && PosFromDate(months, d, inclusiveEnd)
        == i as real + (if inclusiveEnd then d.day else d.day - 1) as real / DaysInMonth(d.year, d.month) as real
  {
    var i := IndexOf(months, CalMonth(d));
    assert ValidMonth(months[i]) && !(0 <= months[i].year <= 99);
  }

  /** A start-anchored position reads back as the same date, for every date whose month is on the grid. */
  lemma {:induction false} StartRoundTrip(months: seq<YearMonth>, d: Date)
    requires GridOk(months) && ValidDate(d) && CalMonth(d) in months
    ensures DateFromPos(months, PosFromDate(months, d, false), false) == d
  {
    PosFromDateAt(months, d, false);
    DateFromPosAt(months, IndexOf(months, CalMonth(d)), d.day - 1, false);
  }

  /** An inclusive-end position lies in `(i, i + 1]` for the date's grid index `i`. */
  lemma {:induction false} EndPositionRange(months: seq<YearMonth>, d: Date)
    requires GridOk(months) && ValidDate(d) && CalMonth(d) in months
    ensures var i := IndexOf(months, CalMonth(d));
      i as real < PosFromDate(months, d, true) <= i as real + 1.0
  {
    PosFromDateAt(months, d, true);
    Fraction(d.day, MonthLength(d.year, d.month));
  }

  /** A start-anchored position lies in `[i, i + 1)`. */
  lemma {:induction false} StartPositionRange(months: seq<YearMonth>, d: Date)
    requires GridOk(months) && ValidDate(d) && CalMonth(d) in months
    ensures var i := IndexOf(months, CalMonth(d));
      i as real <= PosFromDate(months, d, false) < i as real + 1.0
  {
    PosFromDateAt(months, d, false);
    Fraction(d.day - 1, MonthLength(d.year, d.month));
  }

  /** An inclusive end before the last day of its month reads back as itself. */
  lemma {:induction false} EndRoundTripBeforeMonthEnd(months: seq<YearMonth>, d: Date)
    requires GridOk(months) && ValidDate(d) && CalMonth(d) in months
    requires d.day < DaysInMonth(d.year, d.month)
    ensures DateFromPos(months, PosFromDate(months, d, true), true) == d
  {
    PosFromDateAt(months, d, true);
    DateFromPosAt(months, IndexOf(months, CalMonth(d)), d.day, true);
  }

  /**
   * The inclusive end on the last day of a month sits exactly on the next
   * month boundary, so it reads back as the first day of the next grid month,
   * or of the last grid month when it is already the last one.
   */
  lemma {:induction false} EndOnMonthEndMovesToNextMonth(months: seq<YearMonth>, d: Date)
    requires GridOk(months) && ValidDate(d) && CalMonth(d) in months
    requires d.day == DaysInMonth(d.year, d.month)
    ensures var i := IndexOf(months, CalMonth(d));
      var next := months[if i + 1 < |months| then i + 1 else |months| - 1];
      DateFromPos(months, PosFromDate(months, d, true), true) == Date(next.year, next.month, 1)
  {
    PosFromDateAt(months, d, true);
    var i := IndexOf(months, CalMonth(d));
    var dim := DaysInMonth(d.year, d.month);
    Fraction(dim, dim);
    var pos := PosFromDate(months, d, true);
    assert pos == (i + 1) as real;
    assert pos.Floor == i + 1;
    var k := if i + 1 < |months| then i + 1 else |months| - 1;
    assert GridIndex(months, pos) == k;
    assert pos - pos.Floor as real == 0.0;
    var next := months[k];
    assert DayFromFraction(0.0, MonthLength(next.year, next.month), true) == 1;
  }

  // ----- Monotonicity -----

  /** On a chronological grid a later month has a later index. */
  lemma {:induction false} IndexOfOrdered(months: seq<YearMonth>, x: YearMonth, y: YearMonth)
    requires Chronological(months) && x in months && y in months
    requires Ordinal(x) < Ordinal(y)
    ensures IndexOf(months, x) < IndexOf(months, y)
  {
  }

  /** Within one month a later day has a larger fraction, for both anchors. */
  lemma {:induction false} DayFractionMonotone(a: int, b: int, dim: int)
    requires 1 <= a <= b <= dim
    ensures (a - 1) as real / dim as real <= (b - 1) as real / dim as real
    ensures a as real / dim as real <= b as real / dim as real
    ensures (a - 1) as real / dim as real < b as real / dim as real
  {
    var n := dim as real;
    assert (b - 1) as real / n - (a - 1) as real / n == (b - a) as real / n;
    assert b as real / n - a as real / n == (b - a) as real / n;
    assert b as real / n - (a - 1) as real / n == (b - a + 1) as real / n;
  }

  /**
   * On a chronological grid `posFromDate` never decreases as the date
   * advances, for either anchor, and an inclusive end lies strictly after the
   * start anchor of any date up to it.
   */
  lemma {:induction false} PosFromDateMonotone(months: seq<YearMonth>, a: Date, b: Date, inclusiveEnd: bool)
    requires GridOk(months) && Chronological(months)
    requires ValidDate(a) && ValidDate(b) && CalMonth(a) in months && CalMonth(b) in months
    requires AtMost(a, b)
    ensures PosFromDate(months, a, inclusiveEnd) <= PosFromDate(months, b, inclusiveEnd)
    ensures PosFromDate(months, a, false) < PosFromDate(months, b, true)
  {
    PosFromDateAt(months, a, inclusiveEnd);
    PosFromDateAt(months, b, inclusiveEnd);
    PosFromDateAt(months, a, false);
    PosFromDateAt(months, b, true);
    if CalMonth(a) == CalMonth(b) {
      DayFractionMonotone(a.day, b.day, DaysInMonth(a.year, a.month));
    } else {
      StartPositionRange(months, a);
      StartPositionRange(months, b);
      EndPositionRange(months, a);
      EndPositionRange(months, b);
      IndexOfOrdered(months, CalMonth(a), CalMonth(b));
    }
  }
}

/**
 * The left/width percentages of task bars, group bars and the milestone and
 * today markers: `computeLeftWidthPct` of the drag code, the same arithmetic
 * repeated in `createTaskRow` and `createGroupBar`, and the marker offsets.
 */
module Bars {
  import opened Text
  import opened Dates
  import opened MonthGrid
  import opened Projection


  /** A bar's `left` and `width`, in percent of the chart width. */
  datatype Span = Span(left: real, width: real)

  /** `100 / totalMonths` with `totalMonths = Math.max(1, months.length)`. */
  function MonthWidthPct(months: seq<YearMonth>): (w: real)
    ensures w > 0.0
  {
    100.0 / (if |months| > 1 then |months| else 1) as real
  }

  /**
   * The left/width arithmetic shared by `computeLeftWidthPct`, `createTaskRow`
   * and `createGroupBar`: `left = startIndex * mw + startOffset` and
   * `width = (endIndex - startIndex) * mw + endOffset - startOffset`, each
   * offset being the day fraction times the month width `mw`.
   */
  function SpanFrom(sIdx: int, sFrac: real, eIdx: int, eFrac: real, mw: real): Span
  {
    var startOffset := sFrac * mw;
    var endOffset := eFrac * mw;
    Span(StartPct(sIdx, sFrac, mw), (eIdx - sIdx) as real * mw + endOffset - startOffset)
  }

  /** `monthIndex * monthWidth + startOffset`: where a bar or marker starting at that day begins. */
  function StartPct(idx: int, frac: real, mw: real): real
  {
    idx as real * mw + frac * mw
  }

  /**
   * `computeLeftWidthPct(startDate, endDate)`: the start offset uses day - 1,
   * the end offset uses the day itself (an inclusive end); the month indices
   * are used as `findIndex` gives them, even when one is -1.
   */
  function LeftWidthPct(months: seq<YearMonth>, s: Date, e: Date): Span
  {
    LeftWidthWith(months, s, e, MonthWidthPct(months))
  }

  /** The same formula for a given month width `mw`. */
  function LeftWidthWith(months: seq<YearMonth>, s: Date, e: Date, mw: real): Span
  {
    SpanFrom(IndexOf(months, CalMonth(s)), DayFraction(s, false),
      IndexOf(months, CalMonth(e)), DayFraction(e, true), mw)
  }

  /**
   * The bar of `createTaskRow` and `createGroupBar`: nothing when either month
   * is missing from the grid, otherwise the same left/width formula.
   */
  function BarSpan(months: seq<YearMonth>, s: Date, e: Date): (r: Option<Span>)
    ensures r.None? <==> CalMonth(s) !in months || CalMonth(e) !in months
    ensures r.Some? ==> r.value == LeftWidthPct(months, s, e)
  {
    if IndexOf(months, CalMonth(s)) == -1 || IndexOf(months, CalMonth(e)) == -1 then None
    else Some(LeftWidthWith(months, s, e, 100.0 / |months| as real))
  }

  /**
   * The `left` of a milestone or today marker: the start-of-day position on
   * the grid, clamped into `[0, 100]`; nothing when the month is not on the grid.
   */
  function MarkerLeft(months: seq<YearMonth>, d: Date): (r: Option<real>)
    ensures r.None? <==> CalMonth(d) !in months
    ensures r.Some? ==> 0.0 <= r.value <= 100.0
  {
    var monthIndex := IndexOf(months, CalMonth(d));
    if monthIndex == -1 then None
    else
      var left := StartPct(monthIndex, DayFraction(d, false), 100.0 / |months| as real);
      Some(if left < 0.0 then 0.0 else if left > 100.0 then 100.0 else left)
  }

  /**
   * `renderTodayMarker`: nothing when today is outside the chart bounds or its
   * month is not on the grid, otherwise the marker position.
   */
  function TodayMarkerLeft(months: seq<YearMonth>, today: Date, chartMin: Date, chartMax: Date): (r: Option<real>)
    ensures r.Some? ==> AtMost(chartMin, today) && AtMost(today, chartMax) && r == MarkerLeft(months, today)
    ensures AtMost(chartMin, today) && AtMost(today, chartMax) ==> r == MarkerLeft(months, today)
  {
    if Before(today, chartMin) || Before(chartMax, today) then None
    else MarkerLeft(months, today)
  }
}

/** What the bar and marker arithmetic of `Bars` means on the month grid. */
module BarFacts {
  import opened Text
  import opened Dates
  import opened MonthGrid
  import opened Projection
  import opened Bars

  // The arithmetic is done for an arbitrary month width `mw`; the lemmas about
  // `LeftWidthPct` then only substitute `MonthWidthPct(months)` for it.

  /** A bar's left edge is the start position scaled by the month width. */
  lemma {:induction false} StartPctOfPosition(idx: int, frac: real, mw: real, pos: real)
    requires pos == idx as real + frac
    ensures StartPct(idx, frac, mw) == pos * mw
  {
    Distribute(idx as real, frac, mw);
  }

  /** A bar's width is the distance between its two positions scaled by the month width. */
  lemma {:induction false} WidthOfPositions(sIdx: int, sFrac: real, eIdx: int, eFrac: real, mw: real, sPos: real, ePos: real)
    requires sPos == sIdx as real + sFrac && ePos == eIdx as real + eFrac
    ensures SpanFrom(sIdx, sFrac, eIdx, eFrac, mw).width == (ePos - sPos) * mw
  {
    Distribute((eIdx - sIdx) as real, eFrac - sFrac, mw);
  }

  lemma {:induction false} PositionIsSum(months: seq<YearMonth>, d: Date, inclusiveEnd: bool)
    ensures PosFromDate(months, d, inclusiveEnd) == IndexOf(months, CalMonth(d)) as real + DayFraction(d, inclusiveEnd)
  {
  }

  lemma {:induction false} LeftAtPosition(months: seq<YearMonth>, s: Date, e: Date, mw: real, ps: real)
    requires ps == PosFromDate(months, s, false)
    ensures LeftWidthWith(months, s, e, mw).left == ps * mw
  {
    PositionIsSum(months, s, false);
    StartPctOfPosition(IndexOf(months, CalMonth(s)), DayFraction(s, false), mw, ps);
  }

  lemma {:induction false} WidthAtPositions(months: seq<YearMonth>, s: Date, e: Date, mw: real, ps: real, pe: real)
    requires ps == PosFromDate(months, s, false) && pe == PosFromDate(months, e, true)
    ensures LeftWidthWith(months, s, e, mw).width == (pe - ps) * mw
  {
    PositionIsSum(months, s, false);
    PositionIsSum(months, e, true);
    WidthOfPositions(IndexOf(months, CalMonth(s)), DayFraction(s, false), IndexOf(months, CalMonth(e)), DayFraction(e, true),
      mw, ps, pe);
  }

  /**
   * `computeLeftWidthPct` is `posFromDate` scaled to percent: `left` is the
   * start position and `width` the distance from it to the inclusive-end
   * position, both times the month width.
   */
  lemma {:induction false} LeftWidthFromPositions(months: seq<YearMonth>, s: Date, e: Date)
    ensures LeftWidthPct(months, s, e).left == PosFromDate(months, s, false) * MonthWidthPct(months)
    ensures LeftWidthPct(months, s, e).width
      == (PosFromDate(months, e, true) - PosFromDate(months, s, false)) * MonthWidthPct(months)
  {
    SpanAtPositions(months, s, e, MonthWidthPct(months), PosFromDate(months, s, false), PosFromDate(months, e, true));
  }

  /** Positions `0 <= ps < pe <= n` on a grid of `n` months scale to a bar inside `[0, 100]`. */
  lemma {:induction false} ScaleToPercent(ps: real, pe: real, n: real, mw: real)
    requires n >= 1.0 && n * mw == 100.0 && 0.0 <= ps < pe <= n
    ensures 0.0 <= ps * mw < 100.0 && (pe - ps) * mw > 0.0 && ps * mw + (pe - ps) * mw <= 100.0
  {
    var full := n * mw;
    if mw <= 0.0 {
      MulAtMost(mw, 0.0, n);
      assert false;
    }
    var left, right, width := ps * mw, pe * mw, (pe - ps) * mw;
    MulAtMost(0.0, ps, mw);
    assert 0.0 <= left;
    MulLess(ps, n, mw);
    assert left < full;
    MulLess(0.0, pe - ps, mw);
    assert 0.0 < width;
    MulAtMost(pe, n, mw);
    assert right <= full;
    Distribute(ps, pe - ps, mw);
    assert left + width == right;
  }

  lemma {:induction false} MulLess(a: real, b: real, c: real)
    requires a < b && c > 0.0
    ensures a * c < b * c
  {
  }

  lemma {:induction false} MulAtMost(a: real, b: real, c: real)
    requires a <= b && c >= 0.0
    ensures a * c <= b * c
  {
  }

  lemma {:induction false} Distribute(a: real, b: real, c: real)
    ensures a * c + b * c == (a + b) * c
  {
  }

  lemma {:induction false} MonthWidthTimesCount(months: seq<YearMonth>)
    requires |months| >= 1
    ensures |months| as real * MonthWidthPct(months) == 100.0
  {
  }

  lemma {:induction false} MonthWidthOfGrid(months: seq<YearMonth>)
    requires |months| >= 1
    ensures MonthWidthPct(months) == 100.0 / |months| as real
  {
  }

  lemma {:induction false} BoundsWith(months: seq<YearMonth>, s: Date, e: Date, mw: real, ps: real, pe: real)
    requires ps == PosFromDate(months, s, false) && pe == PosFromDate(months, e, true)
    requires 0.0 <= ps < pe <= |months| as real
    requires |months| >= 1 && |months| as real * mw == 100.0
    ensures var r := LeftWidthWith(months, s, e, mw);
      0.0 <= r.left < 100.0 && r.width > 0.0 && r.left + r.width <= 100.0
  {
    SpanAtPositions(months, s, e, mw, ps, pe);
    SpanBounds(months, s, e, mw, ps, pe);
  }

  lemma {:induction false} SpanAtPositions(months: seq<YearMonth>, s: Date, e: Date, mw: real, ps: real, pe: real)
    requires ps == PosFromDate(months, s, false) && pe == PosFromDate(months, e, true)
    ensures LeftWidthWith(months, s, e, mw).left == ps * mw
    ensures LeftWidthWith(months, s, e, mw).width == (pe - ps) * mw
  {
    LeftAtPosition(months, s, e, mw, ps);
    WidthAtPositions(months, s, e, mw, ps, pe);
  }

  lemma {:induction false} SpanBounds(months: seq<YearMonth>, s: Date, e: Date, mw: real, ps: real, pe: real)
    requires LeftWidthWith(months, s, e, mw).left == ps * mw
    requires LeftWidthWith(months, s, e, mw).width == (pe - ps) * mw
    requires 0.0 <= ps < pe <= |months| as real
    requires |months| >= 1 && |months| as real * mw == 100.0
    ensures var r := LeftWidthWith(months, s, e, mw);
      0.0 <= r.left < 100.0 && r.width > 0.0 && r.left + r.width <= 100.0
  {
    SpanWithin(LeftWidthWith(months, s, e, mw), ps, pe, |months| as real, mw);
  }

  lemma {:induction false} SpanWithin(r: Span, ps: real, pe: real, n: real, mw: real)
    requires r.left == ps * mw && r.width == (pe - ps) * mw
    requires n >= 1.0 && n * mw == 100.0 && 0.0 <= ps < pe <= n
    ensures 0.0 <= r.left < 100.0 && r.width > 0.0 && r.left + r.width <= 100.0
  {
    ScaleToPercent(ps, pe, n, mw);
  }

  /** A bar's start and end positions lie in order inside `[0, totalMonths]`. */
  lemma {:induction false} PositionsInGrid(months: seq<YearMonth>, s: Date, e: Date)
    requires GridOk(months) && Chronological(months)
    requires ValidDate(s) && ValidDate(e) && CalMonth(s) in months && CalMonth(e) in months
    requires AtMost(s, e)
    ensures 0.0 <= PosFromDate(months, s, false) < PosFromDate(months, e, true) <= |months| as real
  {
    PosFromDateMonotone(months, s, e, true);
    StartPositionRange(months, s);
    EndPositionRange(months, e);
  }

  /**
   * On a chronological grid a bar from `s` to a later-or-equal `e` starts
   * inside the chart, has positive width and ends no further right than 100%.
   */
  lemma {:induction false} LeftWidthBounds(months: seq<YearMonth>, s: Date, e: Date)
    requires GridOk(months) && Chronological(months)
    requires ValidDate(s) && ValidDate(e) && CalMonth(s) in months && CalMonth(e) in months
    requires AtMost(s, e)
    ensures var r := LeftWidthPct(months, s, e);
      0.0 <= r.left < 100.0 && r.width > 0.0 && r.left + r.width <= 100.0
  {
    PositionsInGrid(months, s, e);
    MonthWidthTimesCount(months);
    BoundsWith(months, s, e, MonthWidthPct(months), PosFromDate(months, s, false), PosFromDate(months, e, true));
  }

  /** The bar of `createTaskRow` is the one `computeLeftWidthPct` gives, whenever both months are on the grid. */
  lemma {:induction false} BarSpanIsLeftWidth(months: seq<YearMonth>, s: Date, e: Date)
    requires ValidDate(s) && ValidDate(e) && CalMonth(s) in months && CalMonth(e) in months
    ensures BarSpan(months, s, e) == Some(LeftWidthPct(months, s, e))
  {
    MonthWidthOfGrid(months);
  }

  /** A marker sits exactly where a bar starting on the same day would start: the clamp never bites. */
  lemma {:induction false} MarkerAtBarStart(months: seq<YearMonth>, d: Date)
    requires GridOk(months) && Chronological(months) && ValidDate(d) && CalMonth(d) in months
    ensures MarkerLeft(months, d) == Some(LeftWidthPct(months, d, d).left)
  {
    LeftWidthBounds(months, d, d);
    MonthWidthOfGrid(months);
  }

  /**
   * A grid of January to March 2025 and a bar from 15 January to 10 February
   * 2025: left is 14/31 of the first month and the bar reaches 10/28 into the
   * second.
   */
  lemma {:induction false} ScenarioJanuaryToFebruary()
    ensures var months := [YearMonth(2025, 1), YearMonth(2025, 2), YearMonth(2025, 3)];
      var r := LeftWidthPct(months, Date(2025, 1, 15), Date(2025, 2, 10));
      r.left == (14.0 / 31.0) * 100.0 / 3.0
      && r.width == (1.0 + 10.0 / 28.0 - 14.0 / 31.0) * 100.0 / 3.0
  {
    var months := [YearMonth(2025, 1), YearMonth(2025, 2), YearMonth(2025, 3)];
    assert IndexOf(months, YearMonth(2025, 1)) == 0;
    assert IndexOf(months, YearMonth(2025, 2)) == 1;
  }
}

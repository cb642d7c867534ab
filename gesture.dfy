/**
 * The drag/resize gesture on a task bar: `mousedown` records the task's
 * dates and their grid positions (`taskDragState`), every `mousemove`
 * (`performUpdate`) turns the pixel delta into a month delta, shifts one or
 * both positions, clamps them into the chart, converts them back to dates
 * and repairs an inversion, and `mouseup` (`onMouseUp`) commits the preview
 * only when its ISO dates differ from the original ones.
 */
module Gesture {
  import opened Text
  import opened Dates
  import opened MonthGrid
  import opened Projection

  /** `type: 'move'`, or `type: 'resize'` with `side: 'left'` / `'right'`. */
  datatype DragKind = Move | ResizeLeft | ResizeRight

  /** The `updateTaskDates(taskId, start, end)` call `onMouseUp` makes. */
  datatype Commit = Commit(taskId: int, startDate: string, endDate: string)

  /** The right end of the clamp, `totalMonths - 1 + 0.9999`. */
  function MaxPos(months: seq<YearMonth>): real
  {
    (|months| - 1) as real + 0.9999
  }

  /** The positions after the shift: a move shifts both, a resize only its own side. */
  function Shifted(kind: DragKind, startPos: real, endPos: real, dMonths: real): (real, real)
  {
    match kind
    case Move => (startPos + dMonths, endPos + dMonths)
    case ResizeLeft => (startPos + dMonths, endPos)
    case ResizeRight => (startPos, endPos + dMonths)
  }

  /** The shifted positions, each clamped into `[0, totalMonths - 1 + 0.9999]`. */
  function ClampedPositions(months: seq<YearMonth>, kind: DragKind, startPos: real, endPos: real, dMonths: real): (p: (real, real))
    requires |months| >= 1
    ensures 0.0 <= p.0 <= MaxPos(months) && 0.0 <= p.1 <= MaxPos(months)
  {
    var s := Shifted(kind, startPos, endPos, dMonths);
    (ClampReal(s.0, 0.0, MaxPos(months)), ClampReal(s.1, 0.0, MaxPos(months)))
  }

  /**
   * "Ensure order": when the new start is after the new end, a left resize
   * pulls the start onto the end, a right resize pulls the end onto the
   * start, and a move puts the end the original duration after the start.
   */
  function RepairInversion(kind: DragKind, newStart: Date, newEnd: Date, origStart: Date, origEnd: Date): (r: (Date, Date))
    requires ValidDate(newStart) && ValidDate(newEnd) && ValidDate(origStart) && ValidDate(origEnd)
    ensures AtMost(newStart, newEnd) ==> r == (newStart, newEnd)
    ensures r.0 == newStart || r.0 == newEnd
    ensures kind != Move ==> AtMost(r.0, r.1) && (r.0 == r.1 || r == (newStart, newEnd))
    ensures kind == ResizeLeft ==> r.1 == newEnd
    ensures kind == ResizeRight ==> r.0 == newStart
    ensures kind == Move && Before(newEnd, newStart) ==>
              r == (newStart, AddDays(newStart, DaysBetween(origStart, origEnd)))
              && DaysBetween(r.0, r.1) == DaysBetween(origStart, origEnd)
  {
    DaysBetweenAddDays(newStart, DaysBetween(origStart, origEnd));
    if Before(newEnd, newStart) then
      match kind
      case ResizeLeft => (newEnd, newEnd)
      case ResizeRight => (newStart, newStart)
      case Move => (newStart, AddDays(newStart, DaysBetween(origStart, origEnd)))
    else (newStart, newEnd)
  }

  /** The position step of `performUpdate`: shift by the month delta, then clamp into the grid. */
  method ShiftAndClamp(months: seq<YearMonth>, kind: DragKind, startPos: real, endPos: real, dMonths: real)
    returns (newStartPos: real, newEndPos: real)
    requires |months| >= 1
    ensures (newStartPos, newEndPos) == ClampedPositions(months, kind, startPos, endPos, dMonths)
  {
    newStartPos := startPos;
    newEndPos := endPos;
    match kind {
      case Move =>
        newStartPos := startPos + dMonths;
        newEndPos := endPos + dMonths;
      case ResizeLeft =>
        newStartPos := startPos + dMonths;
      case ResizeRight =>
        newEndPos := endPos + dMonths;
    }
    assert (newStartPos, newEndPos) == Shifted(kind, startPos, endPos, dMonths);
    var hi := MaxPos(months);
    newStartPos := ClampReal(newStartPos, 0.0, hi);
    newEndPos := ClampReal(newEndPos, 0.0, hi);
  }

  /** The "ensure order" step of `performUpdate`. */
  method EnsureOrder(kind: DragKind, newStart: Date, newEnd: Date, origStart: Date, origEnd: Date)
    returns (s: Date, e: Date)
    requires ValidDate(newStart) && ValidDate(newEnd) && ValidDate(origStart) && ValidDate(origEnd)
    ensures (s, e) == RepairInversion(kind, newStart, newEnd, origStart, origEnd)
    ensures ValidDate(s) && ValidDate(e)
  {
    s, e := newStart, newEnd;
    if Before(newEnd, newStart) {
      match kind {
        case ResizeLeft =>
          s := newEnd;
        case ResizeRight =>
          e := newStart;
        case Move =>
          var dur := DaysBetween(origStart, origEnd);
          e := AddDays(newStart, dur);
      }
    }
  }

  /** The preview dates `performUpdate` computes for a month delta. */
  function Preview(months: seq<YearMonth>, kind: DragKind, startPos: real, endPos: real, dMonths: real,
                   origStart: Date, origEnd: Date): (r: (Date, Date))
    requires GridOk(months) && ValidDate(origStart) && ValidDate(origEnd)
    ensures ValidDate(r.0) && ValidDate(r.1)
  {
    var p := ClampedPositions(months, kind, startPos, endPos, dMonths);
    RepairInversion(kind, DateFromPos(months, p.0, false), DateFromPos(months, p.1, true), origStart, origEnd)
  }

  /** `onMouseUp`: commit the preview (or the original where there is none) when either ISO date changed. */
  function CommitOf(taskId: int, origStart: Date, origEnd: Date, ps: Date, pe: Date): Option<Commit>
    requires ValidDate(origStart) && ValidDate(origEnd) && ValidDate(ps) && ValidDate(pe)
  {
    if DateToISO(ps) != DateToISO(origStart) || DateToISO(pe) != DateToISO(origEnd) then
      Some(Commit(taskId, DateToISO(ps), DateToISO(pe)))
    else None
  }

  lemma {:induction false} PositiveRatio(w: real, n: int)
    requires w > 0.0 && n >= 1
    ensures w / n as real > 0.0
  {
  }

  /** The drag state of one chart: `taskDragState` and the grid it was built over. */
  class DragSession {
    /** The grid `setupTaskResizeInteractions` builds with `getMonthRange`. */
    const months: seq<YearMonth>
    /** `taskDragState !== null`. */
    var active: bool
    var kind: DragKind
    var taskId: int
    var startX: real
    var pxPerMonth: real
    var origStart: Date
    var origEnd: Date
    var startPos: real
    var endPos: real
    var previewStart: Option<Date>
    var previewEnd: Option<Date>

    ghost predicate Valid()
      reads this
    {
      GridOk(months)
      && (active ==>
            pxPerMonth > 0.0 && ValidDate(origStart) && ValidDate(origEnd)
            && (previewStart.Some? ==> ValidDate(previewStart.value))
            && (previewEnd.Some? ==> ValidDate(previewEnd.value)))
    }

    constructor (months: seq<YearMonth>)
      requires GridOk(months)
      ensures Valid() && !active && this.months == months
    {
      this.months := months;
      active := false;
      kind := Move;
      taskId := 0;
      startX := 0.0;
      pxPerMonth := 1.0;
      origStart := Date(2000, 1, 1);
      origEnd := Date(2000, 1, 1);
      startPos := 0.0;
      endPos := 0.0;
      previewStart := None;
      previewEnd := None;
    }

    /**
     * The `mousedown` handler, once the task's dates are read: a zero task id
     * starts nothing; otherwise a fresh state replaces any earlier one, with
     * the positions of the start (start-of-day) and end (end-of-day) and no preview.
     */
    method Start(kind: DragKind, taskId: int, clientX: real, trackWidth: real, origStart: Date, origEnd: Date)
      requires Valid() && trackWidth > 0.0 && ValidDate(origStart) && ValidDate(origEnd)
      modifies this
      ensures Valid()
      ensures taskId == 0 ==> unchanged(this)
      ensures taskId != 0 ==>
        active && this.kind == kind && this.taskId == taskId && startX == clientX
        && pxPerMonth == trackWidth / |months| as real
        && this.origStart == origStart && this.origEnd == origEnd
        && startPos == PosFromDate(months, origStart, false) && endPos == PosFromDate(months, origEnd, true)
        && previewStart == None && previewEnd == None
    {
      if taskId == 0 {
        return;
      }
      var px := trackWidth / |months| as real;
      PositiveRatio(trackWidth, |months|);
      var sp, ep := PosFromDate(months, origStart, false), PosFromDate(months, origEnd, true);
      this.kind, this.taskId, startX, pxPerMonth := kind, taskId, clientX, px;
      this.origStart, this.origEnd, startPos, endPos := origStart, origEnd, sp, ep;
      previewStart, previewEnd, active := None, None, true;
    }

    /** `performUpdate(clientX)`: recompute the preview dates; nothing happens without an active drag. */
    method Update(clientX: real)
      requires Valid()
      modifies this
      ensures Valid()
      ensures active == old(active) && kind == old(kind) && taskId == old(taskId) && startX == old(startX)
        && pxPerMonth == old(pxPerMonth) && origStart == old(origStart) && origEnd == old(origEnd)
        && startPos == old(startPos) && endPos == old(endPos)
      ensures !old(active) ==> unchanged(this)
      ensures old(active) ==>
        var p := Preview(months, kind, startPos, endPos, (clientX - startX) / pxPerMonth, origStart, origEnd);
        previewStart == Some(p.0) && previewEnd == Some(p.1)
    {
      if !active {
        return;
      }
      var dx := clientX - startX;
      var dMonths := dx / pxPerMonth;
      var newStartPos, newEndPos := ShiftAndClamp(months, kind, startPos, endPos, dMonths);
      var newStart := DateFromPos(months, newStartPos, false);
      var newEnd := DateFromPos(months, newEndPos, true);
      newStart, newEnd := EnsureOrder(kind, newStart, newEnd, origStart, origEnd);
      previewStart := Some(newStart);
      previewEnd := Some(newEnd);
    }

    /**
     * `onMouseUp`: the preview, or the original date where no update came,
     * is committed when its ISO text differs from the original; the drag ends.
     */
    method End() returns (commit: Option<Commit>)
      requires Valid()
      modifies this
      ensures Valid() && !active
      ensures kind == old(kind) && taskId == old(taskId) && origStart == old(origStart) && origEnd == old(origEnd)
        && previewStart == old(previewStart) && previewEnd == old(previewEnd)
      ensures !old(active) ==> commit == None && unchanged(this)
      ensures old(active) ==>
        var ps := if previewStart.Some? then previewStart.value else origStart;
        var pe := if previewEnd.Some? then previewEnd.value else origEnd;
        commit == CommitOf(taskId, origStart, origEnd, ps, pe)
    {
      commit := None;
      if !active {
        return;
      }
      var ps := if previewStart.Some? then previewStart.value else origStart;
      var pe := if previewEnd.Some? then previewEnd.value else origEnd;
      if DateToISO(ps) != DateToISO(origStart) || DateToISO(pe) != DateToISO(origEnd) {
        commit := Some(Commit(taskId, DateToISO(ps), DateToISO(pe)));
      }
      active := false;
    }
  }
}

/** What a drag preview and its commit promise. */
module GestureFacts {
  import opened Text
  import opened Dates
  import opened MonthGrid
  import opened Projection
  import opened Gesture

  /**
   * The preview never ends before it starts: a resize repairs any inversion
   * onto one day, and a move of a well-ordered task keeps the original
   * (non-negative) duration when it has to repair.
   */
  lemma {:induction false} PreviewOrdered(months: seq<YearMonth>, kind: DragKind, startPos: real, endPos: real,
                                          dMonths: real, origStart: Date, origEnd: Date)
    requires GridOk(months) && ValidDate(origStart) && ValidDate(origEnd)
    requires kind == Move ==> AtMost(origStart, origEnd)
    ensures var r := Preview(months, kind, startPos, endPos, dMonths, origStart, origEnd);
      AtMost(r.0, r.1)
  {
    var p := ClampedPositions(months, kind, startPos, endPos, dMonths);
    var ns, ne := DateFromPos(months, p.0, false), DateFromPos(months, p.1, true);
    if Before(ne, ns) && kind == Move {
      DaysBetweenSign(origStart, origEnd);
      var e2 := AddDays(ns, DaysBetween(origStart, origEnd));
      DayNumberOrder(e2, ns);
    }
  }

  /** When a move has to repair an inversion, the preview keeps the original duration in days. */
  lemma {:induction false} MoveRepairKeepsDuration(months: seq<YearMonth>, startPos: real, endPos: real,
                                                   dMonths: real, origStart: Date, origEnd: Date)
    requires GridOk(months) && ValidDate(origStart) && ValidDate(origEnd)
    requires var p := ClampedPositions(months, Move, startPos, endPos, dMonths);
      Before(DateFromPos(months, p.1, true), DateFromPos(months, p.0, false))
    ensures var r := Preview(months, Move, startPos, endPos, dMonths, origStart, origEnd);
      DaysBetween(r.0, r.1) == DaysBetween(origStart, origEnd)
  {
  }

  /**
   * A resize leaves the other edge where the unshifted position puts it: a
   * left resize keeps the end, a right resize keeps the start, unless the
   * inversion repair pulls that edge onto the moved one.
   */
  lemma {:induction false} ResizeKeepsOtherEdge(months: seq<YearMonth>, kind: DragKind, startPos: real, endPos: real,
                                                dMonths: real, origStart: Date, origEnd: Date)
    requires GridOk(months) && ValidDate(origStart) && ValidDate(origEnd) && kind != Move
    ensures var r := Preview(months, kind, startPos, endPos, dMonths, origStart, origEnd);
      var keptStart := DateFromPos(months, ClampReal(startPos, 0.0, MaxPos(months)), false);
      var keptEnd := DateFromPos(months, ClampReal(endPos, 0.0, MaxPos(months)), true);
      (kind == ResizeLeft ==> r.1 == keptEnd)
      && (kind == ResizeRight ==> r.0 == keptStart)
  {
  }

  /** Both preview dates lie in grid months: the start always, the end for a resize. */
  lemma {:induction false} PreviewInGrid(months: seq<YearMonth>, kind: DragKind, startPos: real, endPos: real,
                                         dMonths: real, origStart: Date, origEnd: Date)
    requires GridOk(months) && ValidDate(origStart) && ValidDate(origEnd)
    ensures var r := Preview(months, kind, startPos, endPos, dMonths, origStart, origEnd);
      CalMonth(r.0) in months && (kind != Move ==> CalMonth(r.1) in months)
  {
    var p := ClampedPositions(months, kind, startPos, endPos, dMonths);
    DateFromPosInGrid(months, p.0, false);
    DateFromPosInGrid(months, p.1, true);
  }

  /** `onMouseUp` commits exactly when a preview date differs from the original, and commits the preview's ISO text. */
  lemma {:induction false} CommitIffChanged(taskId: int, origStart: Date, origEnd: Date, ps: Date, pe: Date)
    requires ValidDate(origStart) && ValidDate(origEnd) && ValidDate(ps) && ValidDate(pe)
    ensures CommitOf(taskId, origStart, origEnd, ps, pe).Some? <==> ps != origStart || pe != origEnd
    ensures CommitOf(taskId, origStart, origEnd, ps, pe).Some? ==>
      CommitOf(taskId, origStart, origEnd, ps, pe).value == Commit(taskId, DateToISO(ps), DateToISO(pe))
  {
    DateToISOInjective(ps, origStart);
    DateToISOInjective(pe, origEnd);
  }

  // ----- A gesture that does not move the mouse -----

  /**
   * Where an inclusive end reads back after a zero shift: itself, except
   * that the last day of a month that is not the last grid month reads back
   * as the first day of the next grid month.
   */
  function EndReadBack(months: seq<YearMonth>, e: Date): Date
  {
    var i := IndexOf(months, CalMonth(e));
    if e.day == DaysInMonth(e.year, e.month) && 0 <= i && i + 1 < |months| then
      Date(months[i + 1].year, months[i + 1].month, 1)
    else e
  }

  lemma {:induction false} FractionBelowClampEdge(k: int, dim: int)
    requires 0 <= k < dim <= 31
    ensures k as real / dim as real <= 0.9999
  {
    var f := k as real / dim as real;
    Fraction(k, dim);
    var d := dim as real;
    assert f * d == k as real;
    assert k as real <= d - 1.0;
    assert d - 1.0 <= 0.9999 * d;
    ScaleBack(f, 0.9999, d);
  }

  lemma {:induction false} ScaleBack(a: real, b: real, c: real)
    requires c > 0.0 && a * c <= b * c
    ensures a <= b
  {
  }

  /** A start-anchored position of a grid date is never clamped. */
  lemma {:induction false} StartPosInsideClamp(months: seq<YearMonth>, s: Date)
    requires GridOk(months) && ValidDate(s) && CalMonth(s) in months
    ensures 0.0 <= PosFromDate(months, s, false) <= MaxPos(months)
  {
    PosFromDateAt(months, s, false);
    StartPositionRange(months, s);
    FractionBelowClampEdge(s.day - 1, DaysInMonth(s.year, s.month));
  }

  /** An inclusive-end position is clamped only for the last day of the last grid month. */
  lemma {:induction false} EndPosClamped(months: seq<YearMonth>, e: Date)
    requires GridOk(months) && ValidDate(e) && CalMonth(e) in months
    ensures 0.0 <= PosFromDate(months, e, true)
    ensures PosFromDate(months, e, true) > MaxPos(months) ==>
      e.day == DaysInMonth(e.year, e.month) && IndexOf(months, CalMonth(e)) == |months| - 1
  {
    PosFromDateAt(months, e, true);
    EndPositionRange(months, e);
    var dim := DaysInMonth(e.year, e.month);
    if e.day < dim {
      FractionBelowClampEdge(e.day, dim);
    } else {
      Fraction(dim, dim);
    }
  }

  /** The clamp edge `totalMonths - 1 + 0.9999` reads back as the last day of the last grid month. */
  lemma {:induction false} ClampEdgeIsLastDay(months: seq<YearMonth>)
    requires GridOk(months)
    ensures var ym := months[|months| - 1];
      DateFromPos(months, MaxPos(months), true) == Date(ym.year, ym.month, MonthLength(ym.year, ym.month))
  {
    var n := |months|;
    var x := MaxPos(months);
    FloorOfIndexPlusFraction(n - 1, 0.9999);
    assert GridIndex(months, x) == n - 1;
    assert x - x.Floor as real == 0.9999;
    var ym := months[n - 1];
    var dim := MonthLength(ym.year, ym.month);
    assert Round(0.9999 * dim as real) == dim;
  }

  /** Grid months after the month of `s` hold only dates after `s`. */
  lemma {:induction false} LaterMonthIsLater(s: Date, b: Date)
    requires ValidDate(s) && ValidDate(b) && Ordinal(CalMonth(s)) < Ordinal(CalMonth(b))
    ensures Before(s, b)
  {
  }

  lemma {:induction false} AtMostMonths(s: Date, e: Date)
    requires ValidDate(s) && ValidDate(e) && AtMost(s, e)
    ensures Ordinal(CalMonth(s)) <= Ordinal(CalMonth(e))
  {
  }

  /** Where the inclusive end of a grid date reads back at a zero shift, clamp included. */
  lemma {:induction false} EndAtZeroShift(months: seq<YearMonth>, e: Date)
    requires GridOk(months) && Chronological(months) && ValidDate(e) && CalMonth(e) in months
    ensures DateFromPos(months, ClampReal(PosFromDate(months, e, true), 0.0, MaxPos(months)), true)
      == EndReadBack(months, e)
  {
    var ep := PosFromDate(months, e, true);
    EndPosClamped(months, e);
    PosFromDateAt(months, e, true);
    var i := IndexOf(months, CalMonth(e));
    if ep > MaxPos(months) {
      ClampEdgeIsLastDay(months);
    } else if e.day < DaysInMonth(e.year, e.month) {
      EndRoundTripBeforeMonthEnd(months, e);
    } else {
      EndOnMonthEndMovesToNextMonth(months, e);
      if i + 1 >= |months| {
        assert false;
      }
    }
  }

  /**
   * Moving or resizing by zero pixels previews the task's own start and the
   * read-back of its end: a task ending on the last day of a month that is
   * not the last grid month previews the first day of the next grid month.
   */
  lemma {:induction false} ZeroShiftPreview(months: seq<YearMonth>, kind: DragKind, s: Date, e: Date)
    requires GridOk(months) && Chronological(months)
    requires ValidDate(s) && ValidDate(e) && CalMonth(s) in months && CalMonth(e) in months && AtMost(s, e)
    ensures Preview(months, kind, PosFromDate(months, s, false), PosFromDate(months, e, true), 0.0, s, e)
      == (s, EndReadBack(months, e))
  {
    var sp, ep := PosFromDate(months, s, false), PosFromDate(months, e, true);
    assert Shifted(kind, sp, ep, 0.0) == (sp, ep);
    StartPosInsideClamp(months, s);
    StartRoundTrip(months, s);
    EndAtZeroShift(months, e);
    var ne := EndReadBack(months, e);
    var i := IndexOf(months, CalMonth(e));
    if ne != e {
      AtMostMonths(s, e);
      assert Ordinal(months[i]) < Ordinal(months[i + 1]);
      LaterMonthIsLater(s, ne);
    }
  }

  /**
   * The month-end quirk: a drag that ends where it started still commits,
   * exactly when the task ends on the last day of a month that is not the
   * last month of the grid.
   */
  lemma {:induction false} ZeroShiftCommits(months: seq<YearMonth>, kind: DragKind, taskId: int, s: Date, e: Date)
    requires GridOk(months) && Chronological(months)
    requires ValidDate(s) && ValidDate(e) && CalMonth(s) in months && CalMonth(e) in months && AtMost(s, e)
    ensures var r := Preview(months, kind, PosFromDate(months, s, false), PosFromDate(months, e, true), 0.0, s, e);
      (CommitOf(taskId, s, e, r.0, r.1).Some?
       <==> e.day == DaysInMonth(e.year, e.month) && IndexOf(months, CalMonth(e)) + 1 < |months|)
  {
    ZeroShiftPreview(months, kind, s, e);
    var ne := EndReadBack(months, e);
    CommitIffChanged(taskId, s, e, s, ne);
  }

  /**
   * A move does not keep the task's duration when it crosses months of
   * different lengths: on a January to March 2025 grid, moving 1 January to
   * 31 January (30 days) one month to the right gives 1 February to
   * 1 March (28 days).
   */
  lemma {:induction false} MoveCanChangeDuration()
    ensures var months := [YearMonth(2025, 1), YearMonth(2025, 2), YearMonth(2025, 3)];
      var s, e := Date(2025, 1, 1), Date(2025, 1, 31);
      var r := Preview(months, Move, PosFromDate(months, s, false), PosFromDate(months, e, true), 1.0, s, e);
      r == (Date(2025, 2, 1), Date(2025, 3, 1)) && DaysBetween(s, e) == 30 && DaysBetween(r.0, r.1) == 28
  {
    var months := [YearMonth(2025, 1), YearMonth(2025, 2), YearMonth(2025, 3)];
    var s, e := Date(2025, 1, 1), Date(2025, 1, 31);
    MovePreviewExample(months, s, e);
    JanuaryFebruaryLengths();
  }

  lemma {:induction false} MovePreviewExample(months: seq<YearMonth>, s: Date, e: Date)
    requires months == [YearMonth(2025, 1), YearMonth(2025, 2), YearMonth(2025, 3)]
    requires s == Date(2025, 1, 1) && e == Date(2025, 1, 31)
    ensures GridOk(months) && ValidDate(s) && ValidDate(e)
    ensures Preview(months, Move, PosFromDate(months, s, false), PosFromDate(months, e, true), 1.0, s, e)
      == (Date(2025, 2, 1), Date(2025, 3, 1))
  {
    assert IndexOf(months, YearMonth(2025, 1)) == 0;
    assert PosFromDate(months, s, false) == 0.0;
    assert PosFromDate(months, e, true) == 1.0;
    FloorOfIndexPlusFraction(1, 0.0);
    FloorOfIndexPlusFraction(2, 0.0);
    assert DateFromPos(months, 1.0, false) == Date(2025, 2, 1);
    assert DateFromPos(months, 2.0, true) == Date(2025, 3, 1);
  }

  lemma {:induction false} JanuaryFebruaryLengths()
    ensures DaysBetween(Date(2025, 1, 1), Date(2025, 1, 31)) == 30
    ensures DaysBetween(Date(2025, 2, 1), Date(2025, 3, 1)) == 28
  {
  }
}

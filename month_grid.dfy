/**
 * The month grid of the chart: `getMonthRange` lists the calendar months
 * from the month of the earliest date to the month of the latest, and
 * `groupMonthsByQuarters` buckets them into fiscal quarters of a fiscal
 * year that starts in April.
 */
module MonthGrid {
  import opened Text
  import opened Dates

  /** One `{ year, month }` entry of the grid, month 1-based. */
  datatype YearMonth = YearMonth(year: int, month: int)

  predicate ValidMonth(ym: YearMonth) { 1 <= ym.month <= 12 }

  /** Months since January of year 0: consecutive months have consecutive ordinals. */
  function Ordinal(ym: YearMonth): int { ym.year * 12 + ym.month - 1 }

  function FromOrdinal(o: int): (ym: YearMonth)
    ensures ValidMonth(ym) && Ordinal(ym) == o
  {
    YearMonth(o / 12, o % 12 + 1)
  }

  lemma {:induction false} OrdinalInjective(a: YearMonth, b: YearMonth)
    requires ValidMonth(a) && ValidMonth(b) && Ordinal(a) == Ordinal(b)
    ensures a == b
  {
  }

  /** `current.setMonth(current.getMonth() + 1)` on the first of a month. */
  function NextMonth(ym: YearMonth): (r: YearMonth)
    requires ValidMonth(ym)
    ensures ValidMonth(r) && Ordinal(r) == Ordinal(ym) + 1
  {
    if ym.month == 12 then YearMonth(ym.year + 1, 1) else YearMonth(ym.year, ym.month + 1)
  }

  /** The month `new Date(d.getFullYear(), d.getMonth(), 1)` falls in. */
  function MonthOf(d: Date): (ym: YearMonth)
    requires ValidDate(d)
    ensures ValidMonth(ym) && ym.month == d.month
  {
    YearMonth(LocalYear(d.year), d.month)
  }

  /** Every month from `a` to `b`, both included; empty when `b` is earlier. */
  function MonthSpan(a: YearMonth, b: YearMonth): seq<YearMonth>
  {
    if Ordinal(b) < Ordinal(a) then []
    else seq(Ordinal(b) - Ordinal(a) + 1, i => FromOrdinal(Ordinal(a) + i))
  }

  /**
   * The shape of the grid: its length is the number of months from `a` to
   * `b`, it starts at `a`, ends at `b`, and steps one month at a time.
   */
  lemma {:induction false} MonthSpanShape(a: YearMonth, b: YearMonth)
    requires ValidMonth(a) && ValidMonth(b) && Ordinal(a) <= Ordinal(b)
    ensures var s := MonthSpan(a, b);
      |s| == (b.year * 12 + b.month) - (a.year * 12 + a.month) + 1
      && s[0] == a && s[|s| - 1] == b
      && (forall i :: 0 <= i < |s| ==> ValidMonth(s[i]))
      && (forall i :: 0 <= i < |s| - 1 ==> s[i + 1] == NextMonth(s[i]))
  {
    var s := MonthSpan(a, b);
    assert s[0] == FromOrdinal(Ordinal(a));
    OrdinalInjective(s[0], a);
    assert s[|s| - 1] == FromOrdinal(Ordinal(b));
    OrdinalInjective(s[|s| - 1], b);
    forall i | 0 <= i < |s|
      ensures ValidMonth(s[i])
    {
      assert s[i] == FromOrdinal(Ordinal(a) + i);
    }
    forall i | 0 <= i < |s| - 1
      ensures s[i + 1] == NextMonth(s[i])
    {
      assert s[i] == FromOrdinal(Ordinal(a) + i);
      assert s[i + 1] == FromOrdinal(Ordinal(a) + i + 1);
      OrdinalInjective(s[i + 1], NextMonth(s[i]));
    }
  }

  lemma {:induction false} MonthSpanSingle(a: YearMonth)
    requires ValidMonth(a)
    ensures MonthSpan(a, a) == [a]
  {
    assert MonthSpan(a, a)[0] == FromOrdinal(Ordinal(a));
    OrdinalInjective(MonthSpan(a, a)[0], a);
  }

  /** `getMonthRange(startDate, endDate)`. */
  method GetMonthRange(startDate: Date, endDate: Date) returns (months: seq<YearMonth>)
    requires ValidDate(startDate) && ValidDate(endDate)
    ensures months == MonthSpan(MonthOf(startDate), MonthOf(endDate))
  {
    months := [];
    var current := MonthOf(startDate);
    var end := MonthOf(endDate);
    ghost var o0 := Ordinal(current);
    while Ordinal(current) <= Ordinal(end)
      invariant ValidMonth(current) && Ordinal(current) == o0 + |months|
      invariant o0 <= Ordinal(end) + 1 ==> Ordinal(current) <= Ordinal(end) + 1
      invariant Ordinal(end) < o0 ==> months == []
      invariant forall i :: 0 <= i < |months| ==> months[i] == FromOrdinal(o0 + i)
      decreases Ordinal(end) - Ordinal(current)
    {
      months := months + [current];
      OrdinalInjective(current, FromOrdinal(o0 + |months| - 1));
      current := NextMonth(current);
    }
    var span := MonthSpan(MonthOf(startDate), end);
    if o0 <= Ordinal(end) {
      assert |months| == |span|;
      assert forall i :: 0 <= i < |span| ==> span[i] == FromOrdinal(o0 + i);
    }
    assert months == span;
  }

  // ----- Fiscal quarters -----

  /** A bucket key `${fyStartYear}-Q${quarter}`, kept as the pair it spells. */
  datatype QuarterKey = QuarterKey(fyStartYear: int, quarter: int)

  /**
   * One bucket of `groupMonthsByQuarters`. Its `fyLabel` is a function of
   * `fyStartYear` alone and is given by `FyLabelOf` rather than stored.
   */
  datatype QuarterBucket = QuarterBucket(fyStartYear: int, fyEndYear: int, quarter: int, months: seq<YearMonth>)

  /** The fiscal quarter of a calendar month: the fiscal year starts in April. */
  function QuarterOf(m: YearMonth): (q: QuarterKey)
    ensures 1 <= q.quarter <= 4
    ensures 4 <= m.month <= 12 ==> q.fyStartYear == m.year && q.quarter == (m.month - 1) / 3
    ensures 1 <= m.month <= 3 ==> q.fyStartYear == m.year - 1 && q.quarter == 4
  {
    var fyStartYear := if m.month >= 4 then m.year else m.year - 1;
    var quarter :=
      if 4 <= m.month <= 6 then 1
      else if 7 <= m.month <= 9 then 2
      else if 10 <= m.month <= 12 then 3
      else 4;
    QuarterKey(fyStartYear, quarter)
  }

  /**
   * Reference definition: counting months from April of year 0, the fiscal
   * year is the ordinal divided by 12 and the quarter is the remainder divided by 3.
   */
  lemma {:induction false} QuarterOfFiscalOrdinal(m: YearMonth)
    requires ValidMonth(m)
    ensures var f := Ordinal(m) - 3;
      QuarterOf(m) == QuarterKey(f / 12, f % 12 / 3 + 1)
  {
    var f := Ordinal(m) - 3;
    if m.month >= 4 {
      assert f == m.year * 12 + (m.month - 4);
    } else {
      assert f == (m.year - 1) * 12 + (m.month + 8);
    }
  }

  predicate KeyLess(a: QuarterKey, b: QuarterKey)
  {
    a.fyStartYear < b.fyStartYear || (a.fyStartYear == b.fyStartYear && a.quarter < b.quarter)
  }

  /** Later months never fall in an earlier quarter. */
  lemma {:induction false} QuarterOfMonotone(a: YearMonth, b: YearMonth)
    requires ValidMonth(a) && ValidMonth(b) && Ordinal(a) < Ordinal(b)
    ensures QuarterOf(a) == QuarterOf(b) || KeyLess(QuarterOf(a), QuarterOf(b))
  {
    if a.year == b.year {
      assert a.month < b.month;
    }
  }

  /** `String(y).slice(-2).padStart(2, '0')`. */
  function FyTwoDigits(y: int): string
  {
    var s := IntToString(y);
    PadStart(if |s| >= 2 then s[|s| - 2..] else s, 2, '0')
  }

  function FyLabel(fyStartYear: int): string
  {
    "FY " + FyTwoDigits(fyStartYear) + "/" + FyTwoDigits(fyStartYear + 1)
  }

  lemma {:induction false} NatToStringLast(n: nat)
    ensures NatToString(n)[|NatToString(n)| - 1] == DigitChar(n % 10)
  {
  }

  lemma {:induction false} LastTwoDigits(y: nat)
    ensures (y / 10) % 10 == (y % 100) / 10 && y % 10 == (y % 100) % 10
  {
    var a, r := y / 100, y % 100;
    assert y == a * 100 + r;
    assert y / 10 == a * 10 + r / 10;
    assert y % 10 == r % 10;
  }

  /** For a non-negative year the label digits are the year modulo 100, two digits wide. */
  lemma {:induction false} FyTwoDigitsOfYear(y: nat)
    ensures FyTwoDigits(y) == TwoDigits(y % 100)
  {
    var r := y % 100;
    var d := TwoDigits(r);
    if y >= 10 {
      FyTwoDigitsLong(y);
      LastTwoDigits(y);
    } else {
      FyTwoDigitsShort(y);
      OneDigitYear(y);
    }
  }

  lemma {:induction false} OneDigitYear(y: nat)
    requires y < 10
    ensures y % 100 == y && (y % 100) / 10 == 0 && (y % 100) % 10 == y
  {
  }

  lemma {:induction false} FyTwoDigitsLong(y: nat)
    requires y >= 10
    ensures FyTwoDigits(y) == [DigitChar((y / 10) % 10), DigitChar(y % 10)]
  {
    assert IntToString(y) == NatToString(y);
    LastTwoChars(y);
    var t := NatToString(y)[|NatToString(y)| - 2..];
    assert PadStart(t, 2, '0') == t;
  }

  lemma {:induction false} FyTwoDigitsShort(y: nat)
    requires y < 10
    ensures FyTwoDigits(y) == [DigitChar(0), DigitChar(y)]
  {
    assert IntToString(y) == NatToString(y);
    assert NatToString(y) == [DigitChar(y)];
    assert PadStart([DigitChar(y)], 2, '0') == ['0', DigitChar(y)];
  }

  lemma {:induction false} LastTwoChars(y: nat)
    requires y >= 10
    ensures |NatToString(y)| >= 2
    ensures NatToString(y)[|NatToString(y)| - 2..] == [DigitChar((y / 10) % 10), DigitChar(y % 10)]
  {
    var u, c := NatToString(y / 10), DigitChar(y % 10);
    assert NatToString(y) == u + [c];
    LastTwoOfSnoc(u, c);
    NatToStringLast(y / 10);
  }

  lemma {:induction false} LastTwoOfSnoc(u: string, c: char)
    requires |u| >= 1
    ensures (u + [c])[|u| - 1..] == [u[|u| - 1], c]
  {
  }

  /** April 2025 opens fiscal year 2025/26, labelled "FY 25/26", quarter 1. */
  lemma {:induction false} April2025Quarter()
    ensures QuarterOf(YearMonth(2025, 4)) == QuarterKey(2025, 1)
    ensures FyLabel(2025) == "FY 25/26"
  {
    FyTwoDigitsOfYear(2025);
    FyTwoDigitsOfYear(2026);
  }

  /** March 2025 closes fiscal year 2024/25, labelled "FY 24/25", quarter 4. */
  lemma {:induction false} March2025Quarter()
    ensures QuarterOf(YearMonth(2025, 3)) == QuarterKey(2024, 4)
    ensures FyLabel(2024) == "FY 24/25"
  {
    FyTwoDigitsOfYear(2024);
    FyTwoDigitsOfYear(2025);
  }

  function KeyOfBucket(b: QuarterBucket): QuarterKey
  {
    QuarterKey(b.fyStartYear, b.quarter)
  }

  /** The bucket `buckets.set(key, {...})` creates for a key, holding `months`. */
  function BucketFor(k: QuarterKey, months: seq<YearMonth>): (b: QuarterBucket)
    ensures KeyOfBucket(b) == k && BucketShape(b) && b.months == months
  {
    QuarterBucket(k.fyStartYear, k.fyStartYear + 1, k.quarter, months)
  }

  /** The bucket's `fyLabel`, `FY ${toFY(fyStartYear)}/${toFY(fyEndYear)}`. */
  function FyLabelOf(b: QuarterBucket): string
  {
    "FY " + FyTwoDigits(b.fyStartYear) + "/" + FyTwoDigits(b.fyEndYear)
  }

  /** A bucket's fiscal year ends the year after it starts, so its label is the one its start year gets. */
  predicate BucketShape(b: QuarterBucket)
  {
    b.fyEndYear == b.fyStartYear + 1
  }

  lemma {:induction false} BucketLabel(b: QuarterBucket)
    requires BucketShape(b)
    ensures FyLabelOf(b) == FyLabel(b.fyStartYear)
  {
  }

  /** The months of `s` that fall in quarter `k`, in their order in `s`. */
  function MonthsInQuarter(s: seq<YearMonth>, k: QuarterKey): seq<YearMonth>
  {
    if s == [] then []
    else MonthsInQuarter(s[..|s| - 1], k) + (if QuarterOf(s[|s| - 1]) == k then [s[|s| - 1]] else [])
  }

  /** The months of the buckets, one bucket after another. */
  function Flatten(bs: seq<QuarterBucket>): seq<YearMonth>
  {
    if bs == [] then [] else Flatten(bs[..|bs| - 1]) + bs[|bs| - 1].months
  }

  function KeysOf(bs: seq<QuarterBucket>): seq<QuarterKey>
  {
    seq(|bs|, j requires 0 <= j < |bs| => KeyOfBucket(bs[j]))
  }

  predicate StrictlySorted(ks: seq<QuarterKey>)
  {
    forall i, j :: 0 <= i < j < |ks| ==> KeyLess(ks[i], ks[j])
  }

  predicate Distinct(ks: seq<QuarterKey>)
  {
    forall i, j :: 0 <= i < j < |ks| ==> ks[i] != ks[j]
  }

  predicate AllValid(s: seq<YearMonth>)
  {
    forall i :: 0 <= i < |s| ==> ValidMonth(s[i])
  }

  predicate Chronological(s: seq<YearMonth>)
  {
    forall i, j :: 0 <= i < j < |s| ==> Ordinal(s[i]) < Ordinal(s[j])
  }

  /**
   * `buckets.has(key)` / `buckets.get(key)`: the `Map` is kept as its values
   * in insertion order (the order `Array.from(buckets.values())` lists them),
   * and the bucket for a key is found by its key fields; -1 when there is none.
   */
  function FindBucket(entries: seq<QuarterBucket>, key: QuarterKey): (idx: int)
    ensures -1 <= idx < |entries|
    ensures idx >= 0 ==> KeyOfBucket(entries[idx]) == key
    ensures idx < 0 ==> key !in KeysOf(entries)
  {
    if entries == [] then -1
    else if KeyOfBucket(entries[|entries| - 1]) == key then |entries| - 1
    else
      assert KeysOf(entries) == KeysOf(entries[..|entries| - 1]) + [KeyOfBucket(entries[|entries| - 1])];
      FindBucket(entries[..|entries| - 1], key)
  }

  lemma {:induction false} FlattenSnoc(bs: seq<QuarterBucket>, b: QuarterBucket)
    ensures Flatten(bs + [b]) == Flatten(bs) + b.months
  {
    assert (bs + [b])[..|bs|] == bs;
  }

  lemma {:induction false} MonthsInQuarterNone(s: seq<YearMonth>, k: QuarterKey)
    requires forall j :: 0 <= j < |s| ==> QuarterOf(s[j]) != k
    ensures MonthsInQuarter(s, k) == []
  {
    if s != [] {
      MonthsInQuarterNone(s[..|s| - 1], k);
    }
  }

  lemma {:induction false} MonthsInQuarterSnoc(s: seq<YearMonth>, i: nat, k: QuarterKey)
    requires i < |s|
    ensures MonthsInQuarter(s[..i + 1], k)
      == MonthsInQuarter(s[..i], k) + (if QuarterOf(s[i]) == k then [s[i]] else [])
  {
    assert s[..i + 1][..i] == s[..i];
  }

  /** What the `forEach` of `groupMonthsByQuarters` has built after the first `i` months. */
  ghost predicate Grouped(months: seq<YearMonth>, i: nat, entries: seq<QuarterBucket>)
  {
    i <= |months|
    && Distinct(KeysOf(entries))
    && (forall j :: 0 <= j < |entries| ==>
          entries[j].months == MonthsInQuarter(months[..i], KeyOfBucket(entries[j]))
          && entries[j].months != [])
    && (forall j :: 0 <= j < i ==> QuarterOf(months[j]) in KeysOf(entries))
  }

  /** On a chronological grid the buckets are also created in sorted order and read back the months. */
  ghost predicate GroupedInOrder(months: seq<YearMonth>, i: nat, entries: seq<QuarterBucket>)
    requires i <= |months|
  {
    StrictlySorted(KeysOf(entries)) && Flatten(entries) == months[..i]
    && (i > 0 ==> entries != [] && KeyOfBucket(entries[|entries| - 1]) == QuarterOf(months[i - 1]))
  }

  /** The entries after one step of the `forEach`: create the bucket if it is missing, then push the month. */
  function AfterStep(entries: seq<QuarterBucket>, m: YearMonth): seq<QuarterBucket>
  {
    var key := QuarterOf(m);
    var idx := FindBucket(entries, key);
    var e := if idx < 0 then entries + [BucketFor(key, [])] else entries;
    var p := if idx < 0 then |entries| else idx;
    e[p := e[p].(months := e[p].months + [m])]
  }

  lemma {:induction false} AfterStepKeys(entries: seq<QuarterBucket>, m: YearMonth)
    ensures var key := QuarterOf(m);
      KeysOf(AfterStep(entries, m))
        == if FindBucket(entries, key) < 0 then KeysOf(entries) + [key] else KeysOf(entries)
  {
  }

  lemma {:induction false} GroupStepBucket(months: seq<YearMonth>, i: nat, entries: seq<QuarterBucket>, j: int)
    requires i < |months| && Grouped(months, i, entries)
    requires 0 <= j < |AfterStep(entries, months[i])|
    ensures var b := AfterStep(entries, months[i])[j];
      b.months == MonthsInQuarter(months[..i + 1], KeyOfBucket(b)) && b.months != []
  {
    var m := months[i];
    var key := QuarterOf(m);
    var b := AfterStep(entries, m)[j];
    var idx := FindBucket(entries, key);
    MonthsInQuarterSnoc(months, i, KeyOfBucket(b));
    if idx < 0 && j == |entries| {
      assert forall j' :: 0 <= j' < |months[..i]| ==> QuarterOf(months[..i][j']) != key;
      MonthsInQuarterNone(months[..i], key);
      assert b.months == [m];
    } else if j == idx {
      assert b == entries[j].(months := entries[j].months + [m]);
      assert KeyOfBucket(b) == key;
    } else {
      assert b == entries[j];
      assert KeysOf(entries)[j] == KeyOfBucket(entries[j]);
      assert idx >= 0 ==> KeysOf(entries)[idx] == key;
      assert KeyOfBucket(b) != key;
    }
  }

  lemma {:induction false} GroupStep(months: seq<YearMonth>, i: nat, entries: seq<QuarterBucket>)
    requires i < |months| && Grouped(months, i, entries)
    ensures Grouped(months, i + 1, AfterStep(entries, months[i]))
  {
    var e2 := AfterStep(entries, months[i]);
    forall j | 0 <= j < |e2|
      ensures e2[j].months == MonthsInQuarter(months[..i + 1], KeyOfBucket(e2[j]))
        && e2[j].months != []
    {
      GroupStepBucket(months, i, entries, j);
    }
    GroupStepKeys(months, i, entries);
  }

  /** After a step the keys stay distinct and every month seen so far, the new one included, has its bucket. */
  lemma {:induction false} GroupStepKeys(months: seq<YearMonth>, i: nat, entries: seq<QuarterBucket>)
    requires i < |months| && Grouped(months, i, entries)
    ensures Distinct(KeysOf(AfterStep(entries, months[i])))
    ensures forall j :: 0 <= j < i + 1 ==> QuarterOf(months[j]) in KeysOf(AfterStep(entries, months[i]))
  {
    var e2 := AfterStep(entries, months[i]);
    AfterStepKeys(entries, months[i]);
    var key := QuarterOf(months[i]);
    var idx := FindBucket(entries, key);
    if idx >= 0 {
      assert KeysOf(entries)[idx] == key;
    } else {
      assert KeysOf(e2)[|entries|] == key;
    }
    assert forall x :: x in KeysOf(entries) ==> x in KeysOf(e2);
  }

  lemma {:induction false} GroupStepChronological(months: seq<YearMonth>, i: nat, entries: seq<QuarterBucket>)
    requires i < |months| && AllValid(months) && Chronological(months)
    requires Grouped(months, i, entries) && GroupedInOrder(months, i, entries)
    ensures GroupedInOrder(months, i + 1, AfterStep(entries, months[i]))
  {
    StepKeyPlacement(months, i, entries);
    SortedAfterStep(entries, months[i]);
    GroupStepFlatten(months, i, entries);
  }

  /**
   * On a chronological grid the quarter of the next month is either the last
   * bucket's key or a key after it: the month never goes back to an older bucket.
   */
  lemma {:induction false} StepKeyPlacement(months: seq<YearMonth>, i: nat, entries: seq<QuarterBucket>)
    requires i < |months| && AllValid(months) && Chronological(months)
    requires Grouped(months, i, entries) && GroupedInOrder(months, i, entries)
    ensures var idx := FindBucket(entries, QuarterOf(months[i]));
      (i == 0 ==> entries == [])
      && (idx >= 0 ==> idx == |entries| - 1)
      && (idx < 0 && entries != [] ==> KeyLess(KeyOfBucket(entries[|entries| - 1]), QuarterOf(months[i])))
  {
    if i == 0 {
      FirstStepEmpty(months, entries);
    } else {
      QuarterOfMonotone(months[i - 1], months[i]);
      KeyPlacementInSorted(entries, QuarterOf(months[i]));
    }
  }

  lemma {:induction false} FirstStepEmpty(months: seq<YearMonth>, entries: seq<QuarterBucket>)
    requires Grouped(months, 0, entries)
    ensures entries == []
  {
    assert months[..0] == [];
    assert entries != [] ==> entries[0].months == MonthsInQuarter([], KeyOfBucket(entries[0]));
  }

  /** In sorted buckets a key no smaller than the last key is either the last key or not there at all. */
  lemma {:induction false} KeyPlacementInSorted(entries: seq<QuarterBucket>, key: QuarterKey)
    requires entries != [] && StrictlySorted(KeysOf(entries))
    requires var last := KeyOfBucket(entries[|entries| - 1]); key == last || KeyLess(last, key)
    ensures var idx := FindBucket(entries, key);
      (idx >= 0 ==> idx == |entries| - 1)
      && (idx < 0 ==> KeyLess(KeyOfBucket(entries[|entries| - 1]), key))
  {
    var ks := KeysOf(entries);
    var n := |entries| - 1;
    assert ks[n] == KeyOfBucket(entries[n]);
    var idx := FindBucket(entries, key);
    if idx >= 0 {
      assert ks[idx] == key;
    }
  }

  /** Appending a key after the last one keeps the keys sorted. */
  lemma {:induction false} SortedAfterStep(entries: seq<QuarterBucket>, m: YearMonth)
    requires StrictlySorted(KeysOf(entries))
    requires FindBucket(entries, QuarterOf(m)) < 0 && entries != [] ==>
      KeyLess(KeyOfBucket(entries[|entries| - 1]), QuarterOf(m))
    ensures StrictlySorted(KeysOf(AfterStep(entries, m)))
  {
    AfterStepKeys(entries, m);
    var ks := KeysOf(entries);
    if FindBucket(entries, QuarterOf(m)) < 0 && entries != [] {
      assert ks[|ks| - 1] == KeyOfBucket(entries[|entries| - 1]);
    }
  }

  lemma {:induction false} GroupStepFlatten(months: seq<YearMonth>, i: nat, entries: seq<QuarterBucket>)
    requires i < |months| && GroupedInOrder(months, i, entries)
    requires i == 0 ==> entries == []
    requires var idx := FindBucket(entries, QuarterOf(months[i])); idx >= 0 ==> idx == |entries| - 1
    ensures Flatten(AfterStep(entries, months[i])) == months[..i + 1]
    ensures var e2 := AfterStep(entries, months[i]);
      e2 != [] && KeyOfBucket(e2[|e2| - 1]) == QuarterOf(months[i])
  {
    var m := months[i];
    var key := QuarterOf(m);
    var e2 := AfterStep(entries, m);
    assert months[..i + 1] == months[..i] + [m];
    var n := |entries| - 1;
    if FindBucket(entries, key) >= 0 {
      assert entries == entries[..n] + [entries[n]];
      assert e2 == entries[..n] + [e2[n]];
      FlattenSnoc(entries[..n], entries[n]);
      FlattenSnoc(entries[..n], e2[n]);
    } else {
      assert [] + [m] == [m];
      assert e2 == entries + [BucketFor(key, [m])];
      FlattenSnoc(entries, BucketFor(key, [m]));
    }
  }

  /**
   * `groupMonthsByQuarters(months)`. The buckets come out sorted by fiscal
   * year and quarter; each holds exactly the months of its quarter in input
   * order, every input month has its bucket, and for a chronological grid
   * (what `getMonthRange` gives) reading the buckets in order gives back the grid.
   */
  method GroupMonthsByQuarters(months: seq<YearMonth>) returns (result: seq<QuarterBucket>)
    ensures StrictlySorted(KeysOf(result))
    ensures forall j :: 0 <= j < |result| ==>
      BucketShape(result[j]) && result[j].months == MonthsInQuarter(months, KeyOfBucket(result[j]))
      && result[j].months != []
    ensures forall i :: 0 <= i < |months| ==> QuarterOf(months[i]) in KeysOf(result)
    ensures AllValid(months) && Chronological(months) ==> Flatten(result) == months
  {
    var entries := FillBuckets(months);
    assert months[..|months|] == months;
    result := SortBuckets(entries);
    forall j | 0 <= j < |result|
      ensures BucketShape(result[j]) && result[j].months == MonthsInQuarter(months, KeyOfBucket(result[j]))
        && result[j].months != []
    {
      assert result[j] in entries;
    }
    forall i | 0 <= i < |months|
      ensures QuarterOf(months[i]) in KeysOf(result)
    {
      var k := QuarterOf(months[i]);
      var p :| 0 <= p < |entries| && KeysOf(entries)[p] == k;
      assert entries[p] in result;
      var q :| 0 <= q < |result| && result[q] == entries[p];
      assert KeysOf(result)[q] == k;
    }
  }

  /** What the `forEach` of `groupMonthsByQuarters` keeps true after the first `i` months. */
  ghost predicate FillInv(months: seq<YearMonth>, i: nat, entries: seq<QuarterBucket>)
  {
    i <= |months| && Grouped(months, i, entries)
    && (forall j :: 0 <= j < |entries| ==> BucketShape(entries[j]))
    && (AllValid(months) && Chronological(months) ==> GroupedInOrder(months, i, entries))
  }

  lemma {:induction false} FillStep(months: seq<YearMonth>, i: nat, entries: seq<QuarterBucket>)
    requires i < |months| && FillInv(months, i, entries)
    ensures FillInv(months, i + 1, AfterStep(entries, months[i]))
  {
    GroupStep(months, i, entries);
    if AllValid(months) && Chronological(months) {
      GroupStepChronological(months, i, entries);
    }
    AfterStepShape(entries, months[i]);
  }

  lemma {:induction false} AfterStepShape(entries: seq<QuarterBucket>, m: YearMonth)
    requires forall j :: 0 <= j < |entries| ==> BucketShape(entries[j])
    ensures var e2 := AfterStep(entries, m);
      forall j :: 0 <= j < |e2| ==> BucketShape(e2[j])
  {
  }

  /** The `forEach` of `groupMonthsByQuarters`: one bucket per quarter, in order of first appearance. */
  method FillBuckets(months: seq<YearMonth>) returns (entries: seq<QuarterBucket>)
    ensures Grouped(months, |months|, entries)
    ensures forall j :: 0 <= j < |entries| ==> BucketShape(entries[j])
    ensures AllValid(months) && Chronological(months) ==> GroupedInOrder(months, |months|, entries)
  {
    entries := [];
    var i := 0;
    while i < |months|
      invariant i <= |months| && FillInv(months, i, entries)
    {
      FillStep(months, i, entries);
      entries := AddToBucket(entries, months[i]);
      i := i + 1;
    }
  }

  /** One step of the `forEach`: create the month's bucket if it is missing, then push the month. */
  method AddToBucket(entries: seq<QuarterBucket>, m: YearMonth) returns (out: seq<QuarterBucket>)
    ensures out == AfterStep(entries, m)
  {
    var key := QuarterOf(m);
    var idx := FindBucket(entries, key);
    out := entries;
    if idx < 0 {
      out := out + [BucketFor(key, [])];
      idx := |out| - 1;
    }
    out := out[idx := out[idx].(months := out[idx].months + [m])];
  }

  /**
   * The sort of `groupMonthsByQuarters`: ascending by fiscal start year, then
   * quarter. The keys are distinct, so the order is total; an already sorted
   * list is returned as it is.
   */
  method SortBuckets(bs: seq<QuarterBucket>) returns (out: seq<QuarterBucket>)
    requires Distinct(KeysOf(bs))
    ensures StrictlySorted(KeysOf(out)) && |out| == |bs|
    ensures forall b :: b in out <==> b in bs
    ensures StrictlySorted(KeysOf(bs)) ==> out == bs
  {
    out := [];
    var i := 0;
    while i < |bs|
      invariant 0 <= i <= |bs| && |out| == i
      invariant StrictlySorted(KeysOf(out))
      invariant forall b :: b in out <==> b in bs[..i]
      invariant StrictlySorted(KeysOf(bs)) ==> out == bs[..i]
    {
      var x := bs[i];
      var p := |out|;
      assert KeysOf(bs)[i] == KeyOfBucket(x);
      assert i > 0 ==> KeysOf(bs)[i - 1] == KeyOfBucket(bs[i - 1]);
      while p > 0 && KeyLess(KeyOfBucket(x), KeyOfBucket(out[p - 1]))
        invariant 0 <= p <= |out|
        invariant forall q :: p <= q < |out| ==> KeyLess(KeyOfBucket(x), KeyOfBucket(out[q]))
        invariant StrictlySorted(KeysOf(bs)) ==>
          p == |out| && (p > 0 ==> KeyLess(KeyOfBucket(out[p - 1]), KeyOfBucket(x)))
      {
        p := p - 1;
      }
      InsertKeepsSorted(bs, i, out, p);
      out := out[..p] + [x] + out[p..];
      assert bs[..i + 1] == bs[..i] + [x];
      i := i + 1;
    }
    assert bs[..i] == bs;
  }

  /** Inserting the next bucket where the inner loop of the sort stops keeps the list sorted. */
  lemma {:induction false} InsertKeepsSorted(bs: seq<QuarterBucket>, i: nat, out: seq<QuarterBucket>, p: nat)
    requires Distinct(KeysOf(bs)) && i < |bs| && p <= |out|
    requires StrictlySorted(KeysOf(out))
    requires forall b :: b in out <==> b in bs[..i]
    requires forall q :: p <= q < |out| ==> KeyLess(KeyOfBucket(bs[i]), KeyOfBucket(out[q]))
    requires p == 0 || !KeyLess(KeyOfBucket(bs[i]), KeyOfBucket(out[p - 1]))
    ensures StrictlySorted(KeysOf(out[..p] + [bs[i]] + out[p..]))
  {
    var x := bs[i];
    var r := out[..p] + [x] + out[p..];
    if p > 0 {
      assert out[p - 1] in bs[..i];
      var t :| 0 <= t < i && bs[t] == out[p - 1];
      assert KeysOf(bs)[t] != KeysOf(bs)[i];
      assert KeyLess(KeyOfBucket(out[p - 1]), KeyOfBucket(x));
    }
    forall a, b | 0 <= a < b < |r|
      ensures KeyLess(KeyOfBucket(r[a]), KeyOfBucket(r[b]))
    {
      if b < p {
        assert r[a] == out[a] && r[b] == out[b];
        assert KeysOf(out)[a] == KeyOfBucket(out[a]) && KeysOf(out)[b] == KeyOfBucket(out[b]);
      } else if a > p {
        assert r[a] == out[a - 1] && r[b] == out[b - 1];
        assert KeysOf(out)[a - 1] == KeyOfBucket(out[a - 1]) && KeysOf(out)[b - 1] == KeyOfBucket(out[b - 1]);
      } else if a == p {
        assert r[b] == out[b - 1];
      } else if b == p {
        assert r[a] == out[a];
        assert KeysOf(out)[a] == KeyOfBucket(out[a]);
        if a < p - 1 {
          assert KeysOf(out)[p - 1] == KeyOfBucket(out[p - 1]);
        }
      } else {
        assert r[a] == out[a] && r[b] == out[b - 1];
        assert KeyLess(KeyOfBucket(x), KeyOfBucket(out[b - 1]));
        assert KeysOf(out)[a] == KeyOfBucket(out[a]);
        if a < p - 1 {
          assert KeysOf(out)[p - 1] == KeyOfBucket(out[p - 1]);
        }
      }
    }
  }
}

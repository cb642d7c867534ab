/**
 * The import half of the CSV round trip: `processImportedRows` finds the
 * columns by header name, turns each record into a task (skipping the ones
 * with a missing name or date, an unreadable date, or a start after the
 * end), normalises the status, and adds the tasks and their missing groups
 * to the board; `usDateToISO` reads the dates.
 * The id base (`Date.now()`) is a parameter.
 */
module CsvImport {
  import opened Text
  import opened Dates
  import opened Records
  import opened Csv
  import Board

  // ---------------------------------------------------------------------
  // Header lookup
  // ---------------------------------------------------------------------

  /**
   * `norm(s)`: lower-cased, then without whitespace, then without
   * underscores. Removing a character never creates one of the others, so
   * the three steps act on each character alone.
   */
  function Norm(s: string): (r: string)
    ensures |r| <= |s|
    ensures forall i :: 0 <= i < |r| ==> !IsWhitespace(r[i]) && r[i] != '_' && !('A' <= r[i] <= 'Z')
  {
    if s == [] then [] else NormChar(s[0]) + Norm(s[1..])
  }

  /** What `norm` leaves of one character. */
  function NormChar(c: char): (r: string)
    ensures |r| <= 1
    ensures forall i :: 0 <= i < |r| ==> !IsWhitespace(r[i]) && r[i] != '_' && !('A' <= r[i] <= 'Z')
  {
    if IsWhitespace(c) || c == '_' then [] else [ToLowerAscii(c)]
  }

  lemma {:induction false} NormAppend(a: string, b: string)
    ensures Norm(a + b) == Norm(a) + Norm(b)
  {
    if a == [] {
      assert a + b == b;
    } else {
      assert (a + b)[0] == a[0] && (a + b)[1..] == a[1..] + b;
      NormAppend(a[1..], b);
    }
  }

  /** Normalising twice is normalising once. */
  lemma {:induction false} NormIdempotent(s: string)
    ensures Norm(Norm(s)) == Norm(s)
  {
    if s != [] {
      var head := NormChar(s[0]);
      NormAppend(head, Norm(s[1..]));
      NormIdempotent(s[1..]);
      if head != [] {
        assert head[1..] == [];
        assert NormChar(head[0]) == head;
      }
    }
  }

  /** Header matching ignores the case of ASCII letters. */
  lemma {:induction false} NormIgnoresCase(s: string)
    ensures Norm(UpperAscii(s)) == Norm(s)
  {
    if s != [] {
      var u := UpperAscii(s);
      assert u[0] == ToUpperAscii(s[0]) && u[1..] == UpperAscii(s[1..]);
      NormCharIgnoresCase(s[0]);
      NormIgnoresCase(s[1..]);
    }
  }

  lemma {:induction false} NormCharIgnoresCase(c: char)
    ensures NormChar(ToUpperAscii(c)) == NormChar(c)
  {
    if 'a' <= c <= 'z' {
      assert !IsWhitespace(c) && !IsWhitespace(ToUpperAscii(c));
    }
  }

  /** Header matching ignores whitespace and underscores anywhere in a header. */
  lemma {:induction false} NormIgnoresSeparators(a: string, c: char, b: string)
    requires IsWhitespace(c) || c == '_'
    ensures Norm(a + [c] + b) == Norm(a + b)
  {
    assert a + [c] + b == a + ([c] + b);
    NormAppend(a, [c] + b);
    NormSkipsSeparator(c, b);
    NormAppend(a, b);
  }

  lemma {:induction false} NormSkipsSeparator(c: char, b: string)
    requires IsWhitespace(c) || c == '_'
    ensures Norm([c] + b) == Norm(b)
  {
    assert ([c] + b)[0] == c && ([c] + b)[1..] == b;
    assert NormChar(c) == [];
  }

  /** The five columns the import looks for. */
  datatype Role = TaskRole | GroupRole | StartRole | EndRole | StatusRole

  /**
   * The normalised header names each column answers to: the current
   * export headers and the older ones. The three names with an underscore
   * are listed too, although no normalised header can equal them.
   */
  function Aliases(role: Role): set<string>
  {
    match role
    case TaskRole => {"activity", "taskname", "task", "task_name"}
    case GroupRole => {"epic", "groupname", "group", "group_name"}
    case StartRole => {"start", "startdate", "start_date"}
    case EndRole => {"end", "enddate", "end_date", "finishdate", "finish"}
    case StatusRole => {"status"}
  }

  /** The underscore spellings among the aliases never match. */
  lemma {:induction false} UnderscoreAliasesUnreachable(k: string)
    ensures Norm(k) != "task_name" && Norm(k) != "group_name"
    ensures Norm(k) != "start_date" && Norm(k) != "end_date"
  {
    var n := Norm(k);
    if |n| > 4 {
      assert n[4] != '_';
    }
    if |n| > 5 {
      assert n[5] != '_';
    }
    if |n| > 3 {
      assert n[3] != '_';
    }
    assert "task_name"[4] == '_' && "group_name"[5] == '_' && "start_date"[5] == '_' && "end_date"[3] == '_';
  }

  predicate Answers(k: string, role: Role)
  {
    Norm(k) in Aliases(role)
  }

  /** The key `headerMap[role]` ends up holding after the loop over `keys`: the first key that answers. */
  function KeyFor(keys: seq<string>, role: Role): Option<string>
  {
    if keys == [] then None
    else
      var prev := KeyFor(keys[..|keys| - 1], role);
      if prev.Some? then prev
      else if Answers(keys[|keys| - 1], role) then Some(keys[|keys| - 1])
      else None
  }

  /** `KeyFor` picks the first answering key, and finds one whenever some key answers. */
  lemma {:induction false} KeyForFirst(keys: seq<string>, role: Role)
    ensures KeyFor(keys, role).None? <==> forall i :: 0 <= i < |keys| ==> !Answers(keys[i], role)
    ensures KeyFor(keys, role).Some? ==>
              exists i :: 0 <= i < |keys| && keys[i] == KeyFor(keys, role).value && Answers(keys[i], role)
                          && forall j :: 0 <= j < i ==> !Answers(keys[j], role)
  {
    if keys != [] {
      var init := keys[..|keys| - 1];
      KeyForFirst(init, role);
      assert forall i :: 0 <= i < |init| ==> init[i] == keys[i];
      if KeyFor(init, role).Some? {
        var i :| 0 <= i < |init| && init[i] == KeyFor(init, role).value && Answers(init[i], role)
                 && forall j :: 0 <= j < i ==> !Answers(init[j], role);
        assert keys[i] == KeyFor(keys, role).value;
      } else if Answers(keys[|keys| - 1], role) {
        assert keys[|keys| - 1] == KeyFor(keys, role).value;
      }
    }
  }

  /** One more key: it is taken when nothing before it answered and it does. */
  lemma {:induction false} KeyForStep(keys: seq<string>, i: nat, role: Role)
    requires i < |keys|
    ensures KeyFor(keys[..i + 1], role)
            == if KeyFor(keys[..i], role).Some? then KeyFor(keys[..i], role)
               else if Answers(keys[i], role) then Some(keys[i]) else None
  {
    assert keys[..i + 1][..i] == keys[..i];
  }

  /** `headerMap`: the key found for each column, if any. */
  datatype HeaderMap = HeaderMap(task: Option<string>, group: Option<string>, start: Option<string>,
                                 end: Option<string>, status: Option<string>)

  function HeaderMapFor(keys: seq<string>): HeaderMap
  {
    HeaderMap(KeyFor(keys, TaskRole), KeyFor(keys, GroupRole), KeyFor(keys, StartRole),
              KeyFor(keys, EndRole), KeyFor(keys, StatusRole))
  }

  /** The required columns are all there; the status column is optional. */
  predicate Complete(hm: HeaderMap)
  {
    hm.task.Some? && hm.group.Some? && hm.start.Some? && hm.end.Some?
  }

  /**
   * The `for (const k of keys)` loop that fills `headerMap`. The source
   * tests each key against the current header names and then against the
   * older ones before it moves to the next key, so the two rounds amount
   * to one test per column against all its names.
   */
  method FindHeaders(keys: seq<string>) returns (hm: HeaderMap)
    ensures hm == HeaderMapFor(keys)
  {
    var task, group, start, end, status := None, None, None, None, None;
    var i := 0;
    while i < |keys|
      invariant 0 <= i <= |keys|
      invariant HeaderMap(task, group, start, end, status) == HeaderMapFor(keys[..i])
    {
      var k := keys[i];
      if task.None? && Answers(k, TaskRole) { task := Some(k); }
      if group.None? && Answers(k, GroupRole) { group := Some(k); }
      if start.None? && Answers(k, StartRole) { start := Some(k); }
      if end.None? && Answers(k, EndRole) { end := Some(k); }
      if status.None? && Answers(k, StatusRole) { status := Some(k); }
      KeyForStep(keys, i, TaskRole);
      KeyForStep(keys, i, GroupRole);
      KeyForStep(keys, i, StartRole);
      KeyForStep(keys, i, EndRole);
      KeyForStep(keys, i, StatusRole);
      i := i + 1;
    }
    assert keys[..i] == keys;
    hm := HeaderMap(task, group, start, end, status);
  }

  // ---------------------------------------------------------------------
  // Dates
  // ---------------------------------------------------------------------

  predicate IsSlash(c: char) { c == '/' }

  /** The month part `[0-1]?\d` of the US pattern. */
  predicate IsMonthPart(p: string)
  {
    (|p| == 1 && IsDigit(p[0])) || (|p| == 2 && '0' <= p[0] <= '1' && IsDigit(p[1]))
  }

  /** The day part `[0-3]?\d` of the US pattern. */
  predicate IsDayPart(p: string)
  {
    (|p| == 1 && IsDigit(p[0])) || (|p| == 2 && '0' <= p[0] <= '3' && IsDigit(p[1]))
  }

  /** The three groups of `^([0-1]?\d)\/([0-3]?\d)\/(\d{4})$`. */
  datatype UsParts = UsParts(month: string, day: string, year: string)

  /**
   * The groups of the US pattern, if `s` matches it. No group holds a
   * slash, so the groups sit before the first slash, between the first and
   * the second, and after the second.
   */
  function MatchUs(s: string): (r: Option<UsParts>)
    ensures r.Some? ==> IsMonthPart(r.value.month) && IsDayPart(r.value.day)
                        && |r.value.year| == 4 && AllDigits(r.value.year)
                        && s == r.value.month + "/" + r.value.day + "/" + r.value.year
  {
    var i := FirstIndex(s, IsSlash);
    if i < 0 then None
    else
      var rest := s[i + 1..];
      var j := FirstIndex(rest, IsSlash);
      if j < 0 then None
      else
        var p := UsParts(s[..i], rest[..j], rest[j + 1..]);
        if IsMonthPart(p.month) && IsDayPart(p.day) && |p.year| == 4 && AllDigits(p.year) then
          AroundSlashes(s, i, rest, j);
          Some(p)
        else None
  }

  /** Every string of the US pattern's shape is matched, with its own groups. */
  lemma {:induction false} MatchUsFinds(p: UsParts)
    requires IsMonthPart(p.month) && IsDayPart(p.day) && |p.year| == 4 && AllDigits(p.year)
    ensures MatchUs(p.month + "/" + p.day + "/" + p.year) == Some(p)
  {
    var rest := p.day + "/" + p.year;
    assert p.month + "/" + p.day + "/" + p.year == p.month + "/" + rest;
    FirstSlash(p.month, rest);
    FirstSlash(p.day, p.year);
  }

  /** A string cut at a slash is what comes before it, the slash, and what comes after. */
  lemma {:induction false} AroundSlash(s: string, i: int)
    requires 0 <= i < |s| && IsSlash(s[i])
    ensures s == s[..i] + "/" + s[i + 1..]
  {
    assert s == s[..i] + [s[i]] + s[i + 1..];
  }

  /** A string cut at two slashes is its three pieces joined by slashes. */
  lemma {:induction false} AroundSlashes(s: string, i: int, rest: string, j: int)
    requires 0 <= i < |s| && IsSlash(s[i]) && rest == s[i + 1..]
    requires 0 <= j < |rest| && IsSlash(rest[j])
    ensures s == s[..i] + "/" + rest[..j] + "/" + rest[j + 1..]
  {
    AroundSlash(s, i);
    AroundSlash(rest, j);
    assert s[..i] + "/" + (rest[..j] + "/" + rest[j + 1..]) == s[..i] + "/" + rest[..j] + "/" + rest[j + 1..];
  }

  /** In `a + "/" + b` with no slash in a one- or two-character `a`, the first slash is the one after `a`. */
  lemma {:induction false} FirstSlash(a: string, b: string)
    requires 1 <= |a| <= 2 && IsDigit(a[0]) && IsDigit(a[|a| - 1])
    ensures var s := a + "/" + b;
            FirstIndex(s, IsSlash) == |a| && s[..|a|] == a && s[|a| + 1..] == b
  {
    var s := a + "/" + b;
    assert IsSlash(s[|a|]);
    assert forall k :: 0 <= k < |a| ==> !IsSlash(s[k]);
    assert s[..|a|] == a;
    assert s[|a| + 1..] == b;
  }

  /** `part.padStart(2, '0')` of a one- or two-digit group: two digits of the same value. */
  lemma {:induction false} PadTwo(part: string)
    requires 1 <= |part| <= 2 && AllDigits(part)
    ensures var r := PadStart(part, 2, '0');
            |r| == 2 && AllDigits(r) && DigitsToNat(r) == DigitsToNat(part)
            && (|part| == 2 ==> r == part)
  {
    var r := PadStart(part, 2, '0');
    if |part| == 1 {
      assert PadStart(['0'] + part, 2, '0') == ['0'] + part;
      assert r == ['0'] + part;
      DigitsToNatTwo(r);
      assert part[..0] == [];
    }
  }

  /**
   * The US branch of `usDateToISO`: the month and day padded to two
   * digits, kept when the month is 1..12 and the day 1..31 (any month may
   * have 31 days), and written as `yyyy-mm-dd` with the same numbers.
   */
  function FromUs(p: UsParts): (r: Option<string>)
    requires IsMonthPart(p.month) && IsDayPart(p.day) && |p.year| == 4 && AllDigits(p.year)
    ensures r.Some? ==> IsoInRange(r.value)
  {
    var mm := PadStart(p.month, 2, '0');
    var dd := PadStart(p.day, 2, '0');
    assert |mm| == 2 && AllDigits(mm) && |dd| == 2 && AllDigits(dd) by {
      PartDigits(p.month);
      PartDigits(p.day);
      PadTwo(p.month);
      PadTwo(p.day);
    }
    if DigitsToNat(mm) < 1 || DigitsToNat(mm) > 12 || DigitsToNat(dd) < 1 || DigitsToNat(dd) > 31 then None
    else
      var iso := p.year + "-" + mm + "-" + dd;
      IsoParts(p.year, mm, dd);
      Some(iso)
  }

  /** The conversion keeps the year, month and day, and fails exactly when the month or the day is out of range. */
  lemma {:induction false} FromUsKeepsFields(p: UsParts)
    requires IsMonthPart(p.month) && IsDayPart(p.day) && |p.year| == 4 && AllDigits(p.year)
    ensures var r := FromUs(p);
            (r.Some? <==> 1 <= DigitsToNat(p.month) <= 12 && 1 <= DigitsToNat(p.day) <= 31)
            && (r.Some? ==> r.value[..4] == p.year
                            && DigitsToNat(r.value[5..7]) == DigitsToNat(p.month)
                            && DigitsToNat(r.value[8..]) == DigitsToNat(p.day))
  {
    PartDigits(p.month);
    PartDigits(p.day);
    PadTwo(p.month);
    PadTwo(p.day);
    var mm := PadStart(p.month, 2, '0');
    var dd := PadStart(p.day, 2, '0');
    IsoParts(p.year, mm, dd);
  }

  /** The pieces of `${yyyy}-${mm}-${dd}` sit where the ISO shape expects them. */
  lemma {:induction false} IsoParts(y: string, mm: string, dd: string)
    requires |y| == 4 && |mm| == 2 && |dd| == 2
    ensures var iso := y + "-" + mm + "-" + dd;
            |iso| == 10 && iso[..4] == y && iso[4] == '-' && iso[5..7] == mm && iso[7] == '-' && iso[8..] == dd
  {
    var iso := y + "-" + mm + "-" + dd;
    assert iso[..4] == y;
    assert iso[5..7] == mm;
    assert iso[8..] == dd;
  }

  /**
   * `usDateToISO(us)`: the trimmed text as it is when it already has the
   * `yyyy-mm-dd` shape (and a month of 1..12, a day of 1..31), else the
   * conversion of its `m/d/yyyy` groups. `None` is `null`.
   */
  function UsDateToISO(us: string): (r: Option<string>)
    ensures r.Some? ==> IsoInRange(r.value)
  {
    var s := Trim(us);
    if IsIsoShape(s) then
      if IsoInRange(s) then Some(s) else None
    else
      match MatchUs(s)
      case None => None
      case Some(p) => FromUs(p)
  }

  /** A converted date converts to itself. */
  lemma {:induction false} UsDateToISOIdempotent(us: string)
    requires UsDateToISO(us).Some?
    ensures UsDateToISO(UsDateToISO(us).value) == UsDateToISO(us)
  {
    IsoConvertsToItself(UsDateToISO(us).value);
  }

  /** An in-range ISO date is kept as it is. */
  lemma {:induction false} IsoConvertsToItself(x: string)
    requires IsoInRange(x)
    ensures UsDateToISO(x) == Some(x)
  {
    assert IsDigit(x[0]) && x[8..][1] == x[9] && IsDigit(x[9]);
    TrimOfTrimmed(x);
  }

  /**
   * A `m/d/yyyy` (or `mm/dd/yyyy`) date goes through the US branch, so
   * (by `FromUsKeepsFields`) it converts exactly when its month is 1..12
   * and its day 1..31, into the same year, month and day.
   */
  lemma {:induction false} UsDateConverts(p: UsParts)
    requires IsMonthPart(p.month) && IsDayPart(p.day) && |p.year| == 4 && AllDigits(p.year)
    ensures UsDateToISO(p.month + "/" + p.day + "/" + p.year) == FromUs(p)
  {
    UsShapeMatched(p);
  }

  lemma {:induction false} PartDigits(x: string)
    requires IsMonthPart(x) || IsDayPart(x)
    ensures 1 <= |x| <= 2 && AllDigits(x)
  {
  }

  /** A string of the US shape is already trimmed, is not of the ISO shape, and matches with its own groups. */
  lemma {:induction false} UsShapeMatched(p: UsParts)
    requires IsMonthPart(p.month) && IsDayPart(p.day) && |p.year| == 4 && AllDigits(p.year)
    ensures var s := p.month + "/" + p.day + "/" + p.year;
            Trim(s) == s && !IsIsoShape(s) && MatchUs(s) == Some(p)
  {
    var s := p.month + "/" + p.day + "/" + p.year;
    assert s[0] == p.month[0] && IsDigit(s[0]);
    assert s[|s| - 1] == p.year[3] && IsDigit(s[|s| - 1]);
    TrimOfTrimmed(s);
    assert s[|p.month|] == '/' && !IsDigit(s[|p.month|]);
    assert s[..4][|p.month|] == '/';
    MatchUsFinds(p);
  }

  // ---------------------------------------------------------------------
  // Records to tasks
  // ---------------------------------------------------------------------

  /** `Object.keys(STATUS_COLORS)`, in declaration order. */
  const STATUS_KEYS: seq<string> := [NOT_STARTED, IN_PROGRESS, DELAYED, BLOCKED, ACTION_NEEDED, COMPLETED]

  function SameIgnoringCase(raw: string): string -> bool
  {
    (k: string) => LowerAscii(k) == LowerAscii(raw)
  }

  /**
   * The status an imported row gets: the first known status equal to the
   * raw text up to case, else Not Started.
   */
  function KnownStatus(raw: string): (r: string)
    ensures r in STATUS_KEYS
  {
    var i := FirstIndex(STATUS_KEYS, SameIgnoringCase(raw));
    if i < 0 then NOT_STARTED else STATUS_KEYS[i]
  }

  /** The known statuses differ even up to case. */
  lemma {:induction false} StatusKeysDistinctIgnoringCase()
    ensures forall i, j :: 0 <= i < j < |STATUS_KEYS| ==> LowerAscii(STATUS_KEYS[i]) != LowerAscii(STATUS_KEYS[j])
  {
    var l := seq(|STATUS_KEYS|, i requires 0 <= i < |STATUS_KEYS| => LowerAscii(STATUS_KEYS[i]));
    assert l[0][0] == 'n' && l[1][0] == 'i' && l[2][0] == 'd' && l[3][0] == 'b' && l[4][0] == 'a' && l[5][0] == 'c';
  }

  /**
   * A raw status equal to a known one up to case becomes that one; any
   * other raw status becomes Not Started.
   */
  lemma {:induction false} KnownStatusMatches(raw: string)
    ensures forall k :: k in STATUS_KEYS && LowerAscii(k) == LowerAscii(raw) ==> KnownStatus(raw) == k
    ensures (forall k :: k in STATUS_KEYS ==> LowerAscii(k) != LowerAscii(raw)) ==> KnownStatus(raw) == NOT_STARTED
  {
    StatusKeysDistinctIgnoringCase();
  }

  /** The columns of a complete header map: a key for each required column, and maybe one for the status. */
  datatype Columns = Columns(task: string, group: string, start: string, end: string, status: Option<string>)

  /** The column keys, once the required-headers check has passed. */
  function ColumnsOf(hm: HeaderMap): Columns
    requires Complete(hm)
  {
    Columns(hm.task.value, hm.group.value, hm.start.value, hm.end.value, hm.status)
  }

  /** `String(row[key] || '')`: a missing cell is empty. */
  function Field(row: Row, key: string): string
  {
    if key in row.values then row.values[key] else ""
  }

  /** The raw status: the status column's cell, trimmed, or empty without a status column. */
  function RawStatus(row: Row, cols: Columns): string
  {
    if cols.status.Some? then Trim(Field(row, cols.status.value)) else ""
  }

  /** What every imported task satisfies. */
  predicate WellFormedImport(t: Task)
  {
    t.name != "" && t.group != "" && IsoInRange(t.startDate) && IsoInRange(t.endDate)
    && !IsoAfter(t.startDate, t.endDate) && t.status in STATUS_KEYS && t.color == StatusColor(t.status)
  }

  /**
   * One pass of the row loop: the task the row becomes, or `None` when the
   * loop `continue`s — an empty name, start or end, a date that does not
   * convert, or a start after the end.
   */
  function RowTask(row: Row, cols: Columns, id: int): (r: Option<Task>)
    ensures r.Some? ==> r.value.id == id && WellFormedImport(r.value)
  {
    var name := Trim(Field(row, cols.task));
    var groupName := GroupNameOf(Field(row, cols.group));
    var startUS := Trim(Field(row, cols.start));
    var endUS := Trim(Field(row, cols.end));
    if name == "" || startUS == "" || endUS == "" then None
    else
      var startISO := UsDateToISO(startUS);
      var endISO := UsDateToISO(endUS);
      if startISO.None? || endISO.None? then None
      else if IsoAfter(startISO.value, endISO.value) then None
      else
        var status := KnownStatus(RawStatus(row, cols));
        Some(Task(id, name, groupName, startISO.value, endISO.value, StatusColor(status), status))
  }

  /** The empty string is no date. */
  lemma {:induction false} EmptyIsNoDate()
    ensures UsDateToISO("") == None
  {
    assert Trim("") == "";
    assert FirstIndex("", IsSlash) == -1;
  }

  /** Converting trims first, so trimming before makes no difference, and blank text converts to nothing. */
  lemma {:induction false} ConvertTrimmed(s: string)
    ensures UsDateToISO(Trim(s)) == UsDateToISO(s)
    ensures Trim(s) == "" ==> UsDateToISO(s) == None
  {
    TrimOfTrimmed(Trim(s));
    SameTrimSameDate(Trim(s), s);
    if Trim(s) == "" {
      EmptyIsNoDate();
    }
  }

  /** The conversion only looks at the trimmed text. */
  lemma {:induction false} SameTrimSameDate(a: string, b: string)
    requires Trim(a) == Trim(b)
    ensures UsDateToISO(a) == UsDateToISO(b)
  {
  }

  /**
   * A row is imported exactly when it has a name and both of its dates
   * convert with the start not after the end; the task keeps the trimmed
   * name, the group (Ungrouped when blank) and the converted dates.
   */
  lemma {:induction false} RowTaskAccepts(row: Row, cols: Columns, id: int)
    ensures var startISO := UsDateToISO(Field(row, cols.start));
            var endISO := UsDateToISO(Field(row, cols.end));
            var r := RowTask(row, cols, id);
            (r.Some? <==> Trim(Field(row, cols.task)) != "" && startISO.Some? && endISO.Some?
                          && !IsoAfter(startISO.value, endISO.value))
            && (r.Some? ==> r.value.name == Trim(Field(row, cols.task))
                            && r.value.group == GroupNameOf(Field(row, cols.group))
                            && r.value.startDate == startISO.value && r.value.endDate == endISO.value
                            && r.value.status == KnownStatus(RawStatus(row, cols)))
  {
    ConvertTrimmed(Field(row, cols.start));
    ConvertTrimmed(Field(row, cols.end));
  }

  /** The row loop's conversion, as a value the import's bookkeeping can take. */
  function Converter(cols: Columns): (Row, int) -> Option<Task>
  {
    (row: Row, id: int) => RowTask(row, cols, id)
  }

  /**
   * The tasks the loop pushes, in row order: each row through `convert`,
   * with ids counting up from `idBase` over the rows that convert only.
   */
  function Collect(rows: seq<Row>, convert: (Row, int) -> Option<Task>, idBase: int): (r: seq<Task>)
    ensures |r| <= |rows|
  {
    if rows == [] then []
    else
      var prev := Collect(rows[..|rows| - 1], convert, idBase);
      match convert(rows[|rows| - 1], idBase + |prev|)
      case None => prev
      case Some(t) => prev + [t]
  }

  /** Every collected task is what one of the rows becomes under the task's place in the count. */
  lemma {:induction false} CollectFromRows(rows: seq<Row>, convert: (Row, int) -> Option<Task>, idBase: int)
    ensures forall j :: 0 <= j < |Collect(rows, convert, idBase)| ==>
              exists i :: 0 <= i < |rows| && convert(rows[i], idBase + j) == Some(Collect(rows, convert, idBase)[j])
  {
    if rows != [] {
      var init := rows[..|rows| - 1];
      var prev := Collect(init, convert, idBase);
      var r := Collect(rows, convert, idBase);
      var last := convert(rows[|rows| - 1], idBase + |prev|);
      CollectFromRows(init, convert, idBase);
      forall j | 0 <= j < |r|
        ensures exists i :: 0 <= i < |rows| && convert(rows[i], idBase + j) == Some(r[j])
      {
        if j < |prev| {
          assert exists i :: 0 <= i < |init| && convert(init[i], idBase + j) == Some(prev[j]);
          var i :| 0 <= i < |init| && convert(init[i], idBase + j) == Some(prev[j]);
          assert rows[i] == init[i] && r[j] == prev[j];
        } else {
          assert j == |prev| && last.Some? && r[j] == last.value;
        }
      }
    } else {
      assert Collect(rows, convert, idBase) == [];
    }
  }

  /** A property every converted task has, every collected task has. */
  lemma {:induction false} CollectKeeps(rows: seq<Row>, convert: (Row, int) -> Option<Task>, idBase: int,
                                        ok: (Task, int) -> bool)
    requires forall row, id :: convert(row, id).Some? ==> ok(convert(row, id).value, id)
    ensures forall j :: 0 <= j < |Collect(rows, convert, idBase)| ==> ok(Collect(rows, convert, idBase)[j], idBase + j)
  {
    CollectFromRows(rows, convert, idBase);
    forall j | 0 <= j < |Collect(rows, convert, idBase)|
      ensures ok(Collect(rows, convert, idBase)[j], idBase + j)
    {
      var i :| 0 <= i < |rows| && convert(rows[i], idBase + j) == Some(Collect(rows, convert, idBase)[j]);
    }
  }

  /** A task the import made under id `id`. */
  predicate ImportedAs(t: Task, id: int)
  {
    t.id == id && WellFormedImport(t)
  }

  /** The imported tasks have ids `idBase`, `idBase + 1`, ... and are all well formed. */
  lemma {:induction false} ImportedTasksWellFormed(rows: seq<Row>, cols: Columns, idBase: int)
    ensures var r := Collect(rows, Converter(cols), idBase);
            forall j :: 0 <= j < |r| ==> ImportedAs(r[j], idBase + j)
  {
    forall row, id | Converter(cols)(row, id).Some?
      ensures ImportedAs(Converter(cols)(row, id).value, id)
    {
      assert Converter(cols)(row, id) == RowTask(row, cols, id);
    }
    CollectKeeps(rows, Converter(cols), idBase, ImportedAs);
  }

  // ---------------------------------------------------------------------
  // The board side
  // ---------------------------------------------------------------------

  /** The board's four globals, as values. */
  datatype Snapshot = Snapshot(tasks: seq<Task>, groups: map<string, Group>,
                               states: map<string, bool>, order: seq<string>)

  function SnapshotOf(b: Board.Board): Snapshot
    reads b
  {
    Snapshot(b.tasks, b.groups, b.groupStates, b.groupOrder)
  }

  ghost predicate Consistent(s: Snapshot)
  {
    Board.ConsistentState(s.tasks, s.groups, s.states, s.order)
  }

  /**
   * One imported task: pushed, its group's status re-derived (which does
   * nothing while the group does not exist yet), then its group created
   * with the task's colour, expanded and last in the order, if missing.
   */
  function AddImported(s: Snapshot, t: Task): Snapshot
  {
    var tasks := s.tasks + [t];
    var groups := AutoStatus(s.groups, tasks, t.group);
    Snapshot(tasks, WithGroup(groups, t.group, t.color),
             Board.GroupStates(groups, s.states, t.group), Board.GroupOrder(groups, s.order, t.group))
  }

  /**
   * The tasks applied one after the other with `step`. Stated over any step
   * so that the lemmas below see only the facts they assume about it.
   */
  function Replay(s: Snapshot, ts: seq<Task>, step: (Snapshot, Task) -> Snapshot): Snapshot
  {
    if ts == [] then s else step(Replay(s, ts[..|ts| - 1], step), ts[|ts| - 1])
  }

  /** A property every allowed step keeps holds after replaying allowed tasks. */
  lemma {:induction false} ReplayKeeps(s: Snapshot, ts: seq<Task>, step: (Snapshot, Task) -> Snapshot,
                                       inv: Snapshot -> bool, allowed: Task -> bool)
    requires inv(s) && forall k :: 0 <= k < |ts| ==> allowed(ts[k])
    requires forall p, t :: inv(p) && allowed(t) ==> inv(step(p, t))
    ensures inv(Replay(s, ts, step))
    decreases |ts|
  {
    if ts != [] {
      var init := ts[..|ts| - 1];
      assert forall k :: 0 <= k < |init| ==> allowed(init[k]) by {
        forall k | 0 <= k < |init| ensures allowed(init[k]) { assert init[k] == ts[k]; }
      }
      ReplayKeeps(s, init, step, inv, allowed);
    }
  }

  /**
   * A property that some task establishes, and that every later step keeps
   * or re-establishes while `base` holds, holds after the replay.
   */
  lemma {:induction false} ReplayReaches(s: Snapshot, ts: seq<Task>, step: (Snapshot, Task) -> Snapshot,
                                         base: Snapshot -> bool, inv: Snapshot -> bool,
                                         establishes: Task -> bool, k: nat)
    requires base(s) && forall p, t :: base(p) ==> base(step(p, t))
    requires forall p, t :: base(p) && (inv(p) || establishes(t)) ==> inv(step(p, t))
    requires k < |ts| && establishes(ts[k])
    ensures inv(Replay(s, ts, step))
    decreases |ts|
  {
    var init := ts[..|ts| - 1];
    ReplayKeeps(s, init, step, base, _ => true);
    if k < |init| {
      assert establishes(init[k]);
      ReplayReaches(s, init, step, base, inv, establishes, k);
    }
  }

  /** Replaying appends the tasks when each step appends its task. */
  lemma {:induction false} ReplayTasks(s: Snapshot, ts: seq<Task>, step: (Snapshot, Task) -> Snapshot)
    requires forall p, t :: step(p, t).tasks == p.tasks + [t]
    ensures Replay(s, ts, step).tasks == s.tasks + ts
    decreases |ts|
  {
    if ts == [] {
      assert s.tasks + ts == s.tasks;
    } else {
      ReplayTasks(s, ts[..|ts| - 1], step);
      assert s.tasks + ts == s.tasks + ts[..|ts| - 1] + [ts[|ts| - 1]];
    }
  }

  lemma {:induction false} AddImportedKeeps(s: Snapshot, t: Task)
    requires Consistent(s)
    ensures Consistent(AddImported(s, t))
  {
    var groups := AutoStatus(s.groups, s.tasks + [t], t.group);
    Board.SameKeysKeep(s.tasks, s.groups, groups, s.states, s.order);
    Board.AddTaskKeeps(s.tasks, groups, s.states, s.order, t);
  }

  /** The imported tasks one after the other. */
  function AddAllImported(s: Snapshot, ts: seq<Task>): Snapshot
  {
    Replay(s, ts, AddImported)
  }

  /** An import keeps the board consistent: every task's group exists, and every group has a state and one place in the order. */
  lemma {:induction false} AddAllImportedKeeps(s: Snapshot, ts: seq<Task>)
    requires Consistent(s)
    ensures Consistent(AddAllImported(s, ts))
  {
    forall p, t | Consistent(p) ensures Consistent(AddImported(p, t)) {
      AddImportedKeeps(p, t);
    }
    ReplayKeeps(s, ts, AddImported, Consistent, _ => true);
  }

  /** The imported tasks are appended after the existing ones, in order. */
  lemma {:induction false} AddAllImportedTasks(s: Snapshot, ts: seq<Task>)
    ensures AddAllImported(s, ts).tasks == s.tasks + ts
  {
    ReplayTasks(s, ts, AddImported);
  }

  /** The old order stays in front: new groups only come after it. */
  lemma {:induction false} AddAllImportedKeepsOrder(s: Snapshot, ts: seq<Task>)
    ensures |s.order| <= |AddAllImported(s, ts).order|
    ensures AddAllImported(s, ts).order[..|s.order|] == s.order
  {
    var o := s.order;
    var inv := (p: Snapshot) => |o| <= |p.order| && p.order[..|o|] == o;
    forall p, t | inv(p) ensures inv(AddImported(p, t)) {
      var r := AddImported(p, t);
      assert r.order[..|p.order|] == p.order;
      assert r.order[..|o|] == r.order[..|p.order|][..|o|];
    }
    ReplayKeeps(s, ts, AddImported, inv, _ => true);
  }

  /** An import adds groups but removes none, and keeps every state it finds. */
  lemma {:induction false} AddAllImportedKeepsStates(s: Snapshot, ts: seq<Task>, h: string)
    requires Consistent(s) && h in s.states
    ensures h in AddAllImported(s, ts).states && AddAllImported(s, ts).states[h] == s.states[h]
  {
    var v := s.states[h];
    var inv := (p: Snapshot) => Consistent(p) && h in p.states && p.states[h] == v;
    forall p, t | inv(p) ensures inv(AddImported(p, t)) {
      AddImportedKeeps(p, t);
    }
    ReplayKeeps(s, ts, AddImported, inv, _ => true);
  }

  /** A group none of whose tasks is imported keeps its record. */
  lemma {:induction false} AddAllImportedLeavesGroup(s: Snapshot, ts: seq<Task>, h: string)
    requires h in s.groups && forall k :: 0 <= k < |ts| ==> ts[k].group != h
    ensures h in AddAllImported(s, ts).groups && AddAllImported(s, ts).groups[h] == s.groups[h]
  {
    var grp := s.groups[h];
    var inv := (p: Snapshot) => h in p.groups && p.groups[h] == grp;
    var allowed := (t: Task) => t.group != h;
    ReplayKeeps(s, ts, AddImported, inv, allowed);
  }

  /**
   * The status quirk of the import: the status is derived before the group
   * exists, so a group that one imported row creates has no status,
   * although its tasks have one to derive (`confirmAddTaskModal` derives it).
   */
  lemma {:induction false} NewGroupGetsNoStatus(s: Snapshot, t: Task)
    requires t.group !in s.groups
    ensures var r := AddImported(s, t);
            t.group in r.groups && r.groups[t.group].status == None
            && DeriveGroupStatus(r.tasks, t.group).Some?
  {
    var tasks := s.tasks + [t];
    assert tasks[|tasks| - 1].group == t.group;
    HasTaskDerives(tasks, t.group);
    var auto := AutoStatus(s.groups, tasks, t.group);
    assert auto == s.groups;
    assert AddImported(s, t).groups == WithGroup(s.groups, t.group, t.color);
  }

  /** A group that existed before the import and got an imported task ends with its derived status. */
  lemma {:induction false} ExistingGroupStatusDerived(s: Snapshot, ts: seq<Task>, g: string, k: nat)
    requires g in s.groups && k < |ts| && ts[k].group == g
    ensures g in AddAllImported(s, ts).groups
    ensures AddAllImported(s, ts).groups[g].status == DeriveGroupStatus(AddAllImported(s, ts).tasks, g)
  {
    var base := (p: Snapshot) => g in p.groups;
    var inv := (p: Snapshot) => g in p.groups && p.groups[g].status == DeriveGroupStatus(p.tasks, g);
    var establishes := (t: Task) => t.group == g;
    forall p, t | base(p) && (inv(p) || establishes(t)) ensures inv(AddImported(p, t)) {
      StatusDerivedStep(p, t, g);
    }
    ReplayReaches(s, ts, AddImported, base, inv, establishes, k);
  }

  /** One imported task keeps an existing group's status derived, and derives it when the task is in that group. */
  lemma {:induction false} StatusDerivedStep(p: Snapshot, t: Task, g: string)
    requires g in p.groups
    requires p.groups[g].status == DeriveGroupStatus(p.tasks, g) || t.group == g
    ensures var r := AddImported(p, t);
            g in r.groups && r.groups[g].status == DeriveGroupStatus(r.tasks, g)
  {
    var tasks := p.tasks + [t];
    if t.group == g {
      assert tasks[|tasks| - 1].group == g;
      HasTaskDerives(tasks, g);
    } else {
      DeriveIgnoresOtherGroups(p.tasks, t, g);
    }
    var auto := AutoStatus(p.groups, tasks, t.group);
    assert AddImported(p, t) == Snapshot(tasks, WithGroup(auto, t.group, t.color),
                                         Board.GroupStates(auto, p.states, t.group),
                                         Board.GroupOrder(auto, p.order, t.group));
  }


  /** One more row: its task, if it converts to `r`, is collected after the others. */
  lemma {:induction false} CollectStep(rows: seq<Row>, convert: (Row, int) -> Option<Task>, idBase: int, i: nat,
                                       id: int, r: Option<Task>)
    requires i < |rows| && id == idBase + |Collect(rows[..i], convert, idBase)| && convert(rows[i], id) == r
    ensures r.None? ==> Collect(rows[..i + 1], convert, idBase) == Collect(rows[..i], convert, idBase)
    ensures r.Some? ==> Collect(rows[..i + 1], convert, idBase) == Collect(rows[..i], convert, idBase) + [r.value]
  {
    assert rows[..i + 1][..i] == rows[..i];
  }

  /** One more imported task is one more step. */
  lemma {:induction false} AddAllImportedStep(s: Snapshot, ts: seq<Task>, t: Task)
    ensures AddAllImported(s, ts + [t]) == AddImported(AddAllImported(s, ts), t)
  {
    assert (ts + [t])[..|ts|] == ts;
  }

  /**
   * The row loop of `processImportedRows`: every row that `convert` turns
   * into a task, given the next id, is pushed; then its group's status is
   * re-derived and, if missing, its group is created.
   */
  method AddRows(b: Board.Board, rows: seq<Row>, convert: (Row, int) -> Option<Task>, idBase: int)
    returns (imported: nat)
    modifies b
    ensures imported == |Collect(rows, convert, idBase)|
    ensures SnapshotOf(b) == AddAllImported(old(SnapshotOf(b)), Collect(rows, convert, idBase))
  {
    imported := 0;
    ghost var start := SnapshotOf(b);
    var i := 0;
    while i < |rows|
      invariant 0 <= i <= |rows|
      invariant imported == |Collect(rows[..i], convert, idBase)|
      invariant SnapshotOf(b) == AddAllImported(start, Collect(rows[..i], convert, idBase))
    {
      ghost var prev := Collect(rows[..i], convert, idBase);
      ghost var before := SnapshotOf(b);
      var id := idBase + imported;
      var r := convert(rows[i], id);
      CollectStep(rows, convert, idBase, i, id, r);
      match r {
        case None =>
        case Some(t) =>
          b.tasks := b.tasks + [t];
          b.ApplyAutoGroupStatus(t.group);
          b.AddGroupIfMissing(t.group, t.color);
          imported := imported + 1;
          assert SnapshotOf(b) == AddImported(before, t);
          AddAllImportedStep(start, prev, t);
      }
      i := i + 1;
    }
    assert rows[..i] == rows;
  }

  /**
   * `processImportedRows`: with no rows, or without the four required
   * columns, nothing changes; otherwise every row that converts is added
   * as a task with the next id, and its group is refreshed or created.
   * `idBase` stands for `Date.now()`.
   */
  method ProcessImportedRows(b: Board.Board, rows: seq<Row>, idBase: int) returns (imported: nat)
    modifies b
    ensures (rows == [] || !Complete(HeaderMapFor(rows[0].keys))) ==> unchanged(b) && imported == 0
    ensures rows != [] && Complete(HeaderMapFor(rows[0].keys)) ==>
              var ts := Collect(rows, Converter(ColumnsOf(HeaderMapFor(rows[0].keys))), idBase);
              imported == |ts| && SnapshotOf(b) == AddAllImported(old(SnapshotOf(b)), ts)
    ensures old(b.Consistent()) ==> b.Consistent()
  {
    imported := 0;
    if rows == [] {
      return;
    }
    var hm := FindHeaders(rows[0].keys);
    if !Complete(hm) {
      return;
    }
    var convert := Converter(ColumnsOf(hm));
    ghost var start := SnapshotOf(b);
    imported := AddRows(b, rows, convert, idBase);
    if Consistent(start) {
      AddAllImportedKeeps(start, Collect(rows, convert, idBase));
    }
  }
}

/**
 * The CSV text format of the editor: export quoting (`esc`), line
 * splitting (`splitCSVLine`) and the record reader (`parseCSV`). Quoting
 * follows section 2 of RFC 4180 (rule 5: fields may be enclosed in double
 * quotes; rule 6: commas inside quotes are data; rule 7: a double quote
 * inside a quoted field is written twice).
 */
module Csv {
  import opened Text
  import opened Records

  /** `esc(v)`: the value in double quotes, each `"` doubled. */
  function Esc(v: string): (r: string)
    ensures |r| >= 2 && r[0] == '"' && r[|r| - 1] == '"'
  {
    "\"" + ReplaceAll(v, '"', "\"\"") + "\""
  }

  /** `fields.join(sep)`. */
  function Join(fields: seq<string>, sep: string): string
  {
    if fields == [] then ""
    else if |fields| == 1 then fields[0]
    else fields[0] + sep + Join(fields[1..], sep)
  }

  /** `fields.map(esc)`. */
  function EscAll(fields: seq<string>): (r: seq<string>)
    ensures |r| == |fields|
    ensures forall i :: 0 <= i < |fields| ==> r[i] == Esc(fields[i])
  {
    seq(|fields|, i requires 0 <= i < |fields| => Esc(fields[i]))
  }

  /** One exported line: each field quoted, separated by commas. */
  function JoinEsc(fields: seq<string>): string
  {
    Join(EscAll(fields), ",")
  }

  /** The state of `splitCSVLine` between two characters. */
  datatype ScanState = ScanState(done: seq<string>, cur: string, inQuotes: bool)

  /**
   * `splitCSVLine`'s loop over what is left of the line: a `""` inside
   * quotes is one quote character, any other `"` toggles quoting, a comma
   * outside quotes ends the field, and everything else is field text.
   */
  function Scan(s: string, st: ScanState): ScanState
    decreases |s|
  {
    if s == [] then st
    else if s[0] == '"' then
      if st.inQuotes && |s| > 1 && s[1] == '"' then Scan(s[2..], st.(cur := st.cur + ['"']))
      else Scan(s[1..], st.(inQuotes := !st.inQuotes))
    else if s[0] == ',' && !st.inQuotes then Scan(s[1..], ScanState(st.done + [st.cur], "", false))
    else Scan(s[1..], st.(cur := st.cur + [s[0]]))
  }

  /** What `splitCSVLine(line)` returns. */
  function SplitLine(line: string): seq<string>
  {
    var st := Scan(line, ScanState([], "", false));
    st.done + [st.cur]
  }

  /** `splitCSVLine`. */
  method SplitCSVLine(line: string) returns (result: seq<string>)
    ensures result == SplitLine(line)
  {
    result := [];
    var cur := "";
    var inQuotes := false;
    var i := 0;
    while i < |line|
      invariant 0 <= i <= |line|
      invariant var st := Scan(line[i..], ScanState(result, cur, inQuotes)); st.done + [st.cur] == SplitLine(line)
      decreases |line| - i
    {
      var ch := line[i];
      assert line[i..][1..] == line[i + 1..];
      if ch == '"' {
        if inQuotes && i + 1 < |line| && line[i + 1] == '"' {
          assert line[i..][2..] == line[i + 2..];
          cur := cur + ['"'];
          i := i + 1;
        } else {
          inQuotes := !inQuotes;
        }
      } else if ch == ',' && !inQuotes {
        result := result + [cur];
        cur := "";
      } else {
        cur := cur + [ch];
      }
      i := i + 1;
    }
    assert line[i..] == [];
    result := result + [cur];
  }

  /**
   * Inside quotes, the doubled-quote body of a field reads back as the
   * field: each `""` becomes one `"` and commas are not separators.
   */
  lemma {:induction false} QuotedBody(f: string, rest: string, st: ScanState)
    requires st.inQuotes
    ensures Scan(ReplaceAll(f, '"', "\"\"") + rest, st) == Scan(rest, st.(cur := st.cur + f))
    decreases |f|
  {
    if f == [] {
      assert ReplaceAll(f, '"', "\"\"") + rest == rest;
      assert st.(cur := st.cur + f) == st;
    } else {
      var s := ReplaceAll(f, '"', "\"\"") + rest;
      var tail := ReplaceAll(f[1..], '"', "\"\"") + rest;
      if f[0] == '"' {
        assert s == "\"\"" + tail;
        ScanQuotePair(s, tail, st);
      } else {
        assert s == [f[0]] + tail;
        ScanTextChar(s, tail, st);
      }
      QuotedBody(f[1..], rest, st.(cur := st.cur + [f[0]]));
      assert st.cur + [f[0]] + f[1..] == st.cur + f;
    }
  }

  /** Inside quotes, `""` reads as one quote character. */
  lemma {:induction false} ScanQuotePair(s: string, tail: string, st: ScanState)
    requires st.inQuotes && s == "\"\"" + tail
    ensures Scan(s, st) == Scan(tail, st.(cur := st.cur + ['"']))
  {
    assert s[2..] == tail;
  }

  /** Inside quotes, a character other than `"` is field text. */
  lemma {:induction false} ScanTextChar(s: string, tail: string, st: ScanState)
    requires st.inQuotes && |s| >= 1 && s[0] != '"' && s[1..] == tail
    ensures Scan(s, st) == Scan(tail, st.(cur := st.cur + [s[0]]))
  {
  }

  /** A quoted field followed by a comma or the end of the line reads back as the field. */
  lemma {:induction false} EscField(f: string, rest: string, done: seq<string>)
    requires rest == [] || rest[0] == ','
    ensures Scan(Esc(f) + rest, ScanState(done, "", false)) == Scan(rest, ScanState(done, f, false))
  {
    var body := ReplaceAll(f, '"', "\"\"");
    var s := Esc(f) + rest;
    assert s == "\"" + (body + ("\"" + rest));
    assert s[1..] == body + ("\"" + rest);
    QuotedBody(f, "\"" + rest, ScanState(done, "", true));
    assert "" + f == f;
    assert ("\"" + rest)[1..] == rest;
  }

  lemma {:induction false} JoinEscCons(fields: seq<string>)
    requires |fields| >= 2
    ensures JoinEsc(fields) == Esc(fields[0]) + ("," + JoinEsc(fields[1..]))
  {
    assert EscAll(fields)[1..] == EscAll(fields[1..]);
  }

  /** Scanning a line of quoted fields leaves all fields but the last done and the last in progress. */
  lemma {:induction false} ScanJoinEsc(fields: seq<string>, done: seq<string>)
    requires |fields| >= 1
    ensures Scan(JoinEsc(fields), ScanState(done, "", false))
            == ScanState(done + fields[..|fields| - 1], fields[|fields| - 1], false)
    decreases |fields|
  {
    if |fields| == 1 {
      assert JoinEsc(fields) == Esc(fields[0]) + [];
      EscField(fields[0], [], done);
      assert done + fields[..0] == done;
    } else {
      ScanJoinEscCons(fields, done);
      ScanJoinEsc(fields[1..], done + [fields[0]]);
      HeadThenPrefix(done, fields);
    }
  }

  /** Scanning the first quoted field and its comma finishes that field. */
  lemma {:induction false} ScanJoinEscCons(fields: seq<string>, done: seq<string>)
    requires |fields| >= 2
    ensures Scan(JoinEsc(fields), ScanState(done, "", false))
            == Scan(JoinEsc(fields[1..]), ScanState(done + [fields[0]], "", false))
  {
    var tail := JoinEsc(fields[1..]);
    JoinEscCons(fields);
    EscField(fields[0], "," + tail, done);
    assert ("," + tail)[1..] == tail;
  }

  lemma {:induction false} HeadThenPrefix<T>(done: seq<T>, s: seq<T>)
    requires |s| >= 2
    ensures done + [s[0]] + s[1..][..|s| - 2] == done + s[..|s| - 1]
  {
    assert [s[0]] + s[1..][..|s| - 2] == s[..|s| - 1];
  }

  /**
   * The export/import round trip of one line:
   * `splitCSVLine(fields.map(esc).join(','))` is `fields`, for any
   * non-empty list of fields (the empty list joins to "" and reads back
   * as one empty field).
   */
  lemma {:induction false} SplitJoinEsc(fields: seq<string>)
    requires |fields| >= 1
    ensures SplitLine(JoinEsc(fields)) == fields
  {
    ScanJoinEsc(fields, []);
    assert [] + fields[..|fields| - 1] + [fields[|fields| - 1]] == fields;
  }

  /** The empty list of fields does not round-trip. */
  lemma {:induction false} SplitJoinEscEmpty()
    ensures SplitLine(JoinEsc([])) == [""]
  {
  }

  /** The commas `splitCSVLine` treats as separators: those outside quotes. */
  function UnquotedCommas(s: string, inQuotes: bool): nat
    decreases |s|
  {
    if s == [] then 0
    else if s[0] == '"' then
      if inQuotes && |s| > 1 && s[1] == '"' then UnquotedCommas(s[2..], true)
      else UnquotedCommas(s[1..], !inQuotes)
    else (if s[0] == ',' && !inQuotes then 1 else 0) + UnquotedCommas(s[1..], inQuotes)
  }

  lemma {:induction false} ScanCount(s: string, st: ScanState)
    ensures |Scan(s, st).done| == |st.done| + UnquotedCommas(s, st.inQuotes)
    decreases |s|
  {
    if s != [] {
      if s[0] == '"' {
        if st.inQuotes && |s| > 1 && s[1] == '"' {
          ScanCount(s[2..], st.(cur := st.cur + ['"']));
        } else {
          ScanCount(s[1..], st.(inQuotes := !st.inQuotes));
        }
      } else if s[0] == ',' && !st.inQuotes {
        ScanCount(s[1..], ScanState(st.done + [st.cur], "", false));
      } else {
        ScanCount(s[1..], st.(cur := st.cur + [s[0]]));
      }
    }
  }

  /** The number of fields is the number of unquoted commas plus one. */
  lemma {:induction false} SplitLineCount(line: string)
    ensures |SplitLine(line)| == UnquotedCommas(line, false) + 1
  {
    ScanCount(line, ScanState([], "", false));
  }

  /** Text without quotes or commas is field text. */
  lemma {:induction false} ScanPlain(f: string, rest: string, st: ScanState)
    requires '"' !in f && ',' !in f
    ensures Scan(f + rest, st) == Scan(rest, st.(cur := st.cur + f))
    decreases |f|
  {
    if f == [] {
      assert f + rest == rest;
      assert st.(cur := st.cur + f) == st;
    } else {
      assert (f + rest)[0] == f[0];
      assert (f + rest)[1..] == f[1..] + rest;
      ScanPlain(f[1..], rest, st.(cur := st.cur + [f[0]]));
      assert st.cur + [f[0]] + f[1..] == st.cur + f;
    }
  }

  lemma {:induction false} ScanJoinPlain(fields: seq<string>, done: seq<string>)
    requires |fields| >= 1
    requires forall i :: 0 <= i < |fields| ==> '"' !in fields[i] && ',' !in fields[i]
    ensures Scan(Join(fields, ","), ScanState(done, "", false))
            == ScanState(done + fields[..|fields| - 1], fields[|fields| - 1], false)
    decreases |fields|
  {
    if |fields| == 1 {
      ScanPlain(fields[0], [], ScanState(done, "", false));
      assert fields[0] + [] == fields[0];
      assert "" + fields[0] == fields[0];
      assert done + fields[..0] == done;
    } else {
      var tail := Join(fields[1..], ",");
      assert Scan(Join(fields, ","), ScanState(done, "", false)) == Scan(tail, ScanState(done + [fields[0]], "", false)) by {
        assert Join(fields, ",") == fields[0] + ("," + tail);
        ScanPlain(fields[0], "," + tail, ScanState(done, "", false));
        assert "" + fields[0] == fields[0];
        assert ("," + tail)[1..] == tail;
      }
      ScanJoinPlain(fields[1..], done + [fields[0]]);
      assert done + [fields[0]] + fields[1..][..|fields| - 2] == done + fields[..|fields| - 1];
    }
  }

  /** Fields without quotes or commas also round-trip unquoted (the export header line is written this way). */
  lemma {:induction false} SplitJoinPlain(fields: seq<string>)
    requires |fields| >= 1
    requires forall i :: 0 <= i < |fields| ==> '"' !in fields[i] && ',' !in fields[i]
    ensures SplitLine(Join(fields, ",")) == fields
  {
    ScanJoinPlain(fields, []);
    assert [] + fields[..|fields| - 1] + [fields[|fields| - 1]] == fields;
  }

  /** `line` without one trailing carriage return. */
  function DropCR(line: string): (r: string)
  {
    if |line| > 0 && line[|line| - 1] == '\r' then line[..|line| - 1] else line
  }

  predicate IsNewline(c: char) { c == '\n' }

  /** `text.split(/\r?\n/)`. */
  function Lines(text: string): (r: seq<string>)
    ensures |r| >= 1
    ensures forall i :: 0 <= i < |r| ==> '\n' !in r[i]
    decreases |text|
  {
    var k := FirstIndex(text, IsNewline);
    if k < 0 then [text]
    else
      assert forall j :: 0 <= j < k ==> text[..k][j] != '\n';
      [DropCR(text[..k])] + Lines(text[k + 1..])
  }

  /** `lines.filter(l => l.trim().length > 0)`. */
  function NonBlank(lines: seq<string>): (r: seq<string>)
    ensures forall i :: 0 <= i < |r| ==> Trim(r[i]) != "" && r[i] in lines
  {
    if lines == [] then []
    else (if Trim(lines[0]) != "" then [lines[0]] else []) + NonBlank(lines[1..])
  }

  /** A record of `parseCSV`: its keys in the order the object got them, and their values. */
  datatype Row = Row(keys: seq<string>, values: map<string, string>)

  /** `(cols[idx] ?? '').trim()`. */
  function Cell(cols: seq<string>, idx: nat): string
  {
    if idx < |cols| then Trim(cols[idx]) else ""
  }

  /**
   * The object `headers.forEach((h, idx) => obj[h] = …)` builds from the
   * first `n` headers: a repeated header keeps its first place and takes
   * its last column.
   */
  function MakeRow(headers: seq<string>, cols: seq<string>, n: nat): (r: Row)
    requires n <= |headers|
  {
    if n == 0 then Row([], map[])
    else
      var r := MakeRow(headers, cols, n - 1);
      var h := headers[n - 1];
      Row(if h in r.values then r.keys else r.keys + [h], r.values[h := Cell(cols, n - 1)])
  }

  /** A record keyed by `hs`: it has a value for each header and lists each of its keys once. */
  ghost predicate KeyedBy(r: Row, hs: seq<string>)
  {
    (forall h :: h in r.values <==> h in hs)
    && (forall h :: h in r.keys <==> h in r.values)
    && (forall i, j :: 0 <= i < j < |r.keys| ==> r.keys[i] != r.keys[j])
  }

  /** A record has a value for each header and lists each of its keys once. */
  lemma {:induction false} MakeRowShape(headers: seq<string>, cols: seq<string>, n: nat)
    requires n <= |headers|
    ensures KeyedBy(MakeRow(headers, cols, n), headers[..n])
  {
    if n > 0 {
      MakeRowShape(headers, cols, n - 1);
      var p := MakeRow(headers, cols, n - 1);
      var h := headers[n - 1];
      var r := MakeRow(headers, cols, n);
      assert KeyedBy(p, headers[..n - 1]);
      assert r.values == p.values[h := Cell(cols, n - 1)];
      PrefixGrows(headers, n);
      if h in p.values {
        assert r.keys == p.keys;
      } else {
        assert r.keys == p.keys + [h];
        assert h !in p.keys;
        forall i, j | 0 <= i < j < |r.keys|
          ensures r.keys[i] != r.keys[j]
        {
          if j == |p.keys| {
            assert r.keys[i] == p.keys[i];
          } else {
            assert r.keys[i] == p.keys[i] && r.keys[j] == p.keys[j];
          }
        }
      }
    }
  }

  /** Each header's value is the cell under its last occurrence. */
  lemma {:induction false} MakeRowLastWins(headers: seq<string>, cols: seq<string>, n: nat, j: nat)
    requires LastAmongFirst(headers, j, n)
    ensures headers[j] in MakeRow(headers, cols, n).values
    ensures MakeRow(headers, cols, n).values[headers[j]] == Cell(cols, j)
  {
    if j == n - 1 {
      MakeRowSetsLast(headers, cols, n);
    } else {
      assert headers[n - 1] != headers[j] && LastAmongFirst(headers, j, n - 1);
      MakeRowLastWins(headers, cols, n - 1, j);
      MakeRowKeepsOther(headers, cols, n, headers[j]);
    }
  }

  /** Among the first `n` headers, none after position `j` repeats `headers[j]`. */
  ghost predicate LastAmongFirst(headers: seq<string>, j: nat, n: nat)
  {
    j < n <= |headers| && forall m :: j < m < n ==> headers[m] != headers[j]
  }

  /** The last header read takes its own cell. */
  lemma {:induction false} MakeRowSetsLast(headers: seq<string>, cols: seq<string>, n: nat)
    requires 0 < n <= |headers|
    ensures headers[n - 1] in MakeRow(headers, cols, n).values
    ensures MakeRow(headers, cols, n).values[headers[n - 1]] == Cell(cols, n - 1)
  {
  }

  /** Reading another header leaves a key's value alone. */
  lemma {:induction false} MakeRowKeepsOther(headers: seq<string>, cols: seq<string>, n: nat, k: string)
    requires 0 < n <= |headers| && k != headers[n - 1] && k in MakeRow(headers, cols, n - 1).values
    ensures k in MakeRow(headers, cols, n).values
    ensures MakeRow(headers, cols, n).values[k] == MakeRow(headers, cols, n - 1).values[k]
  {
  }

  /** The header row: each header trimmed. */
  function Headers(line: string): (r: seq<string>)
    ensures |r| == |SplitLine(line)|
    ensures forall i :: 0 <= i < |r| ==> r[i] == Trim(SplitLine(line)[i])
  {
    seq(|SplitLine(line)|, i requires 0 <= i < |SplitLine(line)| => Trim(SplitLine(line)[i]))
  }

  /**
   * `parseCSV` then removes a byte-order mark from the first header; the
   * mark counts as whitespace for `trim`, so there is none left to remove.
   */
  lemma {:induction false} HeadersHaveNoMark(line: string)
    ensures Headers(line) == [] || Headers(line)[0] == [] || Headers(line)[0][0] != '\U{FEFF}'
  {
  }

  /** The records under the header row, one per line. */
  function RowsOf(headers: seq<string>, body: seq<string>): (r: seq<Row>)
    ensures |r| == |body|
    ensures forall i :: 0 <= i < |body| ==> r[i] == MakeRow(headers, SplitLine(body[i]), |headers|)
  {
    seq(|body|, i requires 0 <= i < |body| => MakeRow(headers, SplitLine(body[i]), |headers|))
  }

  /**
   * What `parseCSV(text)` returns: nothing when no line has text, and
   * otherwise one record per further non-blank line, keyed by the first.
   */
  function CsvRows(text: string): (r: seq<Row>)
    ensures |r| == if NonBlank(Lines(text)) == [] then 0 else |NonBlank(Lines(text))| - 1
  {
    var lines := NonBlank(Lines(text));
    if lines == [] then [] else RowsOf(Headers(lines[0]), lines[1..])
  }

  lemma {:induction false} RowsOfSnoc(headers: seq<string>, body: seq<string>, line: string, cols: seq<string>)
    requires cols == SplitLine(line)
    ensures RowsOf(headers, body + [line]) == RowsOf(headers, body) + [MakeRow(headers, cols, |headers|)]
  {
    var a := RowsOf(headers, body + [line]);
    var b := RowsOf(headers, body) + [MakeRow(headers, cols, |headers|)];
    assert |a| == |b|;
    forall k | 0 <= k < |a| ensures a[k] == b[k] {
      if k < |body| { assert (body + [line])[k] == body[k]; }
    }
  }

  /** `parseCSV`. */
  method ParseCSV(text: string) returns (rows: seq<Row>)
    ensures rows == CsvRows(text)
  {
    var lines := NonBlank(Lines(text));
    if |lines| == 0 {
      return [];
    }
    rows := ReadRows(Headers(lines[0]), lines[1..]);
  }

  /** The loop of `parseCSV` over the lines under the header row. */
  method ReadRows(headers: seq<string>, body: seq<string>) returns (rows: seq<Row>)
    ensures rows == RowsOf(headers, body)
  {
    rows := [];
    var i := 0;
    while i < |body|
      invariant 0 <= i <= |body|
      invariant |rows| == i
      invariant rows == RowsOf(headers, body[..i])
    {
      var cols := SplitCSVLine(body[i]);
      assert body[..i + 1] == body[..i] + [body[i]];
      RowsOfSnoc(headers, body[..i], body[i], cols);
      rows := rows + [MakeRow(headers, cols, |headers|)];
      i := i + 1;
    }
    assert body[..i] == body;
  }

  /** The export header line, `['epic','activity','start','end','status'].join(',')`. */
  const HEADERS: seq<string> := ["epic", "activity", "start", "end", "status"]

  /** The fields `exportCSV` writes for a task, in header order; a missing status is Not Started. */
  function ExportFields(t: Task): (r: seq<string>)
    ensures |r| == |HEADERS|
  {
    [t.group, t.name, t.startDate, t.endDate, EffectiveStatus(t.status)]
  }

  /** The quoted line of each task. */
  function ExportBody(tasks: seq<Task>): (r: seq<string>)
    ensures |r| == |tasks|
    ensures forall i :: 0 <= i < |tasks| ==> r[i] == JoinEsc(ExportFields(tasks[i]))
  {
    seq(|tasks|, i requires 0 <= i < |tasks| => JoinEsc(ExportFields(tasks[i])))
  }

  /** `exportCSV`'s text: the header line, then one quoted line per task, joined by newlines. */
  function ExportCsv(tasks: seq<Task>): string
  {
    Join([Join(HEADERS, ",")] + ExportBody(tasks), "\n")
  }

  /** No exported field of the task holds a line break. */
  predicate SingleLine(t: Task)
  {
    forall i :: 0 <= i < |ExportFields(t)| ==> '\n' !in ExportFields(t)[i]
  }

  lemma {:induction false} JoinLacks(fields: seq<string>, sep: string, c: char)
    requires c !in sep && forall i :: 0 <= i < |fields| ==> c !in fields[i]
    ensures c !in Join(fields, sep)
    decreases |fields|
  {
    if |fields| > 1 {
      JoinLacks(fields[1..], sep, c);
    }
  }

  lemma {:induction false} JoinHas(fields: seq<string>, sep: string, c: char, k: nat)
    requires k < |fields| && c in fields[k]
    ensures c in Join(fields, sep)
    decreases |fields|
  {
    if |fields| > 1 && k > 0 {
      JoinHas(fields[1..], sep, c, k - 1);
    }
  }

  /** A quoted line has a line break exactly when one of its fields has. */
  lemma {:induction false} JoinEscNewline(fields: seq<string>)
    ensures '\n' in JoinEsc(fields) <==> exists i :: 0 <= i < |fields| && '\n' in fields[i]
  {
    forall i | 0 <= i < |fields|
      ensures '\n' in EscAll(fields)[i] <==> '\n' in fields[i]
    {
      ReplaceAllHas(fields[i], '"', "\"\"", '\n');
    }
    if exists i :: 0 <= i < |fields| && '\n' in fields[i] {
      var i :| 0 <= i < |fields| && '\n' in fields[i];
      JoinHas(EscAll(fields), ",", '\n', i);
    } else {
      JoinLacks(EscAll(fields), ",", '\n');
    }
  }

  /**
   * `esc` does not quote line breaks away: `parseCSV` cuts the text into
   * lines before it looks at quotes, so an exported field holding a line
   * break is split across two lines.
   */
  lemma {:induction false} NewlineSplitsLine(fields: seq<string>, i: nat)
    requires i < |fields| && '\n' in fields[i]
    ensures |Lines(JoinEsc(fields))| >= 2
  {
    JoinEscNewline(fields);
  }

  /** Lines without line breaks (none but the last ending in a carriage return) come back from `split`. */
  lemma {:induction false} LinesOfJoin(ls: seq<string>)
    requires |ls| >= 1
    requires forall i :: 0 <= i < |ls| ==> '\n' !in ls[i]
    requires forall i :: 0 <= i < |ls| - 1 ==> DropCR(ls[i]) == ls[i]
    ensures Lines(Join(ls, "\n")) == ls
    decreases |ls|
  {
    if |ls| == 1 {
      assert Join(ls, "\n") == ls[0];
      LinesOfOne(ls[0]);
    } else {
      var rest := Join(ls[1..], "\n");
      assert Join(ls, "\n") == ls[0] + "\n" + rest;
      LinesCons(ls[0], rest);
      LinesOfJoin(ls[1..]);
    }
  }

  /** Text without a line break is one line. */
  lemma {:induction false} LinesOfOne(text: string)
    requires '\n' !in text
    ensures Lines(text) == [text]
  {
    assert forall j :: 0 <= j < |text| ==> !IsNewline(text[j]);
  }

  /** A first line without a line break or a trailing carriage return is split off as it is. */
  lemma {:induction false} LinesCons(head: string, rest: string)
    requires '\n' !in head && DropCR(head) == head
    ensures Lines(head + "\n" + rest) == [head] + Lines(rest)
  {
    var text := head + "\n" + rest;
    var k := FirstIndex(text, IsNewline);
    assert text[|head|] == '\n';
    assert forall j :: 0 <= j < |head| ==> text[j] == head[j];
    assert k == |head|;
    assert text[..k] == head;
    assert text[k + 1..] == rest;
  }

  lemma {:induction false} NonBlankKeepsAll(ls: seq<string>)
    requires forall i :: 0 <= i < |ls| ==> Trim(ls[i]) != ""
    ensures NonBlank(ls) == ls
    decreases |ls|
  {
    if ls != [] {
      NonBlankKeepsAll(ls[1..]);
    }
  }

  /**
   * Header names the export can write unquoted and read back unchanged:
   * no quote, comma or line break, no surrounding whitespace, none twice.
   */
  ghost predicate PlainHeaders(hs: seq<string>)
  {
    |hs| >= 1
    && (forall i :: 0 <= i < |hs| ==> '"' !in hs[i] && ',' !in hs[i] && '\n' !in hs[i])
    && (forall i :: 0 <= i < |hs| ==> hs[i] != [] && !IsWhitespace(hs[i][0]) && !IsWhitespace(hs[i][|hs[i]| - 1]))
    && (forall i, j :: 0 <= i < j < |hs| ==> hs[i] != hs[j])
  }

  lemma {:induction false} ExportHeadersPlain()
    ensures PlainHeaders(HEADERS)
  {
    assert |HEADERS[0]| == 4 && |HEADERS[1]| == 8 && |HEADERS[2]| == 5 && |HEADERS[3]| == 3 && |HEADERS[4]| == 6;
    assert LowerWord(HEADERS[0]) && LowerWord(HEADERS[1]) && LowerWord(HEADERS[2])
           && LowerWord(HEADERS[3]) && LowerWord(HEADERS[4]);
    LowerWordsPlain(HEADERS);
  }

  /** A non-empty word of lower-case ASCII letters. */
  ghost predicate LowerWord(w: string)
  {
    |w| >= 1 && forall k :: 0 <= k < |w| ==> 'a' <= w[k] <= 'z'
  }

  /** Lower-case words of different lengths make plain headers. */
  lemma {:induction false} LowerWordsPlain(hs: seq<string>)
    requires |hs| >= 1 && forall i :: 0 <= i < |hs| ==> LowerWord(hs[i])
    requires forall i, j :: 0 <= i < j < |hs| ==> |hs[i]| != |hs[j]|
    ensures PlainHeaders(hs)
  {
    forall i | 0 <= i < |hs|
      ensures '"' !in hs[i] && ',' !in hs[i] && '\n' !in hs[i]
    {
      assert forall c :: c in hs[i] ==> 'a' <= c <= 'z';
    }
  }

  /** A header line reads back as its headers. */
  lemma {:induction false} HeaderLineReadsBack(hs: seq<string>)
    requires PlainHeaders(hs)
    ensures Headers(Join(hs, ",")) == hs
  {
    SplitJoinPlain(hs);
    forall i | 0 <= i < |hs|
      ensures Trim(hs[i]) == hs[i]
    {
      TrimOfTrimmed(hs[i]);
    }
  }

  lemma {:induction false} JoinEnds(fields: seq<string>, sep: string)
    requires |fields| >= 1 && forall i :: 0 <= i < |fields| ==> fields[i] != []
    ensures var s := Join(fields, sep);
            |s| >= 1 && s[0] == fields[0][0] && s[|s| - 1] == fields[|fields| - 1][|fields[|fields| - 1]| - 1]
    decreases |fields|
  {
    if |fields| > 1 {
      JoinEnds(fields[1..], sep);
    }
  }

  lemma {:induction false} HeaderLineFacts(hs: seq<string>)
    requires PlainHeaders(hs)
    ensures var l := Join(hs, ","); '\n' !in l && DropCR(l) == l && Trim(l) != ""
  {
    JoinLacks(hs, ",", '\n');
    JoinEnds(hs, ",");
    TrimNonEmpty(Join(hs, ","));
  }

  /** Under distinct headers, the record's keys are the headers in order. */
  lemma {:induction false} MakeRowDistinct(hs: seq<string>, cols: seq<string>, n: nat)
    requires n <= |hs| && forall i, j :: 0 <= i < j < |hs| ==> hs[i] != hs[j]
    ensures MakeRow(hs, cols, n).keys == hs[..n]
  {
    if n > 0 {
      MakeRowDistinct(hs, cols, n - 1);
      LastNotInPrefix(hs, n);
      MakeRowAppends(hs, cols, n);
    }
  }

  /** A header not seen before is appended to the keys. */
  lemma {:induction false} MakeRowAppends(hs: seq<string>, cols: seq<string>, n: nat)
    requires 0 < n <= |hs| && MakeRow(hs, cols, n - 1).keys == hs[..n - 1] && hs[n - 1] !in hs[..n - 1]
    ensures MakeRow(hs, cols, n).keys == hs[..n]
  {
    MakeRowShape(hs, cols, n - 1);
    var p := MakeRow(hs, cols, n - 1);
    assert KeyedBy(p, hs[..n - 1]);
    assert hs[n - 1] !in p.values;
    assert MakeRow(hs, cols, n).keys == p.keys + [hs[n - 1]];
    PrefixGrows(hs, n);
  }

  /** A prefix one longer is the shorter prefix and the next element. */
  lemma {:induction false} PrefixGrows<T>(s: seq<T>, n: nat)
    requires 0 < n <= |s|
    ensures s[..n] == s[..n - 1] + [s[n - 1]]
  {
  }

  lemma {:induction false} LastNotInPrefix(hs: seq<string>, n: nat)
    requires 0 < n <= |hs| && forall i, j :: 0 <= i < j < |hs| ==> hs[i] != hs[j]
    ensures hs[n - 1] !in hs[..n - 1]
  {
    var prefix := hs[..n - 1];
    forall k | 0 <= k < |prefix|
      ensures prefix[k] != hs[n - 1]
    {
      assert prefix[k] == hs[k];
    }
  }

  /** What a line of `fields` under headers `hs` reads back as: each field, trimmed, under its header. */
  ghost predicate ReadsBackAs(r: Row, hs: seq<string>, fields: seq<string>)
  {
    |fields| == |hs| && r.keys == hs && (forall h :: h in r.values <==> h in r.keys)
    && forall j :: 0 <= j < |hs| ==> hs[j] in r.values && r.values[hs[j]] == Trim(fields[j])
  }

  lemma {:induction false} LineReadsBack(hs: seq<string>, fields: seq<string>)
    requires PlainHeaders(hs) && |fields| == |hs|
    ensures ReadsBackAs(MakeRow(hs, SplitLine(JoinEsc(fields)), |hs|), hs, fields)
  {
    var n := |hs|;
    SplitJoinEsc(fields);
    MakeRowDistinct(hs, fields, n);
    MakeRowShape(hs, fields, n);
    assert hs[..n] == hs;
    forall j | 0 <= j < n
      ensures hs[j] in MakeRow(hs, fields, n).values && MakeRow(hs, fields, n).values[hs[j]] == Trim(fields[j])
    {
      assert LastAmongFirst(hs, j, n);
      MakeRowLastWins(hs, fields, n, j);
    }
  }

  lemma {:induction false} TaskLineFacts(t: Task)
    requires SingleLine(t)
    ensures var l := JoinEsc(ExportFields(t)); '\n' !in l && DropCR(l) == l && Trim(l) != ""
  {
    var f := ExportFields(t);
    JoinEscNewline(f);
    JoinEscEnds(f);
    TrimNonEmpty(JoinEsc(f));
  }

  /** The text `exportCSV` writes splits into its header line and one line per task. */
  lemma {:induction false} ExportCsvLines(tasks: seq<Task>)
    requires forall i :: 0 <= i < |tasks| ==> SingleLine(tasks[i])
    ensures NonBlank(Lines(ExportCsv(tasks))) == [Join(HEADERS, ",")] + ExportBody(tasks)
  {
    var head, body := Join(HEADERS, ","), ExportBody(tasks);
    HeaderLineClean();
    forall i | 0 <= i < |body| ensures CleanLine(body[i]) {
      TaskLineFacts(tasks[i]);
    }
    CleanLinesJoin(head, body);
  }

  /** A line without a line break, a trailing carriage return or only blanks. */
  ghost predicate CleanLine(l: string)
  {
    '\n' !in l && DropCR(l) == l && Trim(l) != ""
  }

  lemma {:induction false} HeaderLineClean()
    ensures CleanLine(Join(HEADERS, ","))
  {
    ExportHeadersPlain();
    HeaderLineFacts(HEADERS);
  }

  /** Clean lines joined by line breaks split back into themselves, none dropped as blank. */
  lemma {:induction false} CleanLinesJoin(head: string, body: seq<string>)
    requires CleanLine(head) && forall i :: 0 <= i < |body| ==> CleanLine(body[i])
    ensures NonBlank(Lines(Join([head] + body, "\n"))) == [head] + body
  {
    var ls := [head] + body;
    forall i | 0 <= i < |ls| ensures CleanLine(ls[i]) {
      if i > 0 {
        assert ls[i] == body[i - 1];
      }
    }
    LinesOfJoin(ls);
    NonBlankKeepsAll(ls);
  }

  /**
   * Export then import: `parseCSV(exportCSV())` gives one record per
   * task, keyed by the export headers in order, holding under each header
   * the task's field (group, name, dates, status or Not Started) trimmed,
   * as long as no field holds a line break.
   */
  lemma {:induction false} ExportThenParse(tasks: seq<Task>)
    requires forall i :: 0 <= i < |tasks| ==> SingleLine(tasks[i])
    ensures |CsvRows(ExportCsv(tasks))| == |tasks|
    ensures forall i :: 0 <= i < |tasks| ==> ReadsBackAs(CsvRows(ExportCsv(tasks))[i], HEADERS, ExportFields(tasks[i]))
  {
    ExportCsvLines(tasks);
    ExportHeadersPlain();
    HeaderLineReadsBack(HEADERS);
    forall i | 0 <= i < |tasks|
      ensures ReadsBackAs(CsvRows(ExportCsv(tasks))[i], HEADERS, ExportFields(tasks[i]))
    {
      LineReadsBack(HEADERS, ExportFields(tasks[i]));
    }
  }

  /** A quoted line starts and ends with a quote. */
  lemma {:induction false} JoinEscEnds(fields: seq<string>)
    requires |fields| >= 1
    ensures var s := JoinEsc(fields); |s| >= 2 && s[0] == '"' && s[|s| - 1] == '"'
    decreases |fields|
  {
    if |fields| > 1 {
      JoinEscCons(fields);
      JoinEscEnds(fields[1..]);
    }
  }
}

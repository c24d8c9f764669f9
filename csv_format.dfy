/** The input format `parseCSV` reads, stated independently of the scanner:
    a field is a run of bare text and double-quoted segments (a quote inside a
    quoted segment is doubled), fields are separated by commas and rows end
    with a line feed. The theorems below say what the scanner of
    csvParser.js (lines 37-85) makes of any text written in this format: the
    decoded field values, trimmed, with all-empty rows left out. */
module CsvFormat {
  import opened JsStrings
  import opened CsvTokenizer

  /** A piece of a field as written: bare text or a quoted segment. */
  datatype Segment = Plain(text: string) | Quoted(content: string)

  /** A field as written: its segments in order. */
  type Cell = seq<Segment>

  /** Quote doubling inside a quoted segment. */
  function Escape(c: string): string {
    if c == [] then []
    else (if c[0] == '"' then "\"\"" else [c[0]]) + Escape(c[1..])
  }

  function EncodeSegment(g: Segment): string {
    match g
    case Plain(t) => t
    case Quoted(c) => "\"" + Escape(c) + "\""
  }

  function EncodeCell(cell: Cell): string {
    if cell == [] then "" else EncodeSegment(cell[0]) + EncodeCell(cell[1..])
  }

  /** The fields of one row separated by commas, without the line feed. */
  function EncodeRow(cells: seq<Cell>): string {
    if |cells| == 0 then ""
    else if |cells| == 1 then EncodeCell(cells[0])
    else EncodeCell(cells[0]) + "," + EncodeRow(cells[1..])
  }

  /** Rows, each followed by a line feed. */
  function EncodeRows(rows: seq<seq<Cell>>): string {
    if rows == [] then "" else EncodeRow(rows[0]) + "\n" + EncodeRows(rows[1..])
  }

  /** Bare text without its carriage returns. */
  function DropCarriageReturns(t: string): string {
    if t == [] then [] else (if t[0] == '\r' then [] else [t[0]]) + DropCarriageReturns(t[1..])
  }

  /** What a segment contributes to the field's value. */
  function SegmentValue(g: Segment): string {
    match g
    case Plain(t) => DropCarriageReturns(t)
    case Quoted(c) => c
  }

  /** The value of a field: its segments' values, concatenated. */
  function CellValue(cell: Cell): string {
    if cell == [] then "" else SegmentValue(cell[0]) + CellValue(cell[1..])
  }

  /** Bare text holds no quote, comma or line feed. */
  predicate PlainOk(t: string) {
    t == [] || (t[0] != '"' && t[0] != ',' && t[0] != '\n' && PlainOk(t[1..]))
  }

  /** A field is well written when its bare text is bare and every quoted
      segment is followed, if by anything, by non-empty bare text (two quoted
      segments side by side would read as one escaped quote). */
  predicate CellOk(cell: Cell) {
    cell == []
    || (&& (cell[0].Plain? ==> PlainOk(cell[0].text))
        && (cell[0].Quoted? && |cell| > 1 ==> cell[1].Plain? && cell[1].text != "")
        && CellOk(cell[1..]))
  }

  /** Every field of the row is well written. */
  predicate RowOk(cells: seq<Cell>) {
    cells == [] || (CellOk(cells[0]) && RowOk(cells[1..]))
  }

  /** Every row is well written. */
  predicate RowsOk(rows: seq<seq<Cell>>) {
    rows == [] || (RowOk(rows[0]) && RowsOk(rows[1..]))
  }

  /** The trimmed field values of a row. */
  function RowValues(cells: seq<Cell>): (r: Row)
    ensures |r| == |cells|
  {
    seq(|cells|, k requires 0 <= k < |cells| => Trim(CellValue(cells[k])))
  }

  /** The rows the format denotes: each row's trimmed values, all-empty rows
      left out. */
  function Expected(rows: seq<seq<Cell>>): seq<Row> {
    if rows == [] then []
    else (if HasContent(RowValues(rows[0])) then [RowValues(rows[0])] else []) + Expected(rows[1..])
  }

  // ---------------------------------------------------------------------------
  // Helpers about values
  // ---------------------------------------------------------------------------

  /** The values of a row, the last field split off. */
  lemma RowValuesSnoc(cells: seq<Cell>)
    requires |cells| >= 1
    ensures RowValues(cells[..|cells| - 1]) + [Trim(CellValue(cells[|cells| - 1]))] == RowValues(cells)
  {
  }

  /** The values of a row's fields but its last, the first field split off. */
  lemma RowValuesShift(row: Row, cells: seq<Cell>)
    requires |cells| >= 2
    ensures var rest := cells[1..];
      row + [Trim(CellValue(cells[0]))] + RowValues(rest[..|rest| - 1]) == row + RowValues(cells[..|cells| - 1])
  {
    var a := cells[..|cells| - 1];
    assert cells[1..][..|cells| - 2] == a[1..];
    assert RowValues(a) == [Trim(CellValue(a[0]))] + RowValues(a[1..]);
  }

  /** Leaving out all-empty rows distributes over concatenation. */
  lemma {:induction false} ExpectedAppend(a: seq<seq<Cell>>, b: seq<seq<Cell>>)
    ensures Expected(a + b) == Expected(a) + Expected(b)
  {
    if a != [] {
      ExpectedAppend(a[1..], b);
      assert (a + b)[1..] == a[1..] + b;
    } else {
      assert a + b == b;
    }
  }

  // ---------------------------------------------------------------------------
  // The scanner, piece by piece: each lemma reads one piece of written text
  // followed by whatever `rest` comes after it.
  // ---------------------------------------------------------------------------

  /** Outside quotes, bare text is appended to the field with its carriage
      returns dropped. */
  lemma {:induction false} PlainRun(t: string, rest: string, s: Scanner)
    requires !s.quoted && PlainOk(t)
    ensures Scan(t + rest, s) == Scan(rest, s.(field := s.field + DropCarriageReturns(t)))
    decreases |t|
  {
    if t == [] {
      assert t + rest == rest;
      assert s.(field := s.field + []) == s;
    } else {
      assert t == [t[0]] + t[1..];
      AppendAssoc([t[0]], t[1..], rest);
      if t[0] == '\r' {
        assert [t[0]] == "\r";
        ScanCarriageReturn(t[1..] + rest, s);
        PlainRun(t[1..], rest, s);
        assert DropCarriageReturns(t) == DropCarriageReturns(t[1..]);
      } else {
        ScanPlainChar(t[0], t[1..] + rest, s);
        var s' := s.(field := s.field + [t[0]]);
        PlainRun(t[1..], rest, s');
        assert s'.field + DropCarriageReturns(t[1..]) == s.field + DropCarriageReturns(t);
      }
    }
  }

  /** Inside quotes, the escaped text of `c` appends exactly `c`: a doubled
      quote gives one quote, and commas, line feeds and carriage returns are
      kept as they are. */
  lemma {:induction false} EscapedRun(c: string, rest: string, s: Scanner)
    requires s.quoted
    ensures Scan(Escape(c) + rest, s) == Scan(rest, s.(field := s.field + c))
    decreases |c|
  {
    if c == [] {
      assert Escape(c) + rest == rest;
      assert s.(field := s.field + []) == s;
    } else {
      var s' := s.(field := s.field + [c[0]]);
      if c[0] == '"' {
        assert Escape(c) == "\"\"" + Escape(c[1..]);
        AppendAssoc("\"\"", Escape(c[1..]), rest);
        ScanEscapedQuote(Escape(c[1..]) + rest, s);
        assert "\"" == [c[0]];
      } else {
        assert Escape(c) == [c[0]] + Escape(c[1..]);
        AppendAssoc([c[0]], Escape(c[1..]), rest);
        ScanQuotedChar(c[0], Escape(c[1..]) + rest, s);
      }
      EscapedRun(c[1..], rest, s');
      assert c == [c[0]] + c[1..];
      AppendAssoc(s.field, [c[0]], c[1..]);
    }
  }

  /** A quoted segment read from outside quotes appends its content and
      leaves the scanner outside quotes, provided no quote follows it. */
  lemma QuotedRun(c: string, rest: string, s: Scanner)
    requires !s.quoted && (rest == [] || rest[0] != '"')
    ensures Scan(EncodeSegment(Quoted(c)) + rest, s) == Scan(rest, s.(field := s.field + c))
  {
    assert EncodeSegment(Quoted(c)) == "\"" + Escape(c) + "\"";
    AppendAssoc("\"" + Escape(c), "\"", rest);
    AppendAssoc("\"", Escape(c), "\"" + rest);
    var s1 := s.(quoted := true);
    ScanOpeningQuote(Escape(c) + ("\"" + rest), s);
    EscapedRun(c, "\"" + rest, s1);
    var s2 := s1.(field := s1.field + c);
    ScanClosingQuote(rest, s2);
    assert s2.(quoted := false) == s.(field := s.field + c);
  }

  /** One segment of a field; a quoted one must not be followed by a quote. */
  lemma SegmentRun(g: Segment, rest: string, s: Scanner)
    requires !s.quoted && (g.Plain? ==> PlainOk(g.text))
    requires g.Quoted? ==> rest == [] || rest[0] != '"'
    ensures Scan(EncodeSegment(g) + rest, s) == Scan(rest, s.(field := s.field + SegmentValue(g)))
  {
    match g {
      case Plain(t) => PlainRun(t, rest, s);
      case Quoted(c) => QuotedRun(c, rest, s);
    }
  }

  /** The written text of a field and what it starts with. */
  lemma CellSplit(cell: Cell, rest: string)
    requires CellOk(cell) && cell != []
    ensures EncodeCell(cell) + rest == EncodeSegment(cell[0]) + (EncodeCell(cell[1..]) + rest)
    ensures CellOk(cell[1..])
    ensures cell[0].Quoted? ==> var r := EncodeCell(cell[1..]) + rest; r == rest || r[0] != '"'
  {
    var tail := cell[1..];
    AppendAssoc(EncodeSegment(cell[0]), EncodeCell(tail), rest);
    if cell[0].Quoted? && tail != [] {
      var t := tail[0].text;
      AppendAssoc(t, EncodeCell(tail[1..]), rest);
      assert (t + (EncodeCell(tail[1..]) + rest))[0] == t[0];
    }
  }

  /** Appending a field's value a segment at a time. */
  lemma CellValueHead(f: string, cell: Cell)
    requires cell != []
    ensures f + SegmentValue(cell[0]) + CellValue(cell[1..]) == f + CellValue(cell)
  {
  }

  /** A well-written field appends its value, provided no quote follows it. */
  lemma {:induction false} CellRun(cell: Cell, rest: string, s: Scanner)
    requires !s.quoted && CellOk(cell) && (rest == [] || rest[0] != '"')
    ensures Scan(EncodeCell(cell) + rest, s) == Scan(rest, s.(field := s.field + CellValue(cell)))
    decreases |cell|
  {
    if cell == [] {
      assert EncodeCell(cell) + rest == rest;
      assert s.(field := s.field + "") == s;
    } else {
      CellSplit(cell, rest);
      var s1 := s.(field := s.field + SegmentValue(cell[0]));
      SegmentRun(cell[0], EncodeCell(cell[1..]) + rest, s);
      CellRun(cell[1..], rest, s1);
      CellValueHead(s.field, cell);
    }
  }

  /** A field's value with one more segment. */
  lemma {:induction false} CellValueSnoc(cell: Cell, g: Segment)
    ensures CellValue(cell + [g]) == CellValue(cell) + SegmentValue(g)
    decreases |cell|
  {
    if cell == [] {
      assert cell + [g] == [g];
      assert [g][1..] == [];
    } else {
      assert (cell + [g])[0] == cell[0];
      assert (cell + [g])[1..] == cell[1..] + [g];
      CellValueSnoc(cell[1..], g);
      AppendAssoc(SegmentValue(cell[0]), CellValue(cell[1..]), SegmentValue(g));
    }
  }

  /** A well-written field that does not end with a quoted segment appends
      its value whatever follows it, a quote included. */
  lemma {:induction false} OpenCellRun(cell: Cell, rest: string, s: Scanner)
    requires !s.quoted && CellOk(cell) && (cell == [] || cell[|cell| - 1].Plain?)
    ensures Scan(EncodeCell(cell) + rest, s) == Scan(rest, s.(field := s.field + CellValue(cell)))
    decreases |cell|
  {
    if cell == [] {
      assert EncodeCell(cell) + rest == rest;
      assert s.(field := s.field + "") == s;
    } else {
      var tail := cell[1..];
      var r := EncodeCell(tail) + rest;
      AppendAssoc(EncodeSegment(cell[0]), EncodeCell(tail), rest);
      assert EncodeCell(cell) + rest == EncodeSegment(cell[0]) + r;
      if cell[0].Quoted? {
        assert tail != [] && tail[0].Plain? && tail[0].text != "";
        var t := tail[0].text;
        AppendAssoc(t, EncodeCell(tail[1..]), rest);
        assert r[0] == t[0];
      }
      if tail != [] {
        assert tail[|tail| - 1] == cell[|cell| - 1];
      }
      var s1 := s.(field := s.field + SegmentValue(cell[0]));
      SegmentRun(cell[0], r, s);
      OpenCellRun(tail, rest, s1);
      CellValueHead(s.field, cell);
    }
  }

  /** The written text of two or more fields, and the values involved. */
  lemma FieldsSplit(row: Row, cells: seq<Cell>, rest: string)
    requires |cells| >= 2 && RowOk(cells)
    ensures EncodeRow(cells) + rest == EncodeCell(cells[0]) + ("," + (EncodeRow(cells[1..]) + rest))
    ensures CellOk(cells[0]) && RowOk(cells[1..])
    ensures cells[1..][|cells| - 2] == cells[|cells| - 1]
    ensures var tail := cells[1..];
      row + [Trim(CellValue(cells[0]))] + RowValues(tail[..|tail| - 1]) == row + RowValues(cells[..|cells| - 1])
    ensures "" + CellValue(cells[0]) == CellValue(cells[0])
  {
    var a, b := EncodeCell(cells[0]), EncodeRow(cells[1..]);
    assert EncodeRow(cells) == a + "," + b;
    AppendAssoc(a + ",", b, rest);
    AppendAssoc(a, ",", b + rest);
    RowValuesShift(row, cells);
  }

  /** The values of a row of one field. */
  lemma SingleField(row: Row, cells: seq<Cell>, rest: string)
    requires |cells| == 1
    ensures EncodeRow(cells) + rest == EncodeCell(cells[0]) + rest
    ensures "" + CellValue(cells[0]) == CellValue(cells[0])
    ensures row + RowValues(cells[..0]) == row
  {
    assert RowValues(cells[..0]) == [];
  }

  /** The first of two or more fields and its comma: its trimmed value is
      pushed onto the row. */
  lemma FieldStep(row: Row, acc: seq<Row>, cells: seq<Cell>, rest: string)
    requires |cells| >= 2 && RowOk(cells)
    ensures Scan(EncodeRow(cells) + rest, Scanner("", row, acc, false))
         == Scan(EncodeRow(cells[1..]) + rest, Scanner("", row + [Trim(CellValue(cells[0]))], acc, false))
    ensures RowOk(cells[1..]) && cells[1..][|cells| - 2] == cells[|cells| - 1]
    ensures var tail := cells[1..];
      row + [Trim(CellValue(cells[0]))] + RowValues(tail[..|tail| - 1]) == row + RowValues(cells[..|cells| - 1])
  {
    var s := Scanner("", row, acc, false);
    var tail := EncodeRow(cells[1..]) + rest;
    FieldsSplit(row, cells, rest);
    var v := CellValue(cells[0]);
    assert ("," + tail)[0] == ',';
    CellRun(cells[0], "," + tail, s);
    var s1 := Scanner(v, row, acc, false);
    assert s.(field := s.field + v) == s1;
    ScanComma(tail, s1);
    assert s1.(field := "", row := s1.row + [Trim(s1.field)]) == Scanner("", row + [Trim(v)], acc, false);
  }

  /** Fields separated by commas: each but the last is pushed onto the row,
      trimmed; the last one's value is left pending. */
  lemma {:induction false} FieldsRun(row: Row, acc: seq<Row>, cells: seq<Cell>, rest: string)
    requires |cells| >= 1 && RowOk(cells) && (rest == [] || rest[0] != '"')
    ensures Scan(EncodeRow(cells) + rest, Scanner("", row, acc, false))
         == Scan(rest, Scanner(CellValue(cells[|cells| - 1]), row + RowValues(cells[..|cells| - 1]), acc, false))
    decreases |cells|
  {
    if |cells| == 1 {
      SingleField(row, cells, rest);
      CellRun(cells[0], rest, Scanner("", row, acc, false));
    } else {
      FieldStep(row, acc, cells, rest);
      FieldsRun(row + [Trim(CellValue(cells[0]))], acc, cells[1..], rest);
    }
  }

  /** A line feed alone is a row without content. */
  lemma BlankRowRun(acc: seq<Row>, rest: string)
    ensures Scan("\n" + rest, Scanner("", [], acc, false))
         == Scan(rest, Scanner("", [], acc + Expected([[]]), false))
  {
    var none: seq<Cell> := [];
    assert RowValues(none) == [];
    assert !HasContent([Trim("")]);
    var row: Row := [] + [Trim("")];
    assert row == [Trim("")];
    ScanLineFeed(rest, Scanner("", [], acc, false));
    assert acc + Expected([none]) == acc;
  }

  /** The line feed after the last field of a row. */
  lemma LineFeedRun(acc: seq<Row>, cells: seq<Cell>, rest: string)
    requires |cells| >= 1
    ensures var n := |cells|;
      Scan("\n" + rest, Scanner(CellValue(cells[n - 1]), [] + RowValues(cells[..n - 1]), acc, false))
      == Scan(rest, Scanner("", [], acc + Expected([cells]), false))
  {
    var n := |cells|;
    var s1 := Scanner(CellValue(cells[n - 1]), [] + RowValues(cells[..n - 1]), acc, false);
    ScanLineFeed(rest, s1);
    LastFieldCloses(cells);
    ExpectedSingle(cells);
    if !HasContent(RowValues(cells)) {
      assert acc + [] == acc;
    }
  }

  /** Closing the last field of a row gives the row's values. */
  lemma LastFieldCloses(cells: seq<Cell>)
    requires |cells| >= 1
    ensures var n := |cells|;
      [] + RowValues(cells[..n - 1]) + [Trim(CellValue(cells[n - 1]))] == RowValues(cells)
  {
    assert [] + RowValues(cells[..|cells| - 1]) == RowValues(cells[..|cells| - 1]);
    RowValuesSnoc(cells);
  }

  /** A single row denotes its values, or nothing when they are all empty. */
  lemma ExpectedSingle(cells: seq<Cell>)
    ensures Expected([cells]) == if HasContent(RowValues(cells)) then [RowValues(cells)] else []
  {
    assert [cells][1..] == [];
  }

  /** One row and its line feed: the row's values are emitted when one of them
      is non-empty. */
  lemma RowRun(acc: seq<Row>, cells: seq<Cell>, rest: string)
    requires RowOk(cells)
    ensures Scan(EncodeRow(cells) + "\n" + rest, Scanner("", [], acc, false))
         == Scan(rest, Scanner("", [], acc + Expected([cells]), false))
  {
    AppendAssoc(EncodeRow(cells), "\n", rest);
    if |cells| == 0 {
      assert EncodeRow(cells) + ("\n" + rest) == "\n" + rest;
      BlankRowRun(acc, rest);
    } else {
      FieldsRun([], acc, cells, "\n" + rest);
      LineFeedRun(acc, cells, rest);
    }
  }

  /** The written text of rows, and what the format makes of it. */
  lemma RowsSplit(acc: seq<Row>, rows: seq<seq<Cell>>, rest: string)
    requires rows != [] && RowsOk(rows)
    ensures EncodeRows(rows) + rest == EncodeRow(rows[0]) + "\n" + (EncodeRows(rows[1..]) + rest)
    ensures RowOk(rows[0]) && RowsOk(rows[1..])
    ensures acc + Expected([rows[0]]) + Expected(rows[1..]) == acc + Expected(rows)
  {
    ExpectedAppend([rows[0]], rows[1..]);
    assert [rows[0]] + rows[1..] == rows;
    AppendAssoc(acc, Expected([rows[0]]), Expected(rows[1..]));
  }

  /** Whole rows, each with its line feed. */
  lemma {:induction false} RowsRun(acc: seq<Row>, rows: seq<seq<Cell>>, rest: string)
    requires RowsOk(rows)
    ensures Scan(EncodeRows(rows) + rest, Scanner("", [], acc, false))
         == Scan(rest, Scanner("", [], acc + Expected(rows), false))
    decreases |rows|
  {
    if rows == [] {
      assert EncodeRows(rows) + rest == rest;
      assert acc + Expected(rows) == acc;
    } else {
      RowsSplit(acc, rows, rest);
      RowRun(acc, rows[0], EncodeRows(rows[1..]) + rest);
      RowsRun(acc + Expected([rows[0]]), rows[1..], rest);
    }
  }

  // ---------------------------------------------------------------------------
  // The theorems
  // ---------------------------------------------------------------------------

  /** Text written in the format, every row ended by a line feed, tokenizes to
      the trimmed field values of its rows, all-empty rows left out. */
  lemma TokenizeEncodedRows(rows: seq<seq<Cell>>)
    requires RowsOk(rows)
    ensures Tokenized(EncodeRows(rows)) == Expected(rows)
  {
    assert EncodeRows(rows) + [] == EncodeRows(rows);
    RowsRun([], rows, []);
    assert [] + Expected(rows) == Expected(rows);
  }

  /** The scanner's state at the end of rows followed by a last row without
      its line feed. */
  lemma UnterminatedScan(rows: seq<seq<Cell>>, last: seq<Cell>)
    requires RowsOk(rows) && RowOk(last) && |last| >= 1
    ensures var n := |last|;
      Scan(EncodeRows(rows) + EncodeRow(last), Start)
      == Scanner(CellValue(last[n - 1]), [] + RowValues(last[..n - 1]), [] + Expected(rows), false)
  {
    RowsRun([], rows, EncodeRow(last));
    assert EncodeRow(last) + [] == EncodeRow(last);
    FieldsRun([], [] + Expected(rows), last, []);
  }

  /** The statements after the loop keep a pending last row exactly when the
      format keeps it. */
  lemma FinishLastRow(acc: seq<Row>, last: seq<Cell>)
    requires |last| >= 1
    ensures var n := |last|;
      Finish(Scanner(CellValue(last[n - 1]), [] + RowValues(last[..n - 1]), acc, false)) == acc + Expected([last])
  {
    var n := |last|;
    var values := RowValues(last);
    RowValuesSnoc(last);
    assert [] + RowValues(last[..n - 1]) + [Trim(CellValue(last[n - 1]))] == values;
    assert Expected([last]) == if HasContent(values) then [values] else [];
    if CellValue(last[n - 1]) == "" && n == 1 {
      assert values == [Trim("")];
      assert !HasContent(values);
    }
  }

  /** The same holds when the last row has no line feed after it. */
  lemma TokenizeUnterminatedRow(rows: seq<seq<Cell>>, last: seq<Cell>)
    requires RowsOk(rows) && RowOk(last) && |last| >= 1
    ensures Tokenized(EncodeRows(rows) + EncodeRow(last)) == Expected(rows + [last])
  {
    UnterminatedScan(rows, last);
    FinishLastRow([] + Expected(rows), last);
    ExpectedAppend(rows, [last]);
    assert [] + Expected(rows) == Expected(rows);
  }

  /** An open field: the start of the field, then a quote that is never
      closed and the escaped pending content. */
  function OpenField(head: Cell, c: string): string {
    EncodeCell(head) + "\"" + Escape(c)
  }

  /** The text of rows followed by a last row whose last field is open: the
      row's earlier fields and a comma, then the open field. */
  function UnclosedText(rows: seq<seq<Cell>>, init: seq<Cell>, head: Cell, c: string): string {
    EncodeRows(rows) + (EncodeRow(init) + (if init == [] then "" else ",") + OpenField(head, c))
  }

  /** The fields of the last row before its open field, and the comma after
      them. */
  lemma OpenRowFields(acc: seq<Row>, init: seq<Cell>, rest: string)
    requires RowOk(init)
    ensures Scan(EncodeRow(init) + (if init == [] then "" else ",") + rest, Scanner("", [], acc, false))
         == Scan(rest, Scanner("", RowValues(init), acc, false))
  {
    if init == [] {
      assert EncodeRow(init) + "" + rest == rest;
      assert RowValues(init) == [];
    } else {
      var n := |init|;
      AppendAssoc(EncodeRow(init), ",", rest);
      FieldsRun([], acc, init, "," + rest);
      ScanComma(rest, Scanner(CellValue(init[n - 1]), [] + RowValues(init[..n - 1]), acc, false));
      LastFieldCloses(init);
    }
  }

  /** An open field at the end of the input leaves the scanner in quotes,
      with the field's value so far and the pending content appended. */
  lemma OpenFieldRun(head: Cell, c: string, s: Scanner)
    requires !s.quoted && CellOk(head) && (head == [] || head[|head| - 1].Plain?)
    ensures Scan(OpenField(head, c), s) == s.(field := s.field + CellValue(head) + c, quoted := true)
  {
    AppendAssoc(EncodeCell(head), "\"", Escape(c));
    OpenCellRun(head, "\"" + Escape(c), s);
    var s1 := s.(field := s.field + CellValue(head));
    assert Escape(c) + [] == Escape(c);
    ScanOpeningQuote(Escape(c), s1);
    EscapedRun(c, [], s1.(quoted := true));
  }

  /** The scanner's state at the end of such a text: still in quotes, with
      the open field's value pending. */
  lemma UnclosedScan(rows: seq<seq<Cell>>, init: seq<Cell>, head: Cell, c: string)
    requires RowsOk(rows) && RowOk(init) && CellOk(head) && (head == [] || head[|head| - 1].Plain?)
    ensures Scan(UnclosedText(rows, init, head, c), Start)
         == Scanner(CellValue(head) + c, RowValues(init), [] + Expected(rows), true)
  {
    var e := [] + Expected(rows);
    var open := OpenField(head, c);
    var lastRow := EncodeRow(init) + (if init == [] then "" else ",") + open;
    assert UnclosedText(rows, init, head, c) == EncodeRows(rows) + lastRow;
    assert Start == Scanner("", [], [], false);
    RowsRun([], rows, lastRow);
    OpenRowFields(e, init, open);
    var s := Scanner("", RowValues(init), e, false);
    OpenFieldRun(head, c, s);
    var v := CellValue(head);
    assert s.field + v == v;
    assert s.(field := s.field + v + c, quoted := true) == Scanner(v + c, RowValues(init), e, true);
  }

  /** The statements after the loop do not look at the quote flag. */
  lemma FinishIgnoresQuote(s: Scanner)
    ensures Finish(s.(quoted := true)) == Finish(s.(quoted := false))
  {
  }

  /** A quote left open at the end of the input closes there: the pending
      content, line feeds and commas included, ends the last field, after
      the row's earlier fields and after any text of that field before the
      quote. */
  lemma TokenizeUnclosedQuote(rows: seq<seq<Cell>>, init: seq<Cell>, head: Cell, c: string)
    requires RowsOk(rows) && RowOk(init) && CellOk(head) && (head == [] || head[|head| - 1].Plain?)
    ensures Tokenized(UnclosedText(rows, init, head, c)) == Expected(rows + [init + [head + [Quoted(c)]]])
  {
    var last := init + [head + [Quoted(c)]];
    var n := |last|;
    var e := [] + Expected(rows);
    UnclosedScan(rows, init, head, c);
    assert last[n - 1] == head + [Quoted(c)] && last[..n - 1] == init;
    CellValueSnoc(head, Quoted(c));
    var s := Scanner(CellValue(last[n - 1]), [] + RowValues(last[..n - 1]), e, false);
    assert s.(quoted := true) == Scanner(CellValue(head) + c, RowValues(init), e, true);
    FinishIgnoresQuote(s);
    FinishLastRow(e, last);
    ExpectedAppend(rows, [last]);
    assert e == Expected(rows);
  }

  /** The example's text in the format's terms: one earlier field `a`, then
      an open field holding `b` LF `c`. */
  lemma UnclosedExampleText(init: seq<Cell>, c: string)
    requires init == [[Plain("a")]] && c == "b\nc"
    ensures UnclosedText([], init, [], c) == "a,\"b\nc"
  {
    assert Escape(c) == c by {
      assert Escape("c") == "c";
      assert Escape("\nc") == "\nc";
    }
    assert EncodeRow(init) == "a" by {
      assert EncodeCell([Plain("a")]) == "a";
    }
    assert OpenField([], c) == "\"" + c;
  }

  /** The example's last row in the format's terms, and its values. */
  lemma UnclosedExampleRow(init: seq<Cell>, c: string)
    requires init == [[Plain("a")]] && c == "b\nc"
    ensures Expected([] + [init + [[] + [Quoted(c)]]]) == [["a", c]]
  {
    var open: Cell := [] + [Quoted(c)];
    assert open == [Quoted(c)];
    var last := init + [open];
    assert last == [[Plain("a")], [Quoted(c)]];
    assert [] + [last] == [last];
    assert CellValue(last[0]) == "a" by {
      assert DropCarriageReturns("a") == "a";
    }
    assert CellValue(last[1]) == c;
    assert Trim("a") == "a";
    assert Trim(c) == c;
    assert RowValues(last) == ["a", c];
    assert HasContent(RowValues(last)) by { assert RowValues(last)[0] != ""; }
    ExpectedSingle(last);
  }

  /** The smallest case: a row whose second field opens a quote, and the end
      of the input, give one row whose last field keeps the line feed. */
  lemma UnclosedQuoteExample(text: string)
    requires text == "a,\"b\nc"
    ensures Tokenized(text) == [["a", "b\nc"]]
  {
    var init: seq<Cell> := [[Plain("a")]];
    var c := "b\nc";
    UnclosedExampleText(init, c);
    TokenizeUnclosedQuote([], init, [], c);
    UnclosedExampleRow(init, c);
  }

  /** Quote doubling distributes over concatenation. */
  lemma {:induction false} EscapeAppend(a: string, b: string)
    ensures Escape(a + b) == Escape(a) + Escape(b)
    decreases |a|
  {
    if a == [] {
      assert a + b == b;
    } else {
      assert (a + b)[0] == a[0] && (a + b)[1..] == a[1..] + b;
      EscapeAppend(a[1..], b);
      AppendAssoc(if a[0] == '"' then "\"\"" else [a[0]], Escape(a[1..]), Escape(b));
    }
  }

  /** Text without quotes is written as it is inside quotes. */
  lemma {:induction false} EscapeNoQuote(c: string)
    requires '"' !in c
    ensures Escape(c) == c
    decreases |c|
  {
    if c != [] {
      assert c == [c[0]] + c[1..];
      EscapeNoQuote(c[1..]);
    }
  }

  /** A text that is one quoted field reads as that field's content, when the
      content is non-empty and has no whitespace at either end. */
  lemma SingleQuotedField(c: string)
    requires c != "" && IsTrimmed(c)
    ensures Tokenized("\"" + Escape(c) + "\"") == [[c]]
  {
    var cell: Cell := [Quoted(c)];
    var cells: seq<Cell> := [cell];
    assert cell[1..] == [] && cells[1..] == [];
    assert RowOk(cells) by {
      assert CellOk(cell);
    }
    assert EncodeCell(cell) == "\"" + Escape(c) + "\"";
    assert EncodeRows([]) + EncodeRow(cells) == "\"" + Escape(c) + "\"";
    TokenizeUnterminatedRow([], cells);
    assert [] + [cells] == [cells];
    assert CellValue(cell) == c;
    TrimOfTrimmed(c);
    assert RowValues(cells) == [c];
    assert HasContent(RowValues(cells)) by { assert RowValues(cells)[0] != ""; }
    ExpectedSingle(cells);
  }

  /** A short quoted field: the doubled quote reads as one quote, the line
      feed inside the quotes is kept, and the enclosing quotes are not. */
  lemma EscapedQuoteExample(text: string)
    requires text == "\"a\"\"\nb\""
    ensures Tokenized(text) == [["a\"\nb"]]
  {
    var c := "a\"\nb";
    assert text == "\"" + Escape(c) + "\"" by {
      assert Escape(c) == "a\"\"\nb";
    }
    assert IsTrimmed(c) by {
      assert c[0] == 'a' && c[|c| - 1] == 'b';
    }
    SingleQuotedField(c);
  }

  /** A quoted word inside quote-free text: both its quotes are doubled. */
  lemma EscapeQuotedWord(a: string, w: string, b: string)
    requires '"' !in a && '"' !in w && '"' !in b
    ensures Escape(a + "\"" + w + "\"" + b) == a + "\"\"" + w + "\"\"" + b
  {
    var q := "\"";
    EscapeAppend(a + q + w + q, b);
    EscapeAppend(a + q + w, q);
    EscapeAppend(a + q, w);
    EscapeAppend(a, q);
    assert Escape(q) == "\"\"" by {
      assert q[1..] == [];
    }
    EscapeNoQuote(a);
    EscapeNoQuote(w);
    EscapeNoQuote(b);
  }

  /** The pieces of the quoted-speech example. */
  lemma SpeechPieces(a: string, w: string, b: string)
    requires a == "He said " && w == "hi" && b == "\nand left"
    ensures '"' !in a && '"' !in w && '"' !in b
    ensures a + "\"" + w + "\"" + b == "He said \"hi\"\nand left"
    ensures a + "\"\"" + w + "\"\"" + b == "He said \"\"hi\"\"\nand left"
  {
  }

  /** The field `He said "hi"` LF `and left` is written
      `"He said ""hi""` LF `and left"`, and that text reads back as the one
      field, the line feed kept and each doubled quote read as one. */
  lemma QuotedSpeechExample(c: string)
    requires c == "He said \"hi\"\nand left"
    ensures Escape(c) == "He said \"\"hi\"\"\nand left"
    ensures Tokenized("\"" + Escape(c) + "\"") == [[c]]
  {
    var a, w, b := "He said ", "hi", "\nand left";
    SpeechPieces(a, w, b);
    EscapeQuotedWord(a, w, b);
    assert IsTrimmed(c) by {
      assert c[0] == 'H' && c[|c| - 1] == 't';
    }
    SingleQuotedField(c);
  }
}

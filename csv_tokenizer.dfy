/** The character scanner at the heart of `parseCSV` (csvParser.js, lines
    26-89): a two-state machine (outside or inside a quoted field) that turns
    the text into rows of trimmed fields and drops rows whose fields are all
    empty. */
module CsvTokenizer {
  import opened JsStrings

  /** One tokenized row: its fields, in column order. */
  type Row = seq<string>

  /** The scanner's variables `currentField`, `currentRow`, `rows` and
      `inQuotedField`; the index `i` travels beside it. */
  datatype Scanner = Scanner(field: string, row: Row, rows: seq<Row>, quoted: bool)

  /** The state before the first character. */
  const Start := Scanner("", [], [], false)

  /** `row.some(field => field !== '')`. */
  predicate HasContent(row: Row) {
    exists k :: 0 <= k < |row| && row[k] != ""
  }

  /** Pushes the trimmed pending field onto the row, and the row onto the
      output when it has content. */
  function CloseRow(s: Scanner): Scanner {
    var row := s.row + [Trim(s.field)];
    Scanner("", [], if HasContent(row) then s.rows + [row] else s.rows, s.quoted)
  }

  /** One turn of the `while (i < csvText.length)` loop, given the text
      still to be read (`csvText` from index `i` on): the new state and what
      is left to read. */
  function Step(rest: string, s: Scanner): (r: (Scanner, string))
    requires rest != []
    ensures r.1 == rest[1..] || (|rest| >= 2 && r.1 == rest[2..])
  {
    var c := rest[0];
    if c == '"' then
      if s.quoted then
        if |rest| > 1 && rest[1] == '"' then (s.(field := s.field + "\""), rest[2..])
        else (s.(quoted := false), rest[1..])
      else (s.(quoted := true), rest[1..])
    else if c == ',' && !s.quoted then (s.(field := "", row := s.row + [Trim(s.field)]), rest[1..])
    else if c == '\n' && !s.quoted then (CloseRow(s), rest[1..])
    else if c == '\r' && !s.quoted then (s, rest[1..])
    else (s.(field := s.field + [c]), rest[1..])
  }

  /** The state the loop ends in when `rest` is still to be read in state
      `s`. */
  function Scan(rest: string, s: Scanner): Scanner
    decreases |rest|
  {
    if rest == [] then s
    else
      var (s', rest') := Step(rest, s);
      Scan(rest', s')
  }

  /** The statements after the loop: the last field and row are kept when
      anything is pending and the row has content. */
  function Finish(s: Scanner): seq<Row> {
    if s.field != "" || |s.row| > 0 then
      var row := s.row + [Trim(s.field)];
      if HasContent(row) then s.rows + [row] else s.rows
    else s.rows
  }

  /** The rows `parseCSV` builds from `csvText`. */
  function Tokenized(text: string): seq<Row> {
    Finish(Scan(text, Start))
  }

  /** The scan loop of `parseCSV`, over the same variables as the source. */
  method Tokenize(text: string) returns (rows: seq<Row>)
    ensures rows == Tokenized(text)
  {
    rows := [];
    var currentRow: Row := [];
    var currentField := "";
    var inQuotedField := false;
    var i := 0;
    assert text[0..] == text;
    while i < |text|
      invariant 0 <= i <= |text|
      invariant Scan(text[i..], Scanner(currentField, currentRow, rows, inQuotedField)) == Scan(text, Start)
      decreases |text| - i
    {
      assert text[i..][0] == text[i] && text[i..][1..] == text[i + 1..];
      var c := text[i];
      if c == '"' {
        if inQuotedField {
          if i + 1 < |text| && text[i + 1] == '"' {
            // an escaped quote: one literal quote, both characters consumed
            assert text[i..][1] == text[i + 1] && text[i..][2..] == text[i + 2..];
            currentField := currentField + "\"";
            i := i + 2;
            continue;
          } else {
            inQuotedField := false;
          }
        } else {
          inQuotedField := true;
        }
      } else if c == ',' && !inQuotedField {
        currentRow := currentRow + [Trim(currentField)];
        currentField := "";
      } else if c == '\n' && !inQuotedField {
        currentRow := currentRow + [Trim(currentField)];
        if HasContent(currentRow) {
          rows := rows + [currentRow];
        }
        currentRow := [];
        currentField := "";
      } else if c == '\r' && !inQuotedField {
        // a carriage return outside quotes is skipped
      } else {
        currentField := currentField + [c];
      }
      i := i + 1;
    }
    if currentField != "" || |currentRow| > 0 {
      currentRow := currentRow + [Trim(currentField)];
      if HasContent(currentRow) {
        rows := rows + [currentRow];
      }
    }
  }

  // ---------------------------------------------------------------------------
  // The rules of the machine, one character at a time
  // ---------------------------------------------------------------------------

  /** Inside quotes, a doubled quote appends exactly one quote and consumes
      both characters. */
  lemma ScanEscapedQuote(rest: string, s: Scanner)
    requires s.quoted
    ensures Scan("\"\"" + rest, s) == Scan(rest, s.(field := s.field + "\""))
  {
    var t := "\"\"" + rest;
    assert t[0] == '"' && t[1] == '"' && t[2..] == rest;
  }

  /** Inside quotes, a quote not followed by another one closes the quoted
      part and is not appended. */
  lemma ScanClosingQuote(rest: string, s: Scanner)
    requires s.quoted && (rest == [] || rest[0] != '"')
    ensures Scan("\"" + rest, s) == Scan(rest, s.(quoted := false))
  {
    var t := "\"" + rest;
    assert t[0] == '"' && t[1..] == rest;
  }

  /** Inside quotes, every other character (comma, line feed and carriage
      return included) is appended as it is. */
  lemma ScanQuotedChar(c: char, rest: string, s: Scanner)
    requires s.quoted && c != '"'
    ensures Scan([c] + rest, s) == Scan(rest, s.(field := s.field + [c]))
  {
    var t := [c] + rest;
    assert t[0] == c && t[1..] == rest;
  }

  /** Outside quotes, a quote opens a quoted part wherever it stands, even in
      the middle of a field, and is not appended. */
  lemma ScanOpeningQuote(rest: string, s: Scanner)
    requires !s.quoted
    ensures Scan("\"" + rest, s) == Scan(rest, s.(quoted := true))
  {
    var t := "\"" + rest;
    assert t[0] == '"' && t[1..] == rest;
  }

  /** Outside quotes, a comma closes the trimmed field into the row. */
  lemma ScanComma(rest: string, s: Scanner)
    requires !s.quoted
    ensures Scan("," + rest, s) == Scan(rest, s.(field := "", row := s.row + [Trim(s.field)]))
  {
    var t := "," + rest;
    assert t[0] == ',' && t[1..] == rest;
  }

  /** Outside quotes, a line feed closes the field and the row; the row is
      kept only when one of its fields is non-empty. */
  lemma ScanLineFeed(rest: string, s: Scanner)
    requires !s.quoted
    ensures var row := s.row + [Trim(s.field)];
      Scan("\n" + rest, s) == Scan(rest, Scanner("", [], if HasContent(row) then s.rows + [row] else s.rows, false))
  {
    var t := "\n" + rest;
    assert t[0] == '\n' && t[1..] == rest;
  }

  /** Outside quotes, a carriage return is dropped. */
  lemma ScanCarriageReturn(rest: string, s: Scanner)
    requires !s.quoted
    ensures Scan("\r" + rest, s) == Scan(rest, s)
  {
    var t := "\r" + rest;
    assert t[0] == '\r' && t[1..] == rest;
  }

  /** Outside quotes, any other character is appended to the field. */
  lemma ScanPlainChar(c: char, rest: string, s: Scanner)
    requires !s.quoted && c != '"' && c != ',' && c != '\n' && c != '\r'
    ensures Scan([c] + rest, s) == Scan(rest, s.(field := s.field + [c]))
  {
    var t := [c] + rest;
    assert t[0] == c && t[1..] == rest;
  }

  // ---------------------------------------------------------------------------
  // What every emitted row looks like
  // ---------------------------------------------------------------------------

  /** Every field of the row is trimmed. */
  ghost predicate AllTrimmed(row: Row) {
    forall k :: 0 <= k < |row| ==> IsTrimmed(row[k])
  }

  /** An emitted row: at least one non-empty field, every field trimmed. */
  ghost predicate IsEmittedRow(row: Row) {
    HasContent(row) && AllTrimmed(row)
  }

  /** The scanner invariant behind the row shape: the pending row holds
      trimmed fields, and every row already emitted has the emitted shape. */
  ghost predicate ScannerOk(s: Scanner) {
    AllTrimmed(s.row) && forall k :: 0 <= k < |s.rows| ==> IsEmittedRow(s.rows[k])
  }

  /** One step keeps the scanner invariant. */
  lemma StepKeepsOk(rest: string, s: Scanner)
    requires rest != [] && ScannerOk(s)
    ensures ScannerOk(Step(rest, s).0)
  {
    TrimSlice(s.field);
    var row := s.row + [Trim(s.field)];
    assert AllTrimmed(row) by {
      forall k | 0 <= k < |row| ensures IsTrimmed(row[k]) {
        if k < |s.row| { assert row[k] == s.row[k]; }
      }
    }
  }

  /** The whole loop keeps the scanner invariant. */
  lemma {:induction false} ScanKeepsOk(rest: string, s: Scanner)
    requires ScannerOk(s)
    ensures ScannerOk(Scan(rest, s))
    decreases |rest|
  {
    if rest != [] {
      StepKeepsOk(rest, s);
      var (s', rest') := Step(rest, s);
      ScanKeepsOk(rest', s');
    }
  }

  /** Every row `parseCSV` keeps has at least one non-empty field, and all its
      fields are trimmed; all-empty rows, the last unterminated one included,
      are dropped. */
  lemma TokenizedRowsShape(text: string)
    ensures forall k :: 0 <= k < |Tokenized(text)| ==> IsEmittedRow(Tokenized(text)[k])
  {
    var s := Scan(text, Start);
    ScanKeepsOk(text, Start);
    TrimSlice(s.field);
    var row := s.row + [Trim(s.field)];
    assert AllTrimmed(row) by {
      forall k | 0 <= k < |row| ensures IsTrimmed(row[k]) {
        if k < |s.row| { assert row[k] == s.row[k]; }
      }
    }
  }

  /** Empty input gives no rows. */
  lemma TokenizedEmpty()
    ensures Tokenized("") == []
  {
  }

  /** The scanner only appends to the rows already emitted. */
  lemma {:induction false} ScanExtendsRows(rest: string, s: Scanner)
    ensures |s.rows| <= |Scan(rest, s).rows|
    ensures Scan(rest, s).rows[..|s.rows|] == s.rows
    decreases |rest|
  {
    if rest != [] {
      var (s', rest') := Step(rest, s);
      assert |s.rows| <= |s'.rows| && s'.rows[..|s.rows|] == s.rows;
      ScanExtendsRows(rest', s');
    }
  }

  /** Each emitted row ends at a line feed outside quotes or at the end of the
      input, so there are never more rows than line feeds plus one. */
  lemma {:induction false} ScanRowCount(rest: string, s: Scanner)
    ensures |Scan(rest, s).rows| <= |s.rows| + CountChar(rest, '\n')
    decreases |rest|
  {
    if rest != [] {
      var (s', rest') := Step(rest, s);
      ScanRowCount(rest', s');
      if rest' != rest[1..] {
        assert rest[1..][1..] == rest';
      }
    }
  }

  /** `parseCSV` never yields more rows than the text has line feeds, plus
      one. */
  lemma TokenizedRowCount(text: string)
    ensures |Tokenized(text)| <= CountChar(text, '\n') + 1
  {
    ScanRowCount(text, Start);
  }
}

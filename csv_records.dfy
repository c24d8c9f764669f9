/** The second half of `parseCSV` (csvParser.js, lines 89-153): the header
    mapper that names the columns after row 0, and the assembler that turns
    every tokenized row, row 0 included, into a string-keyed record. */
module CsvRecords {
  import opened JsStrings
  import opened CsvFields
  import opened CsvTokenizer

  // ---------------------------------------------------------------------------
  // Header mapping (csvParser.js, lines 92-107)
  // ---------------------------------------------------------------------------

  /** The marker a "price update" title cell carries in column 0. */
  const TitleMarker := "อัพเดจราคา"

  /** The names of positions 1 to 7, in order. */
  const FixedNames := ["image", "productCode", "description", "priceRange",
                       "price100_300", "price301_500", "price501_1000"]

  /** The placeholder name of an unnamed column. */
  function PlaceholderName(index: nat): string {
    "column_" + NatToString(index)
  }

  /** The name `rawHeaders.map` gives the header cell `raw` at position
      `index`: the title marker test at position 0, the fixed table at
      positions 1 to 7, otherwise the cleaned text or the placeholder. */
  function HeaderName(index: nat, raw: string): string {
    var clean := CleanField(raw);
    if index == 0 && Contains(clean, TitleMarker) then "title"
    else if index == 1 then "image"
    else if index == 2 then "productCode"
    else if index == 3 then "description"
    else if index == 4 then "priceRange"
    else if index == 5 then "price100_300"
    else if index == 6 then "price301_500"
    else if index == 7 then "price501_1000"
    else if clean != "" then clean
    else PlaceholderName(index)
  }

  /** `rawHeaders.map(...)`: one header per field of row 0. */
  function MapHeaders(raw: Row): (headers: seq<string>)
    ensures |headers| == |raw|
  {
    seq(|raw|, k requires 0 <= k < |raw| => HeaderName(k, raw[k]))
  }

  /** Positions 1 to 7 always get the fixed names. */
  lemma HeaderNameFixed(index: nat, raw: string)
    requires 1 <= index <= 7
    ensures HeaderName(index, raw) == FixedNames[index - 1]
  {
  }

  /** Position 0 is `title` exactly when its cleaned text holds the marker or
      is itself `title`. */
  lemma HeaderNameTitle(raw: string)
    ensures HeaderName(0, raw) == "title" <==> Contains(CleanField(raw), TitleMarker) || CleanField(raw) == "title"
  {
    if !Contains(CleanField(raw), TitleMarker) && CleanField(raw) == "" {
      assert |PlaceholderName(0)| > |"title"|;
    }
  }

  /** Positions from 8 on, and position 0 without the marker, are named by
      their cleaned text, or by the placeholder when that is empty. */
  lemma HeaderNameOther(index: nat, raw: string)
    requires index >= 8 || (index == 0 && !Contains(CleanField(raw), TitleMarker))
    ensures HeaderName(index, raw) == if CleanField(raw) != "" then CleanField(raw) else PlaceholderName(index)
  {
  }

  /** No header name is empty. */
  lemma HeaderNameNonEmpty(index: nat, raw: string)
    ensures HeaderName(index, raw) != ""
  {
    assert |PlaceholderName(index)| > 0;
  }

  /** Positions 1 to 7 always get the fixed names; position 0 is `title`
      exactly when its cleaned text holds the marker or is itself `title`;
      every other position, position 0 without the marker included, is named
      by its cleaned text, or by the placeholder when that is empty; no name
      is empty. */
  lemma HeaderNameRules(index: nat, raw: string)
    ensures 1 <= index <= 7 ==> HeaderName(index, raw) == FixedNames[index - 1]
    ensures index == 0 ==>
      (HeaderName(index, raw) == "title" <==> Contains(CleanField(raw), TitleMarker) || CleanField(raw) == "title")
    ensures index >= 8 || (index == 0 && !Contains(CleanField(raw), TitleMarker)) ==>
      HeaderName(index, raw) == if CleanField(raw) != "" then CleanField(raw) else PlaceholderName(index)
    ensures HeaderName(index, raw) != ""
  {
    if 1 <= index <= 7 {
      HeaderNameFixed(index, raw);
    } else if index == 0 {
      HeaderNameTitle(raw);
      if !Contains(CleanField(raw), TitleMarker) {
        HeaderNameOther(index, raw);
      }
    } else {
      HeaderNameOther(index, raw);
    }
    HeaderNameNonEmpty(index, raw);
  }

  /** The header mapping, position by position. */
  lemma MapHeadersRules(raw: Row)
    ensures forall k :: 1 <= k <= 7 && k < |raw| ==> MapHeaders(raw)[k] == FixedNames[k - 1]
    ensures |raw| > 0 ==>
      (MapHeaders(raw)[0] == "title" <==> Contains(CleanField(raw[0]), TitleMarker) || CleanField(raw[0]) == "title")
    ensures forall k :: 0 <= k < |raw| && (k >= 8 || (k == 0 && !Contains(CleanField(raw[k]), TitleMarker))) ==>
      MapHeaders(raw)[k] == (if CleanField(raw[k]) != "" then CleanField(raw[k]) else PlaceholderName(k))
    ensures forall k :: 0 <= k < |raw| ==> MapHeaders(raw)[k] != ""
  {
    forall k | 0 <= k < |raw| {
      HeaderNameRules(k, raw[k]);
    }
  }

  /** Distinct positions get distinct placeholder names. */
  lemma PlaceholderNamesDistinct(i: nat, j: nat)
    requires i != j
    ensures PlaceholderName(i) != PlaceholderName(j)
  {
    DecimalRoundTrip(i);
    DecimalRoundTrip(j);
    assert PlaceholderName(i)[7..] == NatToString(i);
    assert PlaceholderName(j)[7..] == NatToString(j);
  }

  // ---------------------------------------------------------------------------
  // Record values (csvParser.js, lines 116-134)
  // ---------------------------------------------------------------------------

  /** A record's values: a cleaned string, a price object, or the row
      number. */
  datatype Value =
    | Text(text: string)
    | Price(amount: string, shipping: string, display: string)
    | Number(n: int)

  /** `rowObject`: a string-keyed object; a later write to a key replaces
      the earlier one. */
  type Record = map<string, Value>

  /** `row[colIndex] || ''`: the field at column `j`, or `''` past the end of
      the row. */
  function RawAt(row: Row, j: nat): (raw: string)
    ensures j >= |row| ==> raw == ""
  {
    if j < |row| then row[j] else ""
  }

  /** `header.startsWith('price') && rawValue`. */
  predicate IsPriceColumn(header: string, raw: string) {
    StartsWith(header, "price") && raw != ""
  }

  /** `rawValue.replace(/\r?\n/g, '\n')`: every CRLF pair becomes a lone LF;
      everything else, a CR not followed by LF included, stays. */
  function CrLfToLf(s: string): (r: string)
    ensures |r| <= |s|
  {
    if s == [] then []
    else if s[0] == '\r' && |s| >= 2 && s[1] == '\n' then "\n" + CrLfToLf(s[2..])
    else [s[0]] + CrLfToLf(s[1..])
  }

  /** A line with one final CR removed, if it has one. */
  function DropFinalCr(line: string): (r: string)
    ensures |r| <= |line|
  {
    if line != [] && line[|line| - 1] == '\r' then line[..|line| - 1] else line
  }

  /** Every line but the last loses its final CR: the lines that a LF ends. */
  function DropLineCrs(lines: seq<string>): (r: seq<string>)
    ensures |r| == |lines|
  {
    if |lines| <= 1 then lines else [DropFinalCr(lines[0])] + DropLineCrs(lines[1..])
  }

  /** The first line of a text that does not start with `sep` is not
      empty. */
  lemma SplitFirstNonEmpty(t: string, sep: char)
    requires t != [] && t[0] != sep
    ensures Split(t, sep)[0] != ""
  {
  }

  /** The normalised lines of a text. */
  function NormalLines(s: string): string {
    Join(DropLineCrs(Split(s, '\n')), '\n')
  }

  /** A leading LF starts an empty first line. */
  lemma LinesAfterLf(s: string)
    requires s != [] && s[0] == '\n'
    ensures NormalLines(s) == "\n" + NormalLines(s[1..])
  {
    var p := Split(s[1..], '\n');
    assert Split(s, '\n') == [""] + p;
    assert DropLineCrs([""] + p) == [""] + DropLineCrs(p) by {
      assert ([""] + p)[1..] == p;
    }
    JoinCons("", DropLineCrs(p), '\n');
  }

  /** A leading CRLF starts a first line holding only the CR, which is
      dropped. */
  lemma LinesAfterCrLf(s: string)
    requires |s| >= 2 && s[0] == '\r' && s[1] == '\n'
    ensures NormalLines(s) == "\n" + NormalLines(s[2..])
  {
    var q := Split(s[2..], '\n');
    assert s[1..][1..] == s[2..];
    assert Split(s[1..], '\n') == [""] + q;
    assert Split(s, '\n') == ["\r"] + q by {
      assert ([""] + q)[0] == "" && ([""] + q)[1..] == q;
      assert [s[0]] + "" == "\r";
    }
    assert DropFinalCr("\r") == "";
    assert DropLineCrs(["\r"] + q) == [""] + DropLineCrs(q) by {
      assert (["\r"] + q)[1..] == q;
    }
    JoinCons("", DropLineCrs(q), '\n');
  }

  /** Any other first character stays at the front of the first line; it is
      dropped only as a CR that a LF follows, which is the case above. */
  lemma LinesAfterChar(s: string)
    requires s != [] && s[0] != '\n' && !(s[0] == '\r' && |s| >= 2 && s[1] == '\n')
    ensures NormalLines(s) == [s[0]] + NormalLines(s[1..])
  {
    var p := Split(s[1..], '\n');
    var first := [s[0]] + p[0];
    assert Split(s, '\n') == [first] + p[1..];
    if |p| == 1 {
      assert [first] + p[1..] == [first];
      assert DropLineCrs(p) == p;
    } else {
      var d := DropLineCrs(p[1..]);
      assert DropLineCrs([first] + p[1..]) == [DropFinalCr(first)] + d by {
        assert ([first] + p[1..])[1..] == p[1..];
      }
      assert p == [p[0]] + p[1..];
      assert DropLineCrs(p) == [DropFinalCr(p[0])] + d;
      assert p[0] == "" ==> s[0] != '\r' by {
        if s[1..] != [] && s[1] != '\n' {
          SplitFirstNonEmpty(s[1..], '\n');
        }
      }
      assert DropFinalCr(first) == [s[0]] + DropFinalCr(p[0]) by {
        if p[0] != [] {
          assert first[|first| - 1] == p[0][|p[0]| - 1];
          assert first[..|first| - 1] == [s[0]] + p[0][..|p[0]| - 1];
        }
      }
      JoinCons(DropFinalCr(first), d, '\n');
      JoinCons(DropFinalCr(p[0]), d, '\n');
      AppendAssoc([s[0]], DropFinalCr(p[0]), ['\n']);
      AppendAssoc([s[0]], DropFinalCr(p[0]) + ['\n'], Join(d, '\n'));
    }
  }

  /** CRLF normalisation, line by line: the text cut at every LF, one CR
      dropped from the end of every line a LF ends, joined again with LF.
      Every character but a CR right before a LF is kept, in order. */
  lemma {:induction false} CrLfToLfLines(s: string)
    ensures CrLfToLf(s) == NormalLines(s)
    decreases |s|
  {
    if s == [] {
      assert NormalLines(s) == "";
    } else if s[0] == '\n' {
      CrLfToLfLines(s[1..]);
      LinesAfterLf(s);
    } else if s[0] == '\r' && |s| >= 2 && s[1] == '\n' {
      CrLfToLfLines(s[2..]);
      LinesAfterCrLf(s);
    } else {
      CrLfToLfLines(s[1..]);
      LinesAfterChar(s);
    }
  }

  /** Every LF turned into a space. */
  function LfToSpace(s: string): (r: string)
    ensures |r| == |s|
  {
    if s == [] then [] else [if s[0] == '\n' then ' ' else s[0]] + LfToSpace(s[1..])
  }

  /** The description's line normalisation is the first step of `cleanField`
      with the spaces still LFs: turning its LFs into spaces gives
      exactly the `/\r?\n/g` to `' '` replacement. */
  lemma {:induction false} CrLfToLfThenSpaces(s: string)
    ensures LfToSpace(CrLfToLf(s)) == ReplaceLineBreaks(s)
  {
    if s == [] {
    } else if s[0] == '\r' && |s| >= 2 && s[1] == '\n' {
      CrLfToLfThenSpaces(s[2..]);
      var t := CrLfToLf(s[2..]);
      assert ("\n" + t)[0] == '\n' && ("\n" + t)[1..] == t;
    } else {
      CrLfToLfThenSpaces(s[1..]);
      var t := CrLfToLf(s[1..]);
      assert ([s[0]] + t)[0] == s[0] && ([s[0]] + t)[1..] == t;
    }
  }

  /** A text without LF is left as it is. */
  lemma {:induction false} CrLfToLfNoLf(s: string)
    requires '\n' !in s
    ensures CrLfToLf(s) == s
  {
    if s != [] {
      CrLfToLfNoLf(s[1..]);
      assert s == [s[0]] + s[1..];
    }
  }

  /** The price object written for a non-empty price field. */
  function PriceValue(raw: string): Value {
    var p := ParsePrice(raw);
    Price(p.amount, p.shipping, PriceDisplay(p))
  }

  /** The value written under `header` for the field `raw`: a price object
      for a `price*` header with a non-empty field, the line-normalised and
      trimmed text for `description`, the cleaned text otherwise. An empty
      field gives `''` under every header, `price*` ones included. */
  function ColumnValue(header: string, raw: string): Value {
    if IsPriceColumn(header, raw) then PriceValue(raw)
    else if header == "description" then Text(Trim(CrLfToLf(raw)))
    else Text(CleanField(raw))
  }

  /** Only a `price*` header with a non-empty field gives a price object; an
      empty field gives `''` under every header, `price*` ones included. */
  lemma ColumnValueKinds(header: string, raw: string)
    ensures ColumnValue(header, raw).Price? <==> IsPriceColumn(header, raw)
    ensures raw == "" ==> ColumnValue(header, raw) == Text("")
  {
  }

  /** The worked price example: under `price100_300`, the field
      `100` LF `+Shipping 20` becomes amount `100`, shipping `+Shipping 20`
      and display `100 (+Shipping 20)`. */
  lemma PriceColumnExample(header: string, amount: string, shipping: string)
    requires header == "price100_300" && amount == "100" && shipping == "+Shipping 20"
    ensures ColumnValue(header, amount + "\n" + shipping)
         == Price(amount, shipping, amount + " (" + shipping + ")")
  {
    PriceExample(amount, shipping);
    assert StartsWith(header, "price") by {
      assert header[..5] == "price";
    }
  }

  /** The keys one column writes: its header, and for `description` also
      `description_clean`. */
  function KeysOf(header: string): set<string> {
    if header == "description" then {header, DescriptionClean} else {header}
  }

  /** `header + '_clean'` for the `description` header. */
  const DescriptionClean := "description_clean"

  /** What one column writes: the value under its header, and the cleaned
      text a `description` column also writes under `description_clean`. */
  datatype Written = Written(value: Value, cleaned: Value)

  /** What the column `header` writes for the field `raw`. */
  function ColumnWrite(header: string, raw: string): Written {
    Written(ColumnValue(header, raw), Text(CleanField(raw)))
  }

  /** Stores what a column writes under its keys. */
  function Put(rec: Record, header: string, w: Written): Record {
    var r := rec[header := w.value];
    if header == "description" then r[DescriptionClean := w.cleaned] else r
  }

  /** What a column writing `w` leaves under `key`, one of its keys. */
  function Pick(header: string, key: string, w: Written): Value {
    if key == header then w.value else w.cleaned
  }

  /** One turn of `headers.forEach`: the column's value, and for
      `description` the cleaned variant under `description_clean`. */
  function WriteColumn(rec: Record, header: string, raw: string): Record {
    Put(rec, header, ColumnWrite(header, raw))
  }

  /** The value column `header` writes under `key`, one of its keys. */
  function WrittenValue(header: string, key: string, raw: string): Value {
    Pick(header, key, ColumnWrite(header, raw))
  }

  /** The three branches of a column write: a price object, the description
      and its cleaned variant, or the cleaned text. */
  lemma WriteColumnCases(rec: Record, header: string, raw: string)
    ensures IsPriceColumn(header, raw) ==> WriteColumn(rec, header, raw) == rec[header := PriceValue(raw)]
    ensures !IsPriceColumn(header, raw) && header == "description" ==>
      WriteColumn(rec, header, raw) == rec[header := Text(Trim(CrLfToLf(raw)))][DescriptionClean := Text(CleanField(raw))]
    ensures !IsPriceColumn(header, raw) && header != "description" ==>
      WriteColumn(rec, header, raw) == rec[header := Text(CleanField(raw))]
  {
    DescriptionIsNotPrice(raw);
  }

  /** The value a column leaves under its header is the column value, and
      under `description_clean` the cleaned text. */
  lemma WrittenValueKinds(header: string, key: string, raw: string)
    requires key in KeysOf(header)
    ensures key == header ==> WrittenValue(header, key, raw) == ColumnValue(header, raw)
    ensures key != header ==> key == DescriptionClean && WrittenValue(header, key, raw) == Text(CleanField(raw))
  {
  }

  /** A column sets each of its keys to what it writes there. */
  lemma PutHit(rec: Record, header: string, w: Written, key: string)
    requires key in KeysOf(header)
    ensures key in Put(rec, header, w)
    ensures Put(rec, header, w)[key] == Pick(header, key, w)
  {
  }

  /** A column leaves every other key as it was. */
  lemma PutMiss(rec: Record, header: string, w: Written, key: string)
    requires key !in KeysOf(header)
    ensures key in Put(rec, header, w) <==> key in rec
    ensures key in rec ==> Put(rec, header, w)[key] == rec[key]
  {
  }

  /** A column adds its keys to the record's. */
  lemma PutKeys(rec: Record, header: string, w: Written)
    ensures Put(rec, header, w).Keys == rec.Keys + KeysOf(header)
  {
  }

  /** `description` is not a `price*` header. */
  lemma DescriptionIsNotPrice(raw: string)
    ensures !IsPriceColumn("description", raw)
  {
    assert "description"[..5][0] == 'd';
  }

  /** What every column of the row writes, in header order. */
  function Writes(headers: seq<string>, row: Row): (ws: seq<Written>)
    ensures |ws| == |headers|
  {
    seq(|headers|, j requires 0 <= j < |headers| => ColumnWrite(headers[j], RawAt(row, j)))
  }

  /** The record after the first `n` columns have stored what they write. */
  function Fill(headers: seq<string>, ws: seq<Written>, n: nat): Record
    requires n <= |headers| && n <= |ws|
  {
    if n == 0 then map[]
    else Put(Fill(headers, ws, n - 1), headers[n - 1], ws[n - 1])
  }

  /** The record after the first `n` columns of the row have been written. */
  function Columns(headers: seq<string>, row: Row, n: nat): Record
    requires n <= |headers|
  {
    Fill(headers, Writes(headers, row), n)
  }

  /** The record of the row at `index`: every column written in order, then
      `rowNumber`. */
  function RecordOf(headers: seq<string>, row: Row, index: nat): Record {
    Columns(headers, row, |headers|)["rowNumber" := Number(index + 1)]
  }

  /** One more column written onto the record. */
  lemma ColumnsStep(headers: seq<string>, row: Row, n: nat)
    requires n < |headers|
    ensures Columns(headers, row, n + 1) == WriteColumn(Columns(headers, row, n), headers[n], RawAt(row, n))
  {
    assert Writes(headers, row)[n] == ColumnWrite(headers[n], RawAt(row, n));
  }

  /** The records of all tokenized rows, the header row included, numbered
      from 1 in row order. */
  function Records(rows: seq<Row>): (records: seq<Record>)
    ensures |records| == |rows|
    ensures forall k :: 0 <= k < |rows| ==> "rowNumber" in records[k] && records[k]["rowNumber"] == Number(k + 1)
  {
    if rows == [] then []
    else
      var headers := MapHeaders(rows[0]);
      seq(|rows|, k requires 0 <= k < |rows| => RecordOf(headers, rows[k], k))
  }

  /** What `parseCSV(csvText)` returns. */
  function Parsed(text: string): seq<Record> {
    Records(Tokenized(text))
  }

  // ---------------------------------------------------------------------------
  // What a record holds
  // ---------------------------------------------------------------------------

  /** The keys the first `n` columns write. */
  function WrittenKeys(headers: seq<string>, n: nat): set<string>
    requires n <= |headers|
  {
    if n == 0 then {} else WrittenKeys(headers, n - 1) + KeysOf(headers[n - 1])
  }

  /** A key is written by the first `n` columns exactly when one of them has
      it among its keys. */
  lemma {:induction false} WrittenKeysIff(headers: seq<string>, n: nat, key: string)
    requires n <= |headers|
    ensures key in WrittenKeys(headers, n) <==> exists j :: 0 <= j < n && key in KeysOf(headers[j])
  {
    if n > 0 {
      WrittenKeysIff(headers, n - 1, key);
      if key in KeysOf(headers[n - 1]) {
        assert 0 <= n - 1 < n && key in KeysOf(headers[n - 1]);
      }
      if exists j :: 0 <= j < n && key in KeysOf(headers[j]) {
        var j :| 0 <= j < n && key in KeysOf(headers[j]);
        if j < n - 1 {
          assert 0 <= j < n - 1 && key in KeysOf(headers[j]);
        }
      }
    }
  }

  /** The keys of the record after `n` columns are the keys those columns
      write, whatever they write there. */
  lemma {:induction false} FillKeys(headers: seq<string>, ws: seq<Written>, n: nat)
    requires n <= |headers| && n <= |ws|
    ensures Fill(headers, ws, n).Keys == WrittenKeys(headers, n)
  {
    if n > 0 {
      FillKeys(headers, ws, n - 1);
      PutKeys(Fill(headers, ws, n - 1), headers[n - 1], ws[n - 1]);
    }
  }

  /** The key set of a record depends on the headers alone: a short row, a
      full row and a wide row all give records with the same keys. */
  lemma RecordKeys(headers: seq<string>, row: Row, index: nat, key: string)
    ensures key in RecordOf(headers, row, index)
        <==> key == "rowNumber" || exists j :: 0 <= j < |headers| && key in KeysOf(headers[j])
  {
    FillKeys(headers, Writes(headers, row), |headers|);
    WrittenKeysIff(headers, |headers|, key);
  }

  /** The value under a key is the one stored by the last column that writes
      that key. */
  lemma {:induction false} LastWriterWins(headers: seq<string>, ws: seq<Written>, n: nat, j: nat, key: string)
    requires j < n <= |headers| && n <= |ws|
    requires key in KeysOf(headers[j])
    requires forall l :: j < l < n ==> key !in KeysOf(headers[l])
    ensures key in Fill(headers, ws, n)
    ensures Fill(headers, ws, n)[key] == Pick(headers[j], key, ws[j])
  {
    var prev := Fill(headers, ws, n - 1);
    if j < n - 1 {
      assert key !in KeysOf(headers[n - 1]);
      LastWriterWins(headers, ws, n - 1, j, key);
      PutMiss(prev, headers[n - 1], ws[n - 1], key);
    } else {
      PutHit(prev, headers[j], ws[j], key);
    }
  }

  /** In a record, every key but `rowNumber` holds what the last column
      writing it wrote; `rowNumber` always holds the position plus one, even
      when a column is named `rowNumber`. */
  lemma RecordField(headers: seq<string>, row: Row, index: nat, j: nat, key: string)
    requires j < |headers| && key in KeysOf(headers[j])
    requires forall l :: j < l < |headers| ==> key !in KeysOf(headers[l])
    ensures key in RecordOf(headers, row, index)
    ensures RecordOf(headers, row, index)[key]
         == if key == "rowNumber" then Number(index + 1) else WrittenValue(headers[j], key, RawAt(row, j))
  {
    LastWriterWins(headers, Writes(headers, row), |headers|, j, key);
    assert Writes(headers, row)[j] == ColumnWrite(headers[j], RawAt(row, j));
  }

  /** Columns read only the fields below the header count. */
  lemma ColumnsAgree(headers: seq<string>, row1: Row, row2: Row)
    requires forall j :: 0 <= j < |headers| ==> RawAt(row1, j) == RawAt(row2, j)
    ensures Writes(headers, row1) == Writes(headers, row2)
  {
    forall j | 0 <= j < |headers|
      ensures Writes(headers, row1)[j] == Writes(headers, row2)[j]
    {
      assert RawAt(row1, j) == RawAt(row2, j);
    }
  }

  /** Fields past the header count are ignored. */
  lemma WideRowTruncated(headers: seq<string>, row: Row, index: nat)
    requires |row| >= |headers|
    ensures RecordOf(headers, row, index) == RecordOf(headers, row[..|headers|], index)
  {
    ColumnsAgree(headers, row, row[..|headers|]);
  }

  /** A short row reads as if padded with empty fields up to the header
      count. */
  lemma ShortRowPadded(headers: seq<string>, row: Row, index: nat)
    requires |row| <= |headers|
    ensures RecordOf(headers, row, index)
         == RecordOf(headers, row + seq(|headers| - |row|, _ => ""), index)
  {
    var padded := row + seq(|headers| - |row|, _ => "");
    forall j | 0 <= j < |headers| ensures RawAt(row, j) == RawAt(padded, j) {
      if j < |row| {
        assert padded[j] == row[j];
      }
    }
    ColumnsAgree(headers, row, padded);
  }

  /** `parseCSV` never yields more records than the text has line feeds,
      plus one. */
  lemma ParsedCount(text: string)
    ensures |Parsed(text)| <= CountChar(text, '\n') + 1
  {
    TokenizedRowCount(text);
  }

  /** Empty input gives no records. */
  lemma ParsedEmpty()
    ensures Parsed("") == []
  {
    TokenizedEmpty();
  }

  /** Every tokenized row becomes a record with the headers of row 0, the
      header row itself included: record 0 is built from the header row and
      is numbered 1. */
  lemma ParsedRecords(text: string)
    ensures |Parsed(text)| == |Tokenized(text)|
    ensures forall k :: 0 <= k < |Tokenized(text)| ==>
      Parsed(text)[k] == RecordOf(MapHeaders(Tokenized(text)[0]), Tokenized(text)[k], k)
  {
  }

  // ---------------------------------------------------------------------------
  // The assembly loops
  // ---------------------------------------------------------------------------

  /** The callback of `headers.forEach`: the column's value is written by
      assignment under its header, by the same three branches as the source. */
  method SetColumn(rowObject: Record, header: string, rawValue: string) returns (r: Record)
    ensures r == WriteColumn(rowObject, header, rawValue)
  {
    WriteColumnCases(rowObject, header, rawValue);
    r := rowObject;
    if StartsWith(header, "price") && rawValue != "" {
      var priceData := ParsePrice(rawValue);
      r := r[header := Price(priceData.amount, priceData.shipping, PriceDisplay(priceData))];
    } else if header == "description" {
      r := r[header := Text(Trim(CrLfToLf(rawValue)))];
      assert header + "_clean" == DescriptionClean;
      r := r[header + "_clean" := Text(CleanField(rawValue))];
    } else {
      r := r[header := Text(CleanField(rawValue))];
    }
  }

  /** The callback of `rows.forEach` for the row at `index`: every column in
      order, then `rowNumber`. */
  method BuildRecord(headers: seq<string>, row: Row, index: nat) returns (rowObject: Record)
    ensures rowObject == RecordOf(headers, row, index)
  {
    rowObject := map[];
    var colIndex := 0;
    while colIndex < |headers|
      invariant 0 <= colIndex <= |headers|
      invariant rowObject == Columns(headers, row, colIndex)
    {
      ColumnsStep(headers, row, colIndex);
      rowObject := SetColumn(rowObject, headers[colIndex], RawAt(row, colIndex));
      colIndex := colIndex + 1;
    }
    rowObject := rowObject["rowNumber" := Number(index + 1)];
  }

  /** `parseCSV`: the scan, then the header mapping and one record per
      tokenized row. */
  method ParseCsv(text: string) returns (results: seq<Record>)
    ensures results == Parsed(text)
  {
    var rows := Tokenize(text);
    if |rows| == 0 {
      return [];
    }
    var headers := MapHeaders(rows[0]);
    results := [];
    var index := 0;
    while index < |rows|
      invariant 0 <= index <= |rows|
      invariant |results| == index
      invariant forall k :: 0 <= k < index ==> results[k] == RecordOf(headers, rows[k], k)
    {
      var rowObject := BuildRecord(headers, rows[index], index);
      results := results + [rowObject];
      index := index + 1;
    }
  }
}

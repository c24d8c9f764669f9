/** Field normalisation of the CSV parser (csvParser.js, lines 1-23):
    `cleanField`, which folds line breaks and whitespace runs into single
    spaces and trims, and `parsePrice`, which splits a two-line price cell
    into an amount and a shipping note. */
module CsvFields {
  import opened JsStrings

  // ---------------------------------------------------------------------------
  // cleanField
  // ---------------------------------------------------------------------------

  /** `s.replace(/\r?\n/g, ' ')`: every CRLF pair and every lone LF becomes one
      space; a CR not followed by LF stays. */
  function ReplaceLineBreaks(s: string): (r: string)
    ensures r == [] <==> s == []
    ensures r != [] ==> (IsWhitespace(r[0]) <==> IsWhitespace(s[0]))
  {
    if s == [] then []
    else if s[0] == '\r' && |s| >= 2 && s[1] == '\n' then [' '] + ReplaceLineBreaks(s[2..])
    else if s[0] == '\n' then [' '] + ReplaceLineBreaks(s[1..])
    else [s[0]] + ReplaceLineBreaks(s[1..])
  }

  /** Every whitespace character is a plain space and no two are adjacent. */
  ghost predicate IsCollapsed(s: string) {
    && (forall k :: 0 <= k < |s| && IsWhitespace(s[k]) ==> s[k] == ' ')
    && (forall j, k {:trigger s[j], s[k]} :: 0 <= j < k < |s| && k == j + 1 ==> !(IsWhitespace(s[j]) && IsWhitespace(s[k])))
  }

  /** `s.replace(/\s+/g, ' ')`: every maximal run of whitespace becomes one
      space. */
  function CollapseWhitespace(s: string): (r: string)
    ensures r == [] <==> s == []
    ensures r != [] ==> (IsWhitespace(r[0]) <==> IsWhitespace(s[0]))
    decreases |s|
  {
    if s == [] then []
    else if IsWhitespace(s[0]) then [' '] + CollapseWhitespace(TrimStart(s))
    else [s[0]] + CollapseWhitespace(s[1..])
  }

  /** `cleanField(field)`: the empty string for an empty field, otherwise the
      three-step chain of line-break replacement, whitespace collapsing and
      trimming. */
  function CleanField(field: string): string {
    if field == "" then ""
    else Trim(CollapseWhitespace(ReplaceLineBreaks(field)))
  }

  /** What `cleanField` returns: trimmed, every whitespace character a plain
      space, never two whitespace characters in a row. */
  ghost predicate IsClean(s: string) {
    IsTrimmed(s) && IsCollapsed(s)
  }

  /** A character put in front of a collapsed string keeps it collapsed when
      it is a space before a non-whitespace character, or no whitespace at
      all. */
  lemma ConsCollapsed(c: char, t: string)
    requires IsCollapsed(t)
    requires IsWhitespace(c) ==> c == ' ' && (t == [] || !IsWhitespace(t[0]))
    ensures IsCollapsed([c] + t)
  {
    var u := [c] + t;
    forall k | 0 <= k < |u| && IsWhitespace(u[k]) ensures u[k] == ' ' {
      if k > 0 { assert u[k] == t[k - 1]; }
    }
    forall j, k | 0 <= j < k < |u| && k == j + 1 ensures !(IsWhitespace(u[j]) && IsWhitespace(u[k])) {
      assert u[k] == t[k - 1];
      if j > 0 { assert u[j] == t[j - 1]; }
    }
  }

  /** The collapsing step leaves only single spaces as whitespace. */
  lemma {:induction false} CollapseWhitespaceCollapsed(s: string)
    ensures IsCollapsed(CollapseWhitespace(s))
    decreases |s|
  {
    if s != [] {
      if IsWhitespace(s[0]) {
        var t := TrimStart(s);
        assert TrimStart(s) == TrimStart(s[1..]);
        CollapseWhitespaceCollapsed(t);
        ConsCollapsed(' ', CollapseWhitespace(t));
      } else {
        CollapseWhitespaceCollapsed(s[1..]);
        ConsCollapsed(s[0], CollapseWhitespace(s[1..]));
      }
    }
  }

  /** A slice of a collapsed string is collapsed. */
  lemma CollapsedSlice(s: string, a: nat, b: nat)
    requires IsCollapsed(s) && a <= b <= |s|
    ensures IsCollapsed(s[a..b])
  {
    var t := s[a..b];
    forall j, k | 0 <= j < k < |t| && k == j + 1 ensures !(IsWhitespace(t[j]) && IsWhitespace(t[k])) {
      assert t[j] == s[a + j] && t[k] == s[a + k];
    }
  }

  /** `cleanField` returns `''` for an empty field, and otherwise a string
      with no line feed, no carriage return, no leading or trailing
      whitespace and no two consecutive whitespace characters. */
  lemma CleanFieldShape(field: string)
    ensures field == "" ==> CleanField(field) == ""
    ensures IsClean(CleanField(field))
    ensures '\n' !in CleanField(field) && '\r' !in CleanField(field)
  {
    if field != "" {
      var c := CollapseWhitespace(ReplaceLineBreaks(field));
      CollapseWhitespaceCollapsed(ReplaceLineBreaks(field));
      TrimSlice(c);
      var a := |c| - |TrimStart(c)|;
      CollapsedSlice(c, a, a + |Trim(c)|);
    }
    var r := CleanField(field);
    assert forall k :: 0 <= k < |r| && (r[k] == '\n' || r[k] == '\r') ==> IsWhitespace(r[k]);
  }

  /** The line-break step changes nothing in a string without line feeds. */
  lemma {:induction false} ReplaceLineBreaksNoLf(s: string)
    requires '\n' !in s
    ensures ReplaceLineBreaks(s) == s
  {
    if s != [] {
      ReplaceLineBreaksNoLf(s[1..]);
      assert s == [s[0]] + s[1..];
    }
  }

  /** The collapsing step changes nothing in a collapsed string. */
  lemma {:induction false} CollapseOfCollapsed(s: string)
    requires IsCollapsed(s)
    ensures CollapseWhitespace(s) == s
    decreases |s|
  {
    if s != [] {
      CollapsedSlice(s, 1, |s|);
      if IsWhitespace(s[0]) {
        assert TrimStart(s) == s[1..] by {
          assert s[1..] == [] || !IsWhitespace(s[1..][0]);
        }
      }
      CollapseOfCollapsed(s[1..]);
      assert s == [s[0]] + s[1..];
    }
  }

  /** `cleanField` is idempotent. */
  lemma CleanFieldIdempotent(field: string)
    ensures CleanField(CleanField(field)) == CleanField(field)
  {
    var c := CleanField(field);
    CleanFieldShape(field);
    if c != "" {
      assert '\n' !in c;
      ReplaceLineBreaksNoLf(c);
      CollapseOfCollapsed(c);
      TrimOfTrimmed(c);
    }
  }

  // ---------------------------------------------------------------------------
  // cleanField as a function of the words of the field
  // ---------------------------------------------------------------------------

  /** The words of `s`: its maximal runs of non-whitespace characters, in
      order. */
  function Words(s: string): (ws: seq<string>)
    ensures s != [] && !IsWhitespace(s[0]) ==> |ws| >= 1
    decreases |s|
  {
    if s == [] then []
    else
      var rest := Words(s[1..]);
      if IsWhitespace(s[0]) then rest
      else if |s| >= 2 && !IsWhitespace(s[1]) then [[s[0]] + rest[0]] + rest[1..]
      else [[s[0]]] + rest
  }

  /** Leading whitespace does not change the words. */
  lemma {:induction false} WordsTrimStart(s: string)
    ensures Words(TrimStart(s)) == Words(s)
  {
    if s != [] && IsWhitespace(s[0]) {
      WordsTrimStart(s[1..]);
    }
  }

  /** Replacing line breaks by spaces does not change the words. */
  lemma {:induction false} WordsReplaceLineBreaks(s: string)
    ensures Words(ReplaceLineBreaks(s)) == Words(s)
  {
    if s == [] {
    } else if s[0] == '\r' && |s| >= 2 && s[1] == '\n' {
      WordsReplaceLineBreaks(s[2..]);
      assert ([' '] + ReplaceLineBreaks(s[2..]))[1..] == ReplaceLineBreaks(s[2..]);
      assert s[1..][1..] == s[2..];
    } else {
      var rest := ReplaceLineBreaks(s[1..]);
      WordsReplaceLineBreaks(s[1..]);
      assert ReplaceLineBreaks(s)[1..] == rest;
    }
  }

  /** Collapsing whitespace runs does not change the words. */
  lemma {:induction false} WordsCollapse(s: string)
    ensures Words(CollapseWhitespace(s)) == Words(s)
    decreases |s|
  {
    if s == [] {
    } else if IsWhitespace(s[0]) {
      WordsCollapse(TrimStart(s));
      WordsTrimStart(s);
      assert ([' '] + CollapseWhitespace(TrimStart(s)))[1..] == CollapseWhitespace(TrimStart(s));
    } else {
      WordsCollapse(s[1..]);
      assert CollapseWhitespace(s)[1..] == CollapseWhitespace(s[1..]);
    }
  }

  /** Trimming the end commutes with a non-whitespace first character. */
  lemma {:induction false} TrimEndCons(c: char, s: string)
    requires !IsWhitespace(c)
    ensures TrimEnd([c] + s) == [c] + TrimEnd(s)
    decreases |s|
  {
    if s != [] && IsWhitespace(s[|s| - 1]) {
      TrimEndCons(c, s[..|s| - 1]);
      assert ([c] + s)[..|s|] == [c] + s[..|s| - 1];
    }
  }

  /** Trimming the end commutes with a whitespace first character when
      something non-whitespace follows. */
  lemma {:induction false} TrimEndConsWs(c: char, s: string)
    requires TrimEnd(s) != []
    ensures TrimEnd([c] + s) == [c] + TrimEnd(s)
    decreases |s|
  {
    if s != [] && IsWhitespace(s[|s| - 1]) {
      TrimEndConsWs(c, s[..|s| - 1]);
      assert ([c] + s)[..|s|] == [c] + s[..|s| - 1];
    }
  }

  /** On a collapsed string, trimming gives the words joined by single
      spaces. */
  lemma {:induction false} TrimCollapsedIsJoinedWords(s: string)
    requires IsCollapsed(s)
    ensures Trim(s) == Join(Words(s), ' ')
    decreases |s|
  {
    if s != [] {
      var x := s[1..];
      CollapsedSlice(s, 1, |s|);
      TrimCollapsedIsJoinedWords(x);
      if IsWhitespace(s[0]) {
        assert TrimStart(s) == TrimStart(x);
      } else if x == [] {
        assert Trim(s) == [s[0]];
      } else if !IsWhitespace(x[0]) {
        JoinedWordsGlued(s);
      } else {
        JoinedWordsSpaced(s);
      }
    }
  }

  /** Inductive step: a word character followed by another word character. */
  lemma JoinedWordsGlued(s: string)
    requires IsCollapsed(s) && |s| >= 2 && !IsWhitespace(s[0]) && !IsWhitespace(s[1])
    requires Trim(s[1..]) == Join(Words(s[1..]), ' ')
    ensures Trim(s) == Join(Words(s), ' ')
  {
    var x := s[1..];
    var wx := Words(x);
    assert Words(s) == [[s[0]] + wx[0]] + wx[1..];
    JoinPrependFirst(s[0], wx);
    TrimEndCons(s[0], x);
    assert TrimStart(s) == s && TrimStart(x) == x;
    assert s == [s[0]] + x;
  }

  /** Inductive step: a word character followed by the single space that
      separates it from what comes next. */
  lemma JoinedWordsSpaced(s: string)
    requires IsCollapsed(s) && |s| >= 2 && !IsWhitespace(s[0]) && IsWhitespace(s[1])
    requires Trim(s[1..]) == Join(Words(s[1..]), ' ')
    ensures Trim(s) == Join(Words(s), ' ')
  {
    var x := s[1..];
    var y := x[1..];
    SpacedShape(s);
    TrimEndCons(s[0], x);
    assert s == [s[0]] + x;
    assert Trim(s) == [s[0]] + TrimEnd(x);
    if y == [] {
      assert TrimEnd(x) == [];
    } else {
      var j := Join(Words(y), ' ');
      assert TrimEnd(y) == j;
      TrimEndConsWs(' ', y);
      JoinCons([s[0]], Words(y), ' ');
      AppendAssoc([s[0]], [' '], j);
    }
  }

  /** The shape facts the spaced step relies on: after the space comes a word
      character or nothing, and the space only ends the first word. */
  lemma SpacedShape(s: string)
    requires IsCollapsed(s) && |s| >= 2 && !IsWhitespace(s[0]) && IsWhitespace(s[1])
    ensures var x := s[1..]; var y := x[1..];
      && x == [' '] + y
      && TrimStart(x) == y && TrimStart(s) == s
      && Words(x) == Words(y)
      && Words(s) == [[s[0]]] + Words(y)
  {
    var x := s[1..];
    var y := x[1..];
    assert x[0] == s[1] == ' ';
    assert y == [] || !IsWhitespace(y[0]) by {
      if y != [] { assert y[0] == s[2]; }
    }
    assert x == [' '] + y;
  }

  /** Joining words after one character is glued to the first word. */
  lemma JoinPrependFirst(c: char, ws: seq<string>)
    requires |ws| >= 1
    ensures Join([[c] + ws[0]] + ws[1..], ' ') == [c] + Join(ws, ' ')
  {
    if |ws| == 1 {
      assert [[c] + ws[0]] + ws[1..] == [[c] + ws[0]];
    } else {
      var j := Join(ws[1..], ' ');
      JoinCons([c] + ws[0], ws[1..], ' ');
      JoinCons(ws[0], ws[1..], ' ');
      assert [ws[0]] + ws[1..] == ws;
      AppendAssoc([c] + ws[0], [' '], j);
      AppendAssoc([c], ws[0], [' '] + j);
      AppendAssoc(ws[0], [' '], j);
    }
  }

  /** `cleanField` keeps exactly the words of the field, in order, separated
      by single spaces. */
  lemma CleanFieldIsJoinedWords(field: string)
    ensures CleanField(field) == Join(Words(field), ' ')
  {
    if field != "" {
      var r := ReplaceLineBreaks(field);
      WordsReplaceLineBreaks(field);
      WordsCollapse(r);
      CollapseWhitespaceCollapsed(r);
      TrimCollapsedIsJoinedWords(CollapseWhitespace(r));
    }
  }

  // ---------------------------------------------------------------------------
  // parsePrice
  // ---------------------------------------------------------------------------

  /** The `{ amount, shipping }` object `parsePrice` returns. */
  datatype PriceParts = PriceParts(amount: string, shipping: string)

  /** `parsePrice(priceField)`: the trimmed first and second LF-separated
      lines; a one-line field has an empty shipping part. */
  function ParsePrice(field: string): PriceParts {
    if field == "" then PriceParts("", "")
    else
      var parts := Split(field, '\n');
      if |parts| >= 2 then PriceParts(Trim(parts[0]), Trim(parts[1]))
      else PriceParts(Trim(parts[0]), "")
  }

  /** The `display` string of a price cell (csvParser.js, line 125): the
      amount alone when there is no shipping note, else
      `amount (shipping)`. */
  function PriceDisplay(p: PriceParts): string {
    if p.shipping != "" then p.amount + " (" + p.shipping + ")" else p.amount
  }

  /** A field of one line is all amount. */
  lemma PriceOneLine(line: string)
    requires '\n' !in line
    ensures ParsePrice(line) == PriceParts(Trim(line), "")
  {
    if line != "" {
      SplitSeparatorFree(line, '\n');
    }
  }

  /** A field of two or more lines: the first line is the amount, the second
      the shipping note, and whatever follows the second line break is
      discarded. */
  lemma PriceTwoLines(amount: string, shipping: string, tail: string)
    requires '\n' !in amount && '\n' !in shipping
    requires tail == [] || tail[0] == '\n'
    ensures ParsePrice(amount + "\n" + shipping + tail) == PriceParts(Trim(amount), Trim(shipping))
  {
    var field := amount + "\n" + shipping + tail;
    SplitPrefix(amount, '\n', shipping + tail);
    assert field == amount + ['\n'] + (shipping + tail);
    if tail == [] {
      SplitSeparatorFree(shipping, '\n');
      assert shipping + tail == shipping;
    } else {
      SplitPrefix(shipping, '\n', tail[1..]);
      assert shipping + tail == shipping + ['\n'] + tail[1..];
    }
  }

  /** The worked example of a price cell: `100` on the first line and
      `+Shipping 20` on the second give the display `100 (+Shipping 20)`. */
  lemma PriceExample(amount: string, shipping: string)
    requires amount == "100" && shipping == "+Shipping 20"
    ensures ParsePrice(amount + "\n" + shipping) == PriceParts(amount, shipping)
    ensures PriceDisplay(ParsePrice(amount + "\n" + shipping)) == amount + " (" + shipping + ")"
  {
    TrimOfTrimmed(amount);
    TrimOfTrimmed(shipping);
    PriceTwoLines(amount, shipping, "");
    assert amount + "\n" + shipping + "" == amount + "\n" + shipping;
  }
}

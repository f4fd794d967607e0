/**
 * The field level of the CSV codec: `escapeCSVValue` on the way out, and on
 * the way in the per-row tokenizer of `parseCSV` followed by its clean-up of
 * each column (trim, strip one layer of surrounding quotes, trim again).
 */
module CsvField {
  import opened Text

  /** The field needs quoting: it holds a comma, a newline or a double quote. */
  predicate NeedsQuoting(s: string) {
    ',' in s || '\n' in s || '"' in s
  }

  /** `s` with every double quote doubled. */
  function DoubleQuotes(s: string): (r: string)
    ensures |r| >= |s|
    ensures '"' !in s ==> r == s
  {
    if |s| == 0 then ""
    else if s[0] == '"' then "\"\"" + DoubleQuotes(s[1..])
    else [s[0]] + DoubleQuotes(s[1..])
  }

  /** `escapeCSVValue`: absent values are already `""` in this model, so only
      the quoting rule remains. */
  function Escape(s: string): (r: string)
    ensures NeedsQuoting(s) ==> |r| >= 2 && r[0] == '"' && r[|r| - 1] == '"' && r[1..|r| - 1] == DoubleQuotes(s)
    ensures !NeedsQuoting(s) ==> r == s
  {
    if NeedsQuoting(s) then "\"" + DoubleQuotes(s) + "\"" else s
  }

  /** Doubling quotes adds no character other than quotes. */
  lemma DoubleQuotesAvoids(s: string, c: char)
    requires c != '"' && c !in s
    ensures c !in DoubleQuotes(s)
  {
    if |s| > 0 {
      DoubleQuotesAvoids(s[1..], c);
    }
  }

  /** Escaping adds no character other than quotes. */
  lemma EscapeAvoids(s: string, c: char)
    requires c != '"' && c !in s
    ensures c !in Escape(s)
  {
    DoubleQuotesAvoids(s, c);
  }

  // ---------------------------------------------------------------------
  // The row tokenizer of parseCSV

  /** The tokenizer loop over what is left of the row, `rest`, with the quote
      state, the field being accumulated and the fields already pushed.
      `afterBackslash` records whether the character just before `rest` was
      a backslash (the loop's look-back at `row[i - 1]`). A quote not preceded
      by a backslash either contributes one quote (a doubled quote inside a
      quoted span) or flips the quote state; a comma outside quotes ends the
      field, which is trimmed; every other character, including a
      backslash-escaped quote, is accumulated. */
  function Scan(rest: string, afterBackslash: bool, inQuotes: bool, current: string, columns: seq<string>): (r: seq<string>)
    ensures |r| > |columns|
    decreases |rest|
  {
    if |rest| == 0 then columns + [Trim(current)]
    else if rest[0] == '"' && !afterBackslash then
      if inQuotes && |rest| > 1 && rest[1] == '"' then
        Scan(rest[2..], false, inQuotes, current + ['"'], columns)
      else
        Scan(rest[1..], false, !inQuotes, current, columns)
    else if rest[0] == ',' && !inQuotes then
      Scan(rest[1..], false, inQuotes, "", columns + [Trim(current)])
    else
      Scan(rest[1..], rest[0] == '\\', inQuotes, current + [rest[0]], columns)
  }

  /** The scan keeps the fields already pushed and trims every field it
      pushes. */
  lemma {:induction false} ScanPushesTrimmed(rest: string, afterBackslash: bool, inQuotes: bool, current: string, columns: seq<string>)
    ensures var r := Scan(rest, afterBackslash, inQuotes, current, columns);
      && r[..|columns|] == columns
      && forall k :: |columns| <= k < |r| ==> Trimmed(r[k])
    decreases |rest|
  {
    if |rest| == 0 {
    } else if rest[0] == '"' && !afterBackslash {
      if inQuotes && |rest| > 1 && rest[1] == '"' {
        ScanPushesTrimmed(rest[2..], false, inQuotes, current + ['"'], columns);
      } else {
        ScanPushesTrimmed(rest[1..], false, !inQuotes, current, columns);
      }
    } else if rest[0] == ',' && !inQuotes {
      var pushed := columns + [Trim(current)];
      ScanPushesTrimmed(rest[1..], false, inQuotes, "", pushed);
      var r := Scan(rest[1..], false, inQuotes, "", pushed);
      assert r[..|columns|] == pushed[..|columns|];
      assert r[|columns|] == pushed[|columns|];
    } else {
      ScanPushesTrimmed(rest[1..], rest[0] == '\\', inQuotes, current + [rest[0]], columns);
    }
  }

  /** The trimmed columns of one row, before the quote clean-up. */
  function Tokenize(row: string): (r: seq<string>)
    ensures |r| >= 1
    ensures forall k :: 0 <= k < |r| ==> Trimmed(r[k])
  {
    ScanPushesTrimmed(row, false, false, "", []);
    Scan(row, false, false, "", [])
  }

  /** The column matches `^"(.*)"$`: it starts and ends with a quote and, as
      `.` does not match line terminators, holds none in between. */
  predicate QuoteWrapped(col: string) {
    && |col| >= 2 && col[0] == '"' && col[|col| - 1] == '"'
    && forall i :: 1 <= i < |col| - 1 ==> !IsLineTerminator(col[i])
  }

  /** The clean-up applied to every column: strip one layer of surrounding
      quotes, then trim. */
  function Clean(col: string): (r: string)
    ensures Trimmed(r)
    ensures !QuoteWrapped(col) && Trimmed(col) ==> r == col
  {
    Trim(if QuoteWrapped(col) then col[1..|col| - 1] else col)
  }

  /** The cleaned columns of one row, as `parseCSV` looks them up. */
  function RowColumns(row: string): (r: seq<string>)
    ensures |r| == |Tokenize(row)| >= 1
    ensures forall k :: 0 <= k < |r| ==> r[k] == Clean(Tokenize(row)[k])
  {
    var cols := Tokenize(row);
    seq(|cols|, k requires 0 <= k < |cols| => Clean(cols[k]))
  }

  // ---------------------------------------------------------------------
  // Encoding a row

  /** Every value escaped, in order. */
  function EscapeEach(values: seq<string>): (r: seq<string>)
    ensures |r| == |values|
    ensures forall k :: 0 <= k < |r| ==> r[k] == Escape(values[k])
  {
    if |values| == 0 then [] else [Escape(values[0])] + EscapeEach(values[1..])
  }

  /** One exported line: the escaped values joined by commas. */
  function EncodeRow(values: seq<string>): string {
    Join(EscapeEach(values), ",")
  }

  /** A value the row codec gives back unchanged: no backslash, no leading
      or trailing white space, and not itself wrapped in quotes. */
  predicate Plain(v: string) {
    && '\\' !in v
    && Trimmed(v)
    && !(|v| >= 2 && v[0] == '"' && v[|v| - 1] == '"')
  }

  /** Decoding an encoded row gives back its values, in number and order. */
  lemma RowRoundTrip(values: seq<string>)
    requires |values| >= 1
    requires forall k :: 0 <= k < |values| ==> Plain(values[k])
    ensures RowColumns(EncodeRow(values)) == values
  {
    assert Tokenize(EncodeRow(values)) == values by {
      AllPlainOf(values);
      ScanRow(values, []);
      assert [] + values == values;
    }
    forall k | 0 <= k < |values|
      ensures Clean(values[k]) == values[k]
    {
      assert !QuoteWrapped(values[k]);
    }
  }

  /** Scanning an encoded row pushes exactly its values. */
  lemma {:induction false} ScanRow(values: seq<string>, columns: seq<string>)
    requires |values| >= 1
    requires AllPlain(values)
    ensures Scan(EncodeRow(values), false, false, "", columns) == columns + values
    decreases |values|, 1
  {
    EncodeRowCons(values);
    if |values| == 1 {
      assert Plain(values[0]);
      ScanLastField(values[0], columns);
      assert values == [values[0]];
    } else {
      ScanFirstField(values, columns);
    }
  }

  /** The inductive step of `ScanRow`: the first value and its comma. */
  lemma {:induction false} ScanFirstField(values: seq<string>, columns: seq<string>)
    requires |values| >= 2
    requires AllPlain(values)
    ensures Scan(EncodeRow(values), false, false, "", columns) == columns + values
    decreases |values|, 0
  {
    var v, tail := values[0], EncodeRow(values[1..]);
    assert EncodeRow(values) == Escape(v) + ("," + tail) by {
      EncodeRowCons(values);
    }
    ScanFieldComma(v, tail, columns);
    assert Scan(tail, false, false, "", columns + [v]) == columns + values by {
      ScanRow(values[1..], columns + [v]);
      ConsAppend(columns, values);
    }
  }

  /** A value followed by a comma is pushed, and the scan goes on after the
      comma with an empty field. */
  lemma ScanFieldComma(v: string, tail: string, columns: seq<string>)
    requires Plain(v)
    ensures Scan(Escape(v) + ("," + tail), false, false, "", columns) == Scan(tail, false, false, "", columns + [v])
  {
    assert ("," + tail)[0] == ',';
    ScanField(v, "," + tail, columns);
    CommaStep(tail, v, columns);
    PlainIsTrimmed(v);
  }

  lemma ConsAppend<T>(prefix: seq<T>, s: seq<T>)
    requires |s| >= 1
    ensures prefix + [s[0]] + s[1..] == prefix + s
  {
    assert [s[0]] + s[1..] == s;
  }

  lemma PlainIsTrimmed(v: string)
    requires Plain(v)
    ensures Trim(v) == v
  {
  }

  /** Every value is `Plain`, stated first-and-rest for the inductive proofs. */
  predicate AllPlain(values: seq<string>) {
    |values| == 0 || (Plain(values[0]) && AllPlain(values[1..]))
  }

  lemma {:induction false} AllPlainOf(values: seq<string>)
    requires forall k :: 0 <= k < |values| ==> Plain(values[k])
    ensures AllPlain(values)
    decreases |values|
  {
    if |values| > 0 {
      forall k | 0 <= k < |values[1..]|
        ensures Plain(values[1..][k])
      {
        assert values[1..][k] == values[k + 1];
      }
      AllPlainOf(values[1..]);
    }
  }

  /** The last value of a row ends the scan with the value pushed. */
  lemma ScanLastField(v: string, columns: seq<string>)
    requires '\\' !in v && Trimmed(v)
    ensures Scan(Escape(v), false, false, "", columns) == columns + [v]
  {
    assert Escape(v) + "" == Escape(v);
    ScanField(v, "", columns);
  }

  /** An encoded row is its first escaped value, then a comma and the rest. */
  lemma EncodeRowCons(values: seq<string>)
    requires |values| >= 1
    ensures |values| == 1 ==> EncodeRow(values) == Escape(values[0])
    ensures |values| > 1 ==> EncodeRow(values) == Escape(values[0]) + "," + EncodeRow(values[1..])
  {
    var tail := EscapeEach(values[1..]);
    assert EscapeEach(values) == [Escape(values[0])] + tail;
    assert ([Escape(values[0])] + tail)[1..] == tail;
  }

  /** Scanning one escaped value from outside quotes accumulates the value
      and ends outside quotes, at the following comma or the end. */
  lemma ScanField(v: string, t: string, columns: seq<string>)
    requires '\\' !in v
    requires |t| == 0 || t[0] == ','
    ensures Scan(Escape(v) + t, false, false, "", columns) == Scan(t, false, false, v, columns)
  {
    if NeedsQuoting(v) {
      ScanQuotedField(v, t, columns);
    } else {
      ScanPlain(v, t, "", columns);
      assert "" + v == v;
    }
  }

  /** The quoted case of `ScanField`: open quote, doubled-quote body, close
      quote. */
  lemma ScanQuotedField(v: string, t: string, columns: seq<string>)
    requires '\\' !in v && NeedsQuoting(v)
    requires |t| == 0 || t[0] == ','
    ensures Scan(Escape(v) + t, false, false, "", columns) == Scan(t, false, false, v, columns)
  {
    var close := "\"" + t;
    var afterOpen := DoubleQuotes(v) + close;
    assert Escape(v) + t == "\"" + afterOpen;
    OpenQuoteStep(afterOpen, "", columns);
    ScanQuotedBody(v, close, "", columns);
    assert "" + v == v;
    CloseQuoteStep(t, v, columns);
  }

  lemma OpenQuoteStep(rest: string, current: string, columns: seq<string>)
    ensures Scan("\"" + rest, false, false, current, columns) == Scan(rest, false, true, current, columns)
  {
    assert ("\"" + rest)[1..] == rest;
  }

  lemma CloseQuoteStep(rest: string, current: string, columns: seq<string>)
    requires |rest| == 0 || rest[0] != '"'
    ensures Scan("\"" + rest, false, true, current, columns) == Scan(rest, false, false, current, columns)
  {
    assert ("\"" + rest)[1..] == rest;
  }

  lemma QuotePairStep(rest: string, current: string, columns: seq<string>)
    ensures Scan("\"\"" + rest, false, true, current, columns) == Scan(rest, false, true, current + ['"'], columns)
  {
    assert ("\"\"" + rest)[2..] == rest;
  }

  lemma CommaStep(rest: string, current: string, columns: seq<string>)
    ensures Scan("," + rest, false, false, current, columns) == Scan(rest, false, false, "", columns + [Trim(current)])
  {
    assert ("," + rest)[1..] == rest;
  }

  lemma CharStep(c: char, rest: string, inQuotes: bool, current: string, columns: seq<string>)
    requires c != '"' && c != '\\' && (inQuotes || c != ',')
    ensures Scan([c] + rest, false, inQuotes, current, columns) == Scan(rest, false, inQuotes, current + [c], columns)
  {
    assert ([c] + rest)[1..] == rest;
  }

  /** Inside quotes, the doubled-quote image of `w` contributes exactly `w`,
      provided a quote follows it. */
  lemma {:induction false} ScanQuotedBody(w: string, t: string, current: string, columns: seq<string>)
    requires '\\' !in w
    requires |t| > 0 && t[0] == '"'
    ensures Scan(DoubleQuotes(w) + t, false, true, current, columns) == Scan(t, false, true, current + w, columns)
    decreases |w|, 1
  {
    if |w| == 0 {
      QuotedBodyEmpty(w, t, current, columns);
    } else {
      QuotedBodyFirst(w, t, current, columns);
    }
  }

  /** The inductive step of `ScanQuotedBody`: the first character of `w`, or
      its doubled image, then the rest. */
  lemma {:induction false} QuotedBodyFirst(w: string, t: string, current: string, columns: seq<string>)
    requires |w| > 0 && '\\' !in w
    requires |t| > 0 && t[0] == '"'
    ensures Scan(DoubleQuotes(w) + t, false, true, current, columns) == Scan(t, false, true, current + w, columns)
    decreases |w|, 0
  {
    assert w[0] in w;
    NoneInTail(w, '\\');
    QuotedFirstChar(w, t, current, columns);
    ScanQuotedBody(w[1..], t, current + [w[0]], columns);
    assert current + [w[0]] + w[1..] == current + w;
  }

  /** Inside quotes, the image of the first character of `w` adds that
      character. */
  lemma QuotedFirstChar(w: string, t: string, current: string, columns: seq<string>)
    requires |w| > 0 && w[0] != '\\'
    ensures Scan(DoubleQuotes(w) + t, false, true, current, columns)
      == Scan(DoubleQuotes(w[1..]) + t, false, true, current + [w[0]], columns)
  {
    var rest := DoubleQuotes(w[1..]) + t;
    if w[0] == '"' {
      assert DoubleQuotes(w) == "\"\"" + DoubleQuotes(w[1..]);
      QuotedFirstQuote(DoubleQuotes(w[1..]), t, current, columns);
    } else {
      assert DoubleQuotes(w) == [w[0]] + DoubleQuotes(w[1..]);
      QuotedFirstOther(w[0], DoubleQuotes(w[1..]), t, current, columns);
    }
  }

  lemma QuotedFirstQuote(d: string, t: string, current: string, columns: seq<string>)
    ensures Scan("\"\"" + d + t, false, true, current, columns) == Scan(d + t, false, true, current + ['"'], columns)
  {
    assert "\"\"" + d + t == "\"\"" + (d + t);
    QuotePairStep(d + t, current, columns);
  }

  lemma QuotedFirstOther(c: char, d: string, t: string, current: string, columns: seq<string>)
    requires c != '"' && c != '\\'
    ensures Scan([c] + d + t, false, true, current, columns) == Scan(d + t, false, true, current + [c], columns)
  {
    assert [c] + d + t == [c] + (d + t);
    CharStep(c, d + t, true, current, columns);
  }

  lemma QuotedBodyEmpty(w: string, t: string, current: string, columns: seq<string>)
    requires |w| == 0
    ensures Scan(DoubleQuotes(w) + t, false, true, current, columns) == Scan(t, false, true, current + w, columns)
  {
    assert DoubleQuotes(w) + t == t;
    assert current + w == current;
  }

  lemma NoneInTail(w: string, c: char)
    requires |w| > 0 && c !in w
    ensures c !in w[1..]
  {
    forall k | 0 <= k < |w[1..]| ensures w[1..][k] != c {
      assert w[1..][k] == w[k + 1];
    }
  }

  /** Outside quotes, a value without quotes, commas or backslashes is
      accumulated as is. */
  lemma {:induction false} ScanPlain(v: string, t: string, current: string, columns: seq<string>)
    requires '"' !in v && ',' !in v && '\\' !in v
    ensures Scan(v + t, false, false, current, columns) == Scan(t, false, false, current + v, columns)
    decreases |v|
  {
    if |v| == 0 {
      PlainEmpty(v, t, current, columns);
    } else {
      assert v[0] in v;
      NoneInTail(v, '"');
      NoneInTail(v, ',');
      NoneInTail(v, '\\');
      assert v + t == [v[0]] + (v[1..] + t);
      CharStep(v[0], v[1..] + t, false, current, columns);
      ScanPlain(v[1..], t, current + [v[0]], columns);
      assert current + [v[0]] + v[1..] == current + v;
    }
  }

  lemma PlainEmpty(v: string, t: string, current: string, columns: seq<string>)
    requires |v| == 0
    ensures Scan(v + t, false, false, current, columns) == Scan(t, false, false, current + v, columns)
  {
    assert v + t == t;
    assert current + v == current;
  }

  // ---------------------------------------------------------------------
  // Where the codec does not round-trip

  /** The rows of a file are cut at every newline before the tokenizer runs,
      so a quoted field holding a newline is split across two lines. */
  lemma NewlineSplitsQuotedField()
    ensures Escape("a\nb") == "\"a\nb\""
    ensures Split(Escape("a\nb"), '\n') == ["\"a", "b\""]
  {
    assert NeedsQuoting("a\nb");
    assert DoubleQuotes("a\nb") == "a\nb" by {
      assert '"' !in "a\nb";
    }
    assert Join(["\"a", "b\""], "\n") == "\"a\nb\"";
    SplitJoin(["\"a", "b\""], '\n');
  }

  /** A value wrapped in quotes loses them: the clean-up strips one layer,
      and trims what was inside. */
  lemma WrappedValueLosesQuotes(w: string)
    requires '\\' !in w
    requires forall i :: 0 <= i < |w| ==> !IsLineTerminator(w[i])
    ensures RowColumns(EncodeRow(["\"" + w + "\""])) == [Trim(w)]
  {
    var v := "\"" + w + "\"";
    assert v[0] in v;
    assert '\\' !in v;
    EncodeRowCons([v]);
    ScanLastField(v, []);
    assert Tokenize(EncodeRow([v])) == [Trim(v)] == [v];
    assert QuoteWrapped(v) by {
      forall i | 1 <= i < |v| - 1 ensures !IsLineTerminator(v[i]) {
        assert v[i] == w[i - 1];
      }
    }
    assert v[1..|v| - 1] == w;
  }
}

/**
 * `parseCSV`: the file is cut into non-empty lines, the first line names the
 * columns, and every further line becomes a record unless it lacks a title or
 * a valid viewing date. The two structural failures are reported as errors.
 */
module CsvDecode {
  import opened Wrappers
  import opened Text
  import opened Movies
  import opened CsvField
  import opened CsvColumns

  /** Why a file was refused as a whole. */
  datatype CsvError =
    | TooFewRows
    | MissingColumns(names: seq<string>)

  /** The text of the error the import reports. */
  function Message(e: CsvError): string {
    match e
    case TooFewRows => "CSV 文件至少需要包含表头和一行数据。"
    case MissingColumns(names) => "CSV文件缺少必要的列：" + Join(names, ", ")
  }

  // ---------------------------------------------------------------------
  // Lines and header

  /** `filter(Boolean)` on strings: the non-empty ones, in order. */
  function NonEmpty(parts: seq<string>): (r: seq<string>)
    ensures |r| <= |parts|
    ensures forall x :: x in r <==> x in parts && |x| > 0
  {
    if |parts| == 0 then []
    else (if |parts[0]| > 0 then [parts[0]] else []) + NonEmpty(parts[1..])
  }

  /** The filter keeps the order of the lines: filtering a concatenation
      filters each part, so the first non-empty line stays first. */
  lemma {:induction false} NonEmptyAppend(a: seq<string>, b: seq<string>)
    ensures NonEmpty(a + b) == NonEmpty(a) + NonEmpty(b)
  {
    if |a| == 0 {
      assert a + b == b;
    } else {
      assert (a + b)[0] == a[0];
      assert (a + b)[1..] == a[1..] + b;
      NonEmptyAppend(a[1..], b);
    }
  }

  /** Filtering a list with no empty entry keeps it as it is. */
  lemma {:induction false} NonEmptyOfNonEmpty(parts: seq<string>)
    requires forall i :: 0 <= i < |parts| ==> |parts[i]| > 0
    ensures NonEmpty(parts) == parts
  {
    if |parts| > 0 {
      NonEmptyOfNonEmpty(parts[1..]);
      assert [parts[0]] + parts[1..] == parts;
    }
  }

  /** The lines of the file that take part in parsing. */
  function Lines(text: string): seq<string> {
    NonEmpty(Split(text, '\n'))
  }

  /** Lines without newlines, none empty, joined by newlines are read back
      as they are. */
  lemma LinesOfJoin(lines: seq<string>)
    requires |lines| >= 1
    requires forall k :: 0 <= k < |lines| ==> '\n' !in lines[k] && |lines[k]| > 0
    ensures Lines(Join(lines, "\n")) == lines
  {
    assert Split(Join(lines, ['\n']), '\n') == lines by {
      SplitJoin(lines, '\n');
    }
    NonEmptyOfNonEmpty(lines);
  }

  /** A header cell: trimmed, then one leading and one trailing double quote
      removed (`/^"|"$/g`; a lone quote is removed once). */
  function HeaderName(h: string): (r: string)
    ensures |r| <= |h|
    ensures Trimmed(h) && '"' !in h ==> r == h
    ensures '"' !in Trim(h) ==> r == Trim(h)
    ensures var t := Trim(h);
      |t| >= 2 && t[0] == '"' && t[|t| - 1] == '"' ==> r == t[1..|t| - 1]
  {
    var t := Trim(h);
    var a := if |t| > 0 && t[0] == '"' then t[1..] else t;
    if |a| > 0 && a[|a| - 1] == '"' then a[..|a| - 1] else a
  }

  /** The column names of a header line, split on every comma. */
  function HeaderNames(line: string): (r: seq<string>)
    ensures |r| == |Split(line, ',')|
    ensures forall k :: 0 <= k < |r| ==> r[k] == HeaderName(Split(line, ',')[k])
  {
    var cells := Split(line, ',');
    seq(|cells|, k requires 0 <= k < |cells| => HeaderName(cells[k]))
  }

  /** The required columns absent from the header, in the order they are
      reported. */
  function MissingRequired(headers: seq<string>): (r: seq<string>)
    ensures forall x :: x in r <==> x in RequiredColumns && x !in headers
    ensures |r| == 2 ==> r == RequiredColumns
    ensures |r| <= 2
  {
    (if TitleColumn in headers then [] else [TitleColumn])
      + (if DateColumn in headers then [] else [DateColumn])
  }

  // ---------------------------------------------------------------------
  // Looking a value up by column name

  /** The position `Object.fromEntries` ends up giving a name: its last
      occurrence in the header. */
  function LastIndexOf(headers: seq<string>, name: string): (r: Option<nat>)
    ensures r.None? <==> name !in headers
    ensures r.Some? ==> r.value < |headers| && headers[r.value] == name
    ensures r.Some? ==> forall j :: r.value < j < |headers| ==> headers[j] != name
  {
    if |headers| == 0 then None
    else if headers[|headers| - 1] == name then Some(|headers| - 1)
    else
      var r := LastIndexOf(headers[..|headers| - 1], name);
      assert name in headers[..|headers| - 1] ==> name in headers;
      assert name in headers ==> name in headers[..|headers| - 1] by {
        if name in headers {
          var i :| 0 <= i < |headers| && headers[i] == name;
          assert headers[..|headers| - 1][i] == name;
        }
      }
      r
  }

  /** `getColumnValue`: the cell under the named column, or `""` when the
      column is absent or the row is too short. */
  function ColumnValue(headers: seq<string>, columns: seq<string>, name: string): (r: string)
    ensures name !in headers ==> r == ""
    ensures forall i ::
      (0 <= i < |headers| && i < |columns| && headers[i] == name &&
       (forall j :: i < j < |headers| ==> headers[j] != name)) ==> r == columns[i]
    ensures LastIndexOf(headers, name).Some? && LastIndexOf(headers, name).value >= |columns| ==> r == ""
  {
    match LastIndexOf(headers, name)
    case Some(i) => if i < |columns| then columns[i] else ""
    case None => ""
  }

  /** The year column: the integer of its first four characters when they
      are all decimal digits (`/^\d{4}/`), else absent. */
  function LeadingYear(s: string): (r: int)
    ensures 0 <= r <= 9999
    ensures r != 0 ==> |s| >= 4 && AllDigits(s[..4])
    ensures |s| >= 4 && AllDigits(s[..4]) ==> r == RadixValue(s[..4], 10)
  {
    if |s| >= 4 && AllDigits(s[..4]) then
      DigitsBound(s[..4]);
      assert Pow10(4) == 10000;
      RadixValue(s[..4], 10)
    else 0
  }

  /** A four-digit year is read back from its numeral, whatever follows it
      (a full date such as `2010-07-16`, or a suffix). */
  lemma LeadingYearOfNumeral(n: nat, rest: string)
    requires 1000 <= n <= 9999
    ensures LeadingYear(NatToString(n) + rest) == n
  {
    var s := NatToString(n);
    FourDigitNumeral(n);
    assert (s + rest)[..4] == s;
  }

  // ---------------------------------------------------------------------
  // Rows

  /** The cell of a data row under the named column. */
  function Cell(headers: seq<string>, row: string, name: string): string {
    ColumnValue(headers, RowColumns(row), name)
  }

  /** A record the import accepts: titled, with a valid viewing date. */
  predicate Importable(m: Movie, env: Env) {
    m.title != "" && m.ratingDate != "" && env.dateOf(m.ratingDate).Some?
  }

  /** One data row as a record, or `None` when it is dropped: a missing title,
      a missing viewing date or one that is not a valid date. The `k`-th data
      row gets the `k`-th fresh id and the import's timestamp. */
  function DecodeRow(headers: seq<string>, row: string, k: nat, env: Env): (r: Option<Movie>)
    ensures r.None? <==>
      || Cell(headers, row, TitleColumn) == ""
      || Cell(headers, row, DateColumn) == ""
      || env.dateOf(Cell(headers, row, DateColumn)).None?
    ensures r.Some? ==> Importable(r.value, env)
    ensures r.Some? ==>
      (r.value.title == Cell(headers, row, TitleColumn) && r.value.ratingDate == Cell(headers, row, DateColumn))
    ensures r.Some? ==> r.value.id == env.freshId(k) && r.value.createdAt == env.now && r.value.updatedAt == ""
    ensures r.Some? ==>
      && r.value.rating == env.parseRating(Cell(headers, row, RatingColumn))
      && r.value.review == Cell(headers, row, ReviewColumn)
      && r.value.year == LeadingYear(Cell(headers, row, YearColumn))
      && r.value.country == Cell(headers, row, CountryColumn)
      && r.value.link == Cell(headers, row, LinkColumn)
      && r.value.director == Cell(headers, row, DirectorColumn)
      && r.value.coverUrl == Cell(headers, row, PosterColumn)
  {
    var cols := RowColumns(row);
    var title := ColumnValue(headers, cols, TitleColumn);
    var date := ColumnValue(headers, cols, DateColumn);
    if title == "" || date == "" || env.dateOf(date).None? then None
    else
      Some(Movie(
        id := env.freshId(k),
        title := title,
        rating := env.parseRating(ColumnValue(headers, cols, RatingColumn)),
        ratingDate := date,
        review := ColumnValue(headers, cols, ReviewColumn),
        year := LeadingYear(ColumnValue(headers, cols, YearColumn)),
        country := ColumnValue(headers, cols, CountryColumn),
        link := ColumnValue(headers, cols, LinkColumn),
        director := ColumnValue(headers, cols, DirectorColumn),
        coverUrl := ColumnValue(headers, cols, PosterColumn),
        createdAt := env.now,
        updatedAt := ""))
  }

  /** `map` with the row number, then `filter(Boolean)`: the present results
      of `f` on the entries, numbered from `k`, in order. */
  function Kept<T, U>(xs: seq<T>, k: nat, f: (T, nat) -> Option<U>): (r: seq<U>)
    ensures |r| <= |xs|
    decreases |xs|
  {
    if |xs| == 0 then [] else Present(f(xs[0], k)) + Kept(xs[1..], k + 1, f)
  }

  /** A present result as a one-entry list, an absent one as the empty list. */
  function Present<U>(o: Option<U>): (r: seq<U>)
    ensures o.None? ==> r == []
    ensures o.Some? ==> r == [o.value]
  {
    match o
    case Some(u) => [u]
    case None => []
  }

  /** `Kept` keeps the order: the results for two runs of entries are those of
      the first run followed by those of the second. */
  lemma {:induction false} KeptAppend<T, U>(a: seq<T>, b: seq<T>, k: nat, f: (T, nat) -> Option<U>)
    ensures Kept(a + b, k, f) == Kept(a, k, f) + Kept(b, k + |a|, f)
    decreases |a|
  {
    if |a| == 0 {
      assert a + b == b;
    } else {
      var head := Present(f(a[0], k));
      assert (a + b)[0] == a[0];
      assert (a + b)[1..] == a[1..] + b;
      KeptAppend(a[1..], b, k + 1, f);
      calc {
        Kept(a + b, k, f);
        head + Kept(a[1..] + b, k + 1, f);
        head + (Kept(a[1..], k + 1, f) + Kept(b, k + |a|, f));
        (head + Kept(a[1..], k + 1, f)) + Kept(b, k + |a|, f);
        Kept(a, k, f) + Kept(b, k + |a|, f);
      }
    }
  }

  /** Every kept result is the result for one of the entries, numbered by its
      position. */
  lemma {:induction false} KeptOrigin<T, U>(xs: seq<T>, k: nat, f: (T, nat) -> Option<U>, u: U)
    requires u in Kept(xs, k, f)
    ensures exists j :: 0 <= j < |xs| && f(xs[j], k + j) == Some(u)
    decreases |xs|
  {
    if f(xs[0], k) == Some(u) {
      assert f(xs[0], k + 0) == Some(u);
    } else {
      KeptOrigin(xs[1..], k + 1, f, u);
      var j :| 0 <= j < |xs[1..]| && f(xs[1..][j], k + 1 + j) == Some(u);
      assert xs[1..][j] == xs[j + 1];
    }
  }

  /** When every entry has a result, all of them are kept, position by
      position. */
  lemma {:induction false} KeptAll<T, U>(xs: seq<T>, k: nat, f: (T, nat) -> Option<U>)
    requires forall j :: 0 <= j < |xs| ==> f(xs[j], k + j).Some?
    ensures |Kept(xs, k, f)| == |xs|
    ensures forall j :: 0 <= j < |xs| ==> Some(Kept(xs, k, f)[j]) == f(xs[j], k + j)
    decreases |xs|
  {
    if |xs| > 0 {
      forall j | 0 <= j < |xs[1..]| ensures f(xs[1..][j], k + 1 + j).Some? {
        assert xs[1..][j] == xs[j + 1];
      }
      KeptAll(xs[1..], k + 1, f);
      assert f(xs[0], k + 0).Some?;
      var r := Kept(xs, k, f);
      forall j | 0 <= j < |xs| ensures Some(r[j]) == f(xs[j], k + j) {
        if j > 0 {
          assert r[j] == Kept(xs[1..], k + 1, f)[j - 1];
          assert xs[1..][j - 1] == xs[j];
        }
      }
    }
  }

  /** The records of the data rows, numbered from `k`, dropped rows left out. */
  function DecodeRows(headers: seq<string>, rows: seq<string>, k: nat, env: Env): (r: seq<Movie>)
    ensures |r| <= |rows|
  {
    Kept(rows, k, RowDecoder(headers, env))
  }

  /** `DecodeRow` under a fixed header, as the function `Kept` applies. */
  function RowDecoder(headers: seq<string>, env: Env): (string, nat) -> Option<Movie> {
    (row: string, j: nat) => DecodeRow(headers, row, j, env)
  }

  /** When every row decodes, the records are the rows' records in order. */
  lemma DecodeRowsAll(headers: seq<string>, rows: seq<string>, k: nat, env: Env, ms: seq<Movie>)
    requires |ms| == |rows|
    requires forall j :: 0 <= j < |rows| ==> DecodeRow(headers, rows[j], k + j, env) == Some(ms[j])
    ensures DecodeRows(headers, rows, k, env) == ms
  {
    var f := RowDecoder(headers, env);
    forall j | 0 <= j < |rows| ensures f(rows[j], k + j) == Some(ms[j]) {
    }
    KeptAll(rows, k, f);
    var r := Kept(rows, k, f);
    forall j | 0 <= j < |rows| ensures r[j] == ms[j] {
      assert Some(r[j]) == f(rows[j], k + j);
    }
  }

  /** Every decoded record comes from one of the rows, in which it is titled
      and has a valid viewing date. */
  lemma DecodedOrigin(headers: seq<string>, rows: seq<string>, k: nat, env: Env, m: Movie)
    requires m in DecodeRows(headers, rows, k, env)
    ensures exists j :: 0 <= j < |rows| && DecodeRow(headers, rows[j], k + j, env) == Some(m)
    ensures Importable(m, env)
  {
    var f := RowDecoder(headers, env);
    KeptOrigin(rows, k, f, m);
    var j :| 0 <= j < |rows| && f(rows[j], k + j) == Some(m);
    var d := DecodeRow(headers, rows[j], k + j, env);
    assert d == Some(m);
  }

  // ---------------------------------------------------------------------
  // The whole file

  /** `parseCSV`. */
  function ParseCsv(text: string, env: Env): (r: Result<seq<Movie>, CsvError>)
    ensures r == Failure(TooFewRows) <==> |Lines(text)| < 2
    ensures |Lines(text)| >= 2 ==>
      (r.Failure? <==> exists name :: name in RequiredColumns && name !in HeaderNames(Lines(text)[0]))
    ensures r.Failure? && r.error.MissingColumns? ==>
      r.error.names == MissingRequired(HeaderNames(Lines(text)[0])) && |r.error.names| > 0
    ensures r.Success? ==> |r.value| <= |Lines(text)| - 1
  {
    var lines := Lines(text);
    if |lines| < 2 then Failure(TooFewRows)
    else
      var headers := HeaderNames(lines[0]);
      var missing := MissingRequired(headers);
      if |missing| > 0 then
        assert missing[0] in RequiredColumns && missing[0] !in headers;
        Failure(MissingColumns(missing))
      else
        assert TitleColumn !in missing && DateColumn !in missing;
        Success(DecodeRows(headers, lines[1..], 0, env))
  }

  /** A file with a header and rows, the required columns present, decodes
      its rows under its header. */
  lemma ParseCsvRows(text: string, env: Env)
    requires |Lines(text)| >= 2
    requires MissingRequired(HeaderNames(Lines(text)[0])) == []
    ensures ParseCsv(text, env) == Success(DecodeRows(HeaderNames(Lines(text)[0]), Lines(text)[1..], 0, env))
  {
  }

  /** The message for a header missing both required columns names both, in
      order. */
  lemma MissingBothMessage()
    ensures Message(MissingColumns(MissingRequired([]))) == "CSV文件缺少必要的列：电影/电视剧/番组, 观影日期"
  {
    assert MissingRequired([]) == [TitleColumn, DateColumn];
  }
}

/**
 * What survives an export followed by an import of the exported text: every
 * record comes back, in export order, with the values of all its columns,
 * except the three the import assigns itself (id, creation time, last
 * modification) and the rating, which is re-read through `parseFloat`.
 */
module CsvRoundTrip {
  import opened Wrappers
  import opened Text
  import opened Movies
  import opened CsvField
  import opened CsvColumns
  import opened CsvDecode
  import opened CsvExport

  /** A cell the line and row codecs give back unchanged. */
  predicate SafeCell(v: string) {
    Plain(v) && '\n' !in v
  }

  /** Every cell of a list is safe. */
  predicate AllSafe(cells: seq<string>) {
    |cells| == 0 || (SafeCell(cells[0]) && AllSafe(cells[1..]))
  }

  /** A record whose export is read back faithfully: it is importable, its
      year is absent or has four digits, and every cell is safe. */
  predicate Exportable(m: Movie, env: Env) {
    && Importable(m, env)
    && (m.year == 0 || 1000 <= m.year <= 9999)
    && AllSafe(RowCells(m))
  }

  /** The cells of a safe list, one by one. */
  lemma {:induction false} AllSafeAt(cells: seq<string>, k: nat)
    requires AllSafe(cells) && k < |cells|
    ensures SafeCell(cells[k])
    decreases k
  {
    if k > 0 {
      AllSafeAt(cells[1..], k - 1);
    }
  }

  /** The record the import makes of the exported line of `m`, the `k`-th
      data line of the file. */
  function Reimported(m: Movie, k: nat, env: Env): (r: Movie)
    ensures r.title == m.title && r.ratingDate == m.ratingDate && r.review == m.review
    ensures r.year == m.year && r.country == m.country && r.link == m.link
    ensures r.director == m.director && r.coverUrl == m.coverUrl
  {
    m.(id := env.freshId(k), rating := env.parseRating(m.rating), createdAt := env.now, updatedAt := "")
  }

  /** The re-imported records of a run of records, the first being the
      `k`-th data line. */
  function ReimportAll(ms: seq<Movie>, k: nat, env: Env): (r: seq<Movie>)
    ensures |r| == |ms|
    ensures forall i :: 0 <= i < |ms| ==> r[i] == Reimported(ms[i], k + i, env)
    decreases |ms|
  {
    if |ms| == 0 then [] else [Reimported(ms[0], k, env)] + ReimportAll(ms[1..], k + 1, env)
  }

  /** Export, then import of the exported text: the records come back in
      export order, each as `Reimported` describes. */
  lemma ExportThenImport(store: seq<Movie>, env: Env)
    requires |store| > 0
    requires forall i :: 0 <= i < |store| ==> Exportable(store[i], env)
    ensures ExportCsv(store, env).Some?
    ensures var sorted := SortForExport(store, env);
      ParseCsv(ExportCsv(store, env).value, env)
        == Success(ReimportAll(sorted, 0, env))
  {
    var sorted := SortForExport(store, env);
    forall i | 0 <= i < |sorted| ensures Exportable(sorted[i], env) {
      assert sorted[i] in multiset(store);
      var j :| 0 <= j < |store| && store[j] == sorted[i];
    }
    ExportColumnsLayout();
    ImportOfExport(ExportColumns, sorted, env);
  }

  /** The same for any header laid out like the export's, written above the
      lines of records already in export order. */
  lemma ImportOfExport(headers: seq<string>, sorted: seq<Movie>, env: Env)
    requires ExportLayout(headers) && |sorted| > 0
    requires forall i :: 0 <= i < |sorted| ==> Exportable(sorted[i], env)
    ensures ParseCsv(Join([Join(headers, ",")] + DataLines(sorted), "\n"), env)
      == Success(ReimportAll(sorted, 0, env))
  {
    ParseOfExport(headers, sorted, env);
    RowsOfExport(headers, sorted, 0, env);
  }

  /** An export passes the file checks and its data lines are decoded under
      its header. */
  lemma ParseOfExport(headers: seq<string>, sorted: seq<Movie>, env: Env)
    requires ExportLayout(headers) && |sorted| > 0
    requires forall i :: 0 <= i < |sorted| ==> Exportable(sorted[i], env)
    ensures ParseCsv(Join([Join(headers, ",")] + DataLines(sorted), "\n"), env)
      == Success(DecodeRows(headers, DataLines(sorted), 0, env))
  {
    var text := Join([Join(headers, ",")] + DataLines(sorted), "\n");
    LinesOfExport(headers, sorted, env);
    HeaderLineNames(headers);
    assert Lines(text)[1..] == DataLines(sorted);
    ParseOfLines(text, headers, DataLines(sorted), env);
  }

  /** A file whose first line names both required columns decodes the other
      lines under it. */
  lemma ParseOfLines(text: string, headers: seq<string>, rows: seq<string>, env: Env)
    requires |Lines(text)| >= 2
    requires HeaderNames(Lines(text)[0]) == headers && Lines(text)[1..] == rows
    requires |headers| > 2 && headers[0] == TitleColumn && headers[2] == DateColumn
    ensures ParseCsv(text, env) == Success(DecodeRows(headers, rows, 0, env))
  {
    assert MissingRequired(headers) == [];
    ParseCsvRows(text, env);
  }

  /** The data lines of an export decode to the re-imported records, the
      first being the `k`-th data line. */
  lemma RowsOfExport(headers: seq<string>, sorted: seq<Movie>, k: nat, env: Env)
    requires ExportLayout(headers)
    requires forall i :: 0 <= i < |sorted| ==> Exportable(sorted[i], env)
    ensures DecodeRows(headers, DataLines(sorted), k, env) == ReimportAll(sorted, k, env)
  {
    ExportedRowsDecode(headers, sorted, k, env);
    DecodeRowsAll(headers, DataLines(sorted), k, env, ReimportAll(sorted, k, env));
  }

  /** The header line splits back into the column names. */
  lemma HeaderLineNames(headers: seq<string>)
    requires ExportLayout(headers)
    ensures HeaderNames(Join(headers, ",")) == headers
  {
    SplitJoin(headers, ',');
    assert Join(headers, [',']) == Join(headers, ",");
  }

  /** The non-empty lines of an export are its header line and data lines. */
  lemma LinesOfExport(headers: seq<string>, sorted: seq<Movie>, env: Env)
    requires ExportLayout(headers)
    requires forall i :: 0 <= i < |sorted| ==> Exportable(sorted[i], env)
    ensures Lines(Join([Join(headers, ",")] + DataLines(sorted), "\n")) == [Join(headers, ",")] + DataLines(sorted)
  {
    var rows := DataLines(sorted);
    var lines := [Join(headers, ",")] + rows;
    HeaderLineSafe(headers);
    DataLinesSafe(sorted, env);
    forall k | 0 <= k < |lines|
      ensures '\n' !in lines[k] && |lines[k]| > 0
    {
      if k > 0 {
        assert lines[k] == rows[k - 1];
      }
    }
    LinesOfJoin(lines);
  }

  /** Every data line of an export is one non-empty line. */
  lemma DataLinesSafe(sorted: seq<Movie>, env: Env)
    requires forall i :: 0 <= i < |sorted| ==> Exportable(sorted[i], env)
    ensures forall k :: 0 <= k < |DataLines(sorted)| ==>
      '\n' !in DataLines(sorted)[k] && |DataLines(sorted)[k]| > 0
  {
    forall k | 0 <= k < |DataLines(sorted)|
      ensures '\n' !in DataLines(sorted)[k] && |DataLines(sorted)[k]| > 0
    {
      DataLineSafe(sorted[k], env);
    }
  }

  /** The header line is one non-empty line. */
  lemma HeaderLineSafe(headers: seq<string>)
    requires ExportLayout(headers)
    ensures '\n' !in Join(headers, ",") && |Join(headers, ",")| > 0
  {
    JoinAvoids(headers, ",", '\n');
    JoinNonEmpty(headers, ",");
  }

  /** The line of an exportable record is one non-empty line. */
  lemma DataLineSafe(m: Movie, env: Env)
    requires Exportable(m, env)
    ensures '\n' !in EncodeRow(RowCells(m)) && |EncodeRow(RowCells(m))| > 0
  {
    var cells := RowCells(m);
    var escaped := EscapeEach(cells);
    forall k | 0 <= k < |escaped|
      ensures '\n' !in escaped[k]
    {
      AllSafeAt(cells, k);
      EscapeAvoids(cells[k], '\n');
    }
    JoinAvoids(escaped, ",", '\n');
    JoinNonEmpty(escaped, ",");
  }

  /** Each data line decodes to the re-imported record of its record. */
  lemma ExportedRowsDecode(headers: seq<string>, sorted: seq<Movie>, k: nat, env: Env)
    requires ExportLayout(headers)
    requires forall i :: 0 <= i < |sorted| ==> Exportable(sorted[i], env)
    ensures forall j :: 0 <= j < |sorted| ==>
      DecodeRow(headers, DataLines(sorted)[j], k + j, env) == Some(ReimportAll(sorted, k, env)[j])
  {
    var rows := DataLines(sorted);
    var ms := ReimportAll(sorted, k, env);
    forall j | 0 <= j < |sorted|
      ensures DecodeRow(headers, rows[j], k + j, env) == Some(ms[j])
    {
      assert rows[j] == EncodeRow(RowCells(sorted[j]));
      assert ms[j] == Reimported(sorted[j], k + j, env);
      DecodeExportedRow(headers, sorted[j], k + j, env);
    }
  }

  /** The line of one exportable record decodes to its re-imported record. */
  lemma DecodeExportedRow(headers: seq<string>, m: Movie, k: nat, env: Env)
    requires ExportLayout(headers)
    requires Exportable(m, env)
    ensures DecodeRow(headers, EncodeRow(RowCells(m)), k, env) == Some(Reimported(m, k, env))
  {
    var row := EncodeRow(RowCells(m));
    CellsOfExportedRow(m, env);
    FieldsOfCells(headers, RowColumns(row), m);
    DecodeRowOf(headers, row, k, env, m);
  }

  /** The cells of `m` hold the fields of `m` under the export column
      names. */
  lemma FieldsOfCells(headers: seq<string>, cols: seq<string>, m: Movie)
    requires ExportLayout(headers)
    requires m.year == 0 || 1000 <= m.year <= 9999
    requires cols == RowCells(m)
    ensures
      && ColumnValue(headers, cols, TitleColumn) == m.title
      && ColumnValue(headers, cols, RatingColumn) == m.rating
      && ColumnValue(headers, cols, DateColumn) == m.ratingDate
      && ColumnValue(headers, cols, ReviewColumn) == m.review
      && LeadingYear(ColumnValue(headers, cols, YearColumn)) == m.year
      && ColumnValue(headers, cols, CountryColumn) == m.country
      && ColumnValue(headers, cols, LinkColumn) == m.link
      && ColumnValue(headers, cols, DirectorColumn) == m.director
      && ColumnValue(headers, cols, PosterColumn) == m.coverUrl
  {
    ColumnValues(headers, RowCells(m));
    YearOfYearText(m.year);
  }

  /** The line of an exportable record splits back into its cells. */
  lemma CellsOfExportedRow(m: Movie, env: Env)
    requires Exportable(m, env)
    ensures RowColumns(EncodeRow(RowCells(m))) == RowCells(m)
  {
    var cells := RowCells(m);
    forall i | 0 <= i < |cells| ensures Plain(cells[i]) {
      AllSafeAt(cells, i);
    }
    RowRoundTrip(cells);
  }

  /** An absent or four-digit year is read back from its export cell. */
  lemma YearOfYearText(year: int)
    requires year == 0 || 1000 <= year <= 9999
    ensures LeadingYear(YearText(year)) == year
  {
    if year != 0 {
      LeadingYearOfNumeral(year, "");
      assert NatToString(year) + "" == NatToString(year);
    }
  }

  /** A row whose columns hold the fields of `m` decodes to its re-imported
      record. */
  lemma DecodeRowOf(headers: seq<string>, row: string, k: nat, env: Env, m: Movie)
    requires Importable(m, env)
    requires var cols := RowColumns(row);
      && ColumnValue(headers, cols, TitleColumn) == m.title
      && ColumnValue(headers, cols, RatingColumn) == m.rating
      && ColumnValue(headers, cols, DateColumn) == m.ratingDate
      && ColumnValue(headers, cols, ReviewColumn) == m.review
      && LeadingYear(ColumnValue(headers, cols, YearColumn)) == m.year
      && ColumnValue(headers, cols, CountryColumn) == m.country
      && ColumnValue(headers, cols, LinkColumn) == m.link
      && ColumnValue(headers, cols, DirectorColumn) == m.director
      && ColumnValue(headers, cols, PosterColumn) == m.coverUrl
    ensures DecodeRow(headers, row, k, env) == Some(Reimported(m, k, env))
  {
  }

  /** Looking the imported columns up in a line of cells finds the cells at
      the columns' export positions. */
  lemma ColumnValues(headers: seq<string>, cells: seq<string>)
    requires ExportLayout(headers) && |cells| == |headers|
    ensures ColumnValue(headers, cells, TitleColumn) == cells[0]
    ensures ColumnValue(headers, cells, RatingColumn) == cells[1]
    ensures ColumnValue(headers, cells, DateColumn) == cells[2]
    ensures ColumnValue(headers, cells, ReviewColumn) == cells[3]
    ensures ColumnValue(headers, cells, YearColumn) == cells[4]
    ensures ColumnValue(headers, cells, CountryColumn) == cells[5]
    ensures ColumnValue(headers, cells, LinkColumn) == cells[6]
    ensures ColumnValue(headers, cells, DirectorColumn) == cells[7]
    ensures ColumnValue(headers, cells, PosterColumn) == cells[8]
  {
    ColumnAt(headers, cells, 0);
    ColumnAt(headers, cells, 1);
    ColumnAt(headers, cells, 2);
    ColumnAt(headers, cells, 3);
    ColumnAt(headers, cells, 4);
    ColumnAt(headers, cells, 5);
    ColumnAt(headers, cells, 6);
    ColumnAt(headers, cells, 7);
    ColumnAt(headers, cells, 8);
  }

  /** The names are distinct, so the lookup of the `i`-th one finds the
      `i`-th cell. */
  lemma ColumnAt(headers: seq<string>, cells: seq<string>, i: nat)
    requires ExportLayout(headers) && |cells| == |headers| && i < |cells|
    ensures ColumnValue(headers, cells, headers[i]) == cells[i]
  {
    assert forall j :: i < j < |headers| ==> headers[j] != headers[i];
  }
}

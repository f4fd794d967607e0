/**
 * The column names of the exported file, in export order, and the facts about
 * them the codec relies on.
 */
module CsvColumns {
  import opened Text
  import opened CsvField

  const TitleColumn: string := "电影/电视剧/番组"
  const RatingColumn: string := "个人评分"
  const DateColumn: string := "观影日期"
  const ReviewColumn: string := "我的短评"
  const YearColumn: string := "上映年份"
  const CountryColumn: string := "制片国家"
  const LinkColumn: string := "条目链接"
  const DirectorColumn: string := "导演"
  const PosterColumn: string := "海报URL"
  const IdColumn: string := "内部ID"
  const AddedColumn: string := "添加日期"
  const ModifiedColumn: string := "最后修改日期"

  /** The header row of an export, in column order. */
  const ExportColumns: seq<string> := [
    TitleColumn, RatingColumn, DateColumn, ReviewColumn, YearColumn, CountryColumn,
    LinkColumn, DirectorColumn, PosterColumn, IdColumn, AddedColumn, ModifiedColumn]

  /** The columns an import cannot do without, in the order they are reported. */
  const RequiredColumns: seq<string> := [TitleColumn, DateColumn]

  /** A column name is a plain, unquoted field with no separator in it. */
  predicate SimpleName(name: string) {
    && |name| > 0
    && ',' !in name && '\n' !in name && '"' !in name && '\\' !in name
    && Trimmed(name)
  }

  /** A header list laid out like the export's: the nine columns an import
      reads at their export positions, twelve simple names, no two equal. */
  predicate ExportLayout(headers: seq<string>) {
    && |headers| == 12
    && headers[0] == TitleColumn && headers[1] == RatingColumn && headers[2] == DateColumn
    && headers[3] == ReviewColumn && headers[4] == YearColumn && headers[5] == CountryColumn
    && headers[6] == LinkColumn && headers[7] == DirectorColumn && headers[8] == PosterColumn
    && (forall k :: 0 <= k < |headers| ==> SimpleName(headers[k]))
    && (forall i, j :: 0 <= i < j < |headers| ==> headers[i] != headers[j])
  }

  /** The export header has that layout. */
  lemma ExportColumnsLayout()
    ensures ExportLayout(ExportColumns)
  {
    ExportColumnsDistinct();
    SimpleNames();
  }

  /** No two export column names are equal: their first characters differ. */
  lemma ExportColumnsDistinct()
    ensures forall i, j :: 0 <= i < j < |ExportColumns| ==> ExportColumns[i] != ExportColumns[j]
  {
    var h := ExportColumns;
    forall i, j | 0 <= i < j < |h| ensures h[i] != h[j] {
      assert h[i][0] != h[j][0];
    }
  }

  /** Each export column name is simple. */
  lemma SimpleNames()
    ensures SimpleName(TitleColumn) && SimpleName(RatingColumn) && SimpleName(DateColumn)
    ensures SimpleName(ReviewColumn) && SimpleName(YearColumn) && SimpleName(CountryColumn)
    ensures SimpleName(LinkColumn) && SimpleName(DirectorColumn) && SimpleName(PosterColumn)
    ensures SimpleName(IdColumn) && SimpleName(AddedColumn) && SimpleName(ModifiedColumn)
  {
  }
}

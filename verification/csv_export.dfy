/**
 * `exportCSV`: the store sorted by viewing date, newest first, then one line
 * per record under a fixed header, lines joined by newlines. Also the
 * comparator the list view sorts with, which orders invalid dates the other
 * way round.
 */
module CsvExport {
  import opened Wrappers
  import opened Text
  import opened Movies
  import opened CsvField
  import opened CsvColumns

  // ---------------------------------------------------------------------
  // Ordering

  /** The time a record is sorted by: a missing viewing date counts as time 0,
      which is a valid time; an unparsable one has no time. */
  function SortKey(m: Movie, env: Env): (r: Option<int>)
    ensures m.ratingDate == "" ==> r == Some(0)
    ensures m.ratingDate != "" ==> r == env.dateOf(m.ratingDate)
  {
    if m.ratingDate == "" then Some(0) else env.dateOf(m.ratingDate)
  }

  /** The export comparator on sort keys: negative when `a` goes first. A key
      without a time goes after one with a time, two keys without a time
      tie, and times go newest first. */
  function ExportCompare(a: Option<int>, b: Option<int>): int {
    if a.None? && b.Some? then 1
    else if a.Some? && b.None? then -1
    else if a.None? && b.None? then 0
    else b.value - a.value
  }

  /** `a` may stand before `b` in an export: `b` has no time, or both have one
      and `a`'s is not older. */
  predicate KeyPrecedes(a: Option<int>, b: Option<int>) {
    b.None? || (a.Some? && a.value >= b.value)
  }

  /** The comparator is consistent with `KeyPrecedes` and antisymmetric, so it
      defines one order. */
  lemma ExportCompareMeaning(a: Option<int>, b: Option<int>)
    ensures ExportCompare(a, b) <= 0 <==> KeyPrecedes(a, b)
    ensures ExportCompare(a, b) == -ExportCompare(b, a)
    ensures KeyPrecedes(a, b) || KeyPrecedes(b, a)
  {
  }

  /** Every record may stand before every later one. */
  predicate Ordered(s: seq<Movie>, env: Env) {
    forall i, j :: 0 <= i < j < |s| ==> KeyPrecedes(SortKey(s[i], env), SortKey(s[j], env))
  }

  /** Inserting one record: it goes before the first record it may precede,
      which puts it ahead of the records it ties with. */
  function Insert(x: Movie, s: seq<Movie>, env: Env): (r: seq<Movie>)
    requires Ordered(s, env)
    ensures multiset(r) == multiset(s) + multiset{x}
    ensures Ordered(r, env)
    ensures |r| == |s| + 1
  {
    if |s| == 0 || ExportCompare(SortKey(x, env), SortKey(s[0], env)) <= 0 then
      assert |s| == 0 || KeyPrecedes(SortKey(x, env), SortKey(s[0], env)) by {
        if |s| > 0 { ExportCompareMeaning(SortKey(x, env), SortKey(s[0], env)); }
      }
      InsertFront(x, s, env);
      [x] + s
    else
      ExportCompareMeaning(SortKey(x, env), SortKey(s[0], env));
      var rest := Insert(x, s[1..], env);
      InsertBehind(x, s, rest, env);
      assert s == [s[0]] + s[1..];
      [s[0]] + rest
  }

  lemma InsertFront(x: Movie, s: seq<Movie>, env: Env)
    requires Ordered(s, env)
    requires |s| == 0 || KeyPrecedes(SortKey(x, env), SortKey(s[0], env))
    ensures Ordered([x] + s, env)
  {
    var r := [x] + s;
    forall i, j | 0 <= i < j < |r|
      ensures KeyPrecedes(SortKey(r[i], env), SortKey(r[j], env))
    {
      if i == 0 && j > 1 {
        assert r[j] == s[j - 1];
        assert KeyPrecedes(SortKey(s[0], env), SortKey(s[j - 1], env));
      }
    }
  }

  lemma InsertBehind(x: Movie, s: seq<Movie>, rest: seq<Movie>, env: Env)
    requires |s| > 0 && Ordered(s, env)
    requires KeyPrecedes(SortKey(s[0], env), SortKey(x, env))
    requires Ordered(rest, env) && multiset(rest) == multiset(s[1..]) + multiset{x}
    ensures Ordered([s[0]] + rest, env)
  {
    var r := [s[0]] + rest;
    forall i, j | 0 <= i < j < |r|
      ensures KeyPrecedes(SortKey(r[i], env), SortKey(r[j], env))
    {
      if i == 0 {
        var y := rest[j - 1];
        assert y in multiset(rest);
        if y != x {
          assert y in multiset(s[1..]);
          var k :| 0 <= k < |s[1..]| && s[1..][k] == y;
          assert s[k + 1] == y;
        }
      }
    }
  }

  /** The export order: a stable sort by the export comparator (the sort of
      the JavaScript engine is stable, so this is the order it produces; see
      `SortForExportStable`). */
  function SortForExport(s: seq<Movie>, env: Env): (r: seq<Movie>)
    ensures multiset(r) == multiset(s)
    ensures Ordered(r, env)
    ensures |r| == |s|
  {
    if |s| == 0 then []
    else
      assert s == [s[0]] + s[1..];
      Insert(s[0], SortForExport(s[1..], env), env)
  }

  /** The records of `s` whose sort key is `key`, in the order of `s`. */
  function WithKey(s: seq<Movie>, key: Option<int>, env: Env): seq<Movie> {
    if |s| == 0 then []
    else (if SortKey(s[0], env) == key then [s[0]] else []) + WithKey(s[1..], key, env)
  }

  /** Inserting a record puts it ahead of the records it ties with and
      leaves their order alone. */
  lemma {:induction false} InsertStable(x: Movie, s: seq<Movie>, key: Option<int>, env: Env)
    requires Ordered(s, env)
    ensures WithKey(Insert(x, s, env), key, env) ==
      (if SortKey(x, env) == key then [x] else []) + WithKey(s, key, env)
  {
    if |s| == 0 || ExportCompare(SortKey(x, env), SortKey(s[0], env)) <= 0 {
      WithKeyCons(x, s, key, env);
    } else {
      assert Ordered(s[1..], env);
      var rest := Insert(x, s[1..], env);
      InsertStable(x, s[1..], key, env);
      WithKeyCons(s[0], rest, key, env);
      assert SortKey(s[0], env) != SortKey(x, env);
      WithKeyCons(s[0], s[1..], key, env);
      assert [s[0]] + s[1..] == s;
    }
  }

  /** `WithKey` of a list with one record in front. */
  lemma WithKeyCons(x: Movie, s: seq<Movie>, key: Option<int>, env: Env)
    ensures WithKey([x] + s, key, env) == (if SortKey(x, env) == key then [x] else []) + WithKey(s, key, env)
  {
    assert ([x] + s)[1..] == s;
  }

  /** The export sort is stable: records with the same sort key come out in
      their store order. */
  lemma {:induction false} SortForExportStable(s: seq<Movie>, key: Option<int>, env: Env)
    ensures WithKey(SortForExport(s, env), key, env) == WithKey(s, key, env)
  {
    if |s| > 0 {
      SortForExportStable(s[1..], key, env);
      InsertStable(s[0], SortForExport(s[1..], env), key, env);
    }
  }

  /** What the export order means: every record with a valid time comes before
      every record without one, and valid times are newest first; a missing
      date counts as time 0, so among the non-negative times it comes last. */
  lemma OrderedMeaning(s: seq<Movie>, env: Env, i: nat, j: nat)
    requires Ordered(s, env) && i < |s| && j < |s|
    ensures SortKey(s[i], env).Some? && SortKey(s[j], env).None? ==> i < j
    ensures SortKey(s[i], env).Some? && SortKey(s[j], env).Some? && i < j ==>
      SortKey(s[i], env).value >= SortKey(s[j], env).value
    ensures s[j].ratingDate == "" && SortKey(s[i], env).Some? && SortKey(s[i], env).value > 0 ==> i < j
  {
    if i > j {
      assert KeyPrecedes(SortKey(s[j], env), SortKey(s[i], env));
    }
  }

  // ---------------------------------------------------------------------
  // The list view's comparator

  /** The comparator of the list view, as written: when only `b`'s date is
      valid it returns -1, so `a`, the record without a valid date, goes
      first. */
  function DisplayCompare(a: Option<int>, b: Option<int>): int {
    var validA := a.Some?;
    var validB := b.Some?;
    if validB && !validA then -1
    else if !validB && validA then 1
    else if !validB && !validA then 0
    else b.value - a.value
  }

  /** The list view puts a record with an unparsable date before one with a
      valid date, although the code means to put valid dates first. */
  lemma DisplayPutsInvalidFirst(t: int)
    ensures DisplayCompare(None, Some(t)) < 0
    ensures DisplayCompare(Some(t), None) > 0
  {
  }

  /** The export comparator, which the view evidently means to use, puts the
      valid date first and agrees with the view's comparator on valid dates. */
  lemma ExportPutsValidFirst(t: int, u: int)
    ensures ExportCompare(Some(t), None) < 0
    ensures ExportCompare(None, Some(t)) > 0
    ensures ExportCompare(Some(t), Some(u)) == DisplayCompare(Some(t), Some(u))
  {
  }

  // ---------------------------------------------------------------------
  // Lines

  /** `escapeCSVValue(movie.year)`: an absent year is empty, a present one its
      decimal numeral. */
  function YearText(year: int): (r: string)
    ensures year == 0 <==> r == ""
    ensures year > 0 ==> AllDigits(r) && RadixValue(r, 10) == year
    ensures year < 0 ==> |r| >= 2 && r[0] == '-' && AllDigits(r[1..]) && RadixValue(r[1..], 10) == -year
    ensures year != 0 ==> r == IntToString(year)
  {
    if year == 0 then "" else IntToString(year)
  }

  /** The values of one record in export column order. */
  function RowCells(m: Movie): (r: seq<string>)
    ensures |r| == 12
  {
    [m.title, m.rating, m.ratingDate, m.review, YearText(m.year), m.country,
     m.link, m.director, m.coverUrl, m.id, m.createdAt, m.updatedAt]
  }

  /** The header line of an export. */
  function HeaderLine(): string {
    Join(ExportColumns, ",")
  }

  /** The data lines of the records, in order. */
  function DataLines(s: seq<Movie>): (r: seq<string>)
    ensures |r| == |s|
    ensures forall k :: 0 <= k < |r| ==> r[k] == EncodeRow(RowCells(s[k]))
  {
    seq(|s|, k requires 0 <= k < |s| => EncodeRow(RowCells(s[k])))
  }

  /** `exportCSV`: nothing for an empty store, else the header line and the
      sorted records' lines joined by newlines. */
  function ExportCsv(store: seq<Movie>, env: Env): (r: Option<string>)
    ensures r.None? <==> |store| == 0
  {
    if |store| == 0 then None
    else Some(Join([HeaderLine()] + DataLines(SortForExport(store, env)), "\n"))
  }
}

/** The shaping `export_records_to_excel` applies before writing the sheet:
    project to the eight required columns, drop repeated (keyword, link)
    pairs keeping the first, sort by keyword then newest date, drop rows with
    nothing in them, and choose the rows whose link cell becomes a
    hyperlink. */
module Export {
  import opened Wrappers
  import opened Text
  import opened Calendar
  import opened Records
  import opened Dedup
  import opened Sorting

  /** `REQUIRED_COLS`: the sheet's columns, in order. */
  const RequiredCols: seq<string> :=
    ["keyword", "title", "case_name", "day", "month", "year", "judgment_date", "link"]

  /** The position of "link" among the columns. */
  const LinkColumn: nat := 7

  const NoRecordsMessage: string := "No records to export"

  /** One row of the frame, a value per required column; `None` is `NA`. */
  datatype ExportRow = ExportRow(
    keyword: Option<string>,
    title: Option<string>,
    caseName: Option<string>,
    day: Option<int>,
    month: Option<string>,
    year: Option<int>,
    judgmentDate: Option<string>,
    link: Option<string>)

  /** `df[REQUIRED_COLS]` for one record: its eight required fields, with
      every other field, such as `doc_id`, dropped. */
  function Project(r: Record): (row: ExportRow)
    ensures row.keyword == r.keyword && row.link == r.link && row.judgmentDate == r.judgmentDate
  {
    ExportRow(r.keyword, r.title, r.caseName, r.day, r.month, r.year, r.judgmentDate, r.link)
  }

  /** Records that differ only in `doc_id` give the same sheet row, and the
      sheet row keeps every other field. */
  lemma ProjectDropsDocId(r: Record, s: Record)
    ensures Project(r) == Project(s) <==> r.(docId := None) == s.(docId := None)
  {
  }

  function ProjectAll(records: seq<Record>): (rows: seq<ExportRow>)
    ensures |rows| == |records|
    ensures forall i :: 0 <= i < |records| ==> rows[i] == Project(records[i])
  {
    seq(|records|, i requires 0 <= i < |records| => Project(records[i]))
  }

  /** The `subset` of `drop_duplicates`. */
  function ExportKey(r: ExportRow): (Option<string>, Option<string>) {
    (r.keyword, r.link)
  }

  /** Ascending order of keywords with missing ones last (`na_position="last"`);
      `a` comes strictly before `b`. */
  predicate KeywordBefore(a: Option<string>, b: Option<string>) {
    (a.Some? && b.None?) || (a.Some? && b.Some? && Less(a.value, b.value))
  }

  /** Descending order of dates with missing ones last; `a` may come before `b`. */
  predicate DateNoEarlier(a: Option<string>, b: Option<string>) {
    b.None? || (a.Some? && LessEq(b.value, a.value))
  }

  /** The first and the last day a pandas `Timestamp` holds at midnight:
      its nanosecond range runs from 1677-09-21 00:12:43 to 2262-04-11 23:47:16. */
  const FirstTimestampDay: Date := Date(1677, 9, 22)
  const LastTimestampDay: Date := Date(2262, 4, 11)

  predicate InTimestampRange(d: Date) {
    !Before(d, FirstTimestampDay) && !Before(LastTimestampDay, d)
  }

  /** The `_sort_date` column, `pd.to_datetime(judgment_date, errors="coerce")`:
      an ISO date of a real day that a `Timestamp` can hold keeps its text,
      which sorts as the day does; anything else becomes `NaT`, `None` here. */
  function SortDate(date: Option<string>): Option<string> {
    if date.Some? && ParseIso(date.value).Some? && InTimestampRange(ParseIso(date.value).value)
    then date else None
  }

  /** The ISO date of a day sorts by that day exactly when a `Timestamp`
      can hold it, and as a missing date otherwise. */
  lemma SortDateOfIso(d: Date)
    requires IsValid(d)
    ensures SortDate(Some(IsoDate(d))) == if InTimestampRange(d) then Some(IsoDate(d)) else None
  {
    ParseIsoRoundTrip(d);
  }

  /** For days a `Timestamp` holds, the sort puts a later day first. */
  lemma SortDateChronological(a: Date, b: Date)
    requires IsValid(a) && IsValid(b) && InTimestampRange(a) && InTimestampRange(b)
    ensures DateNoEarlier(SortDate(Some(IsoDate(a))), SortDate(Some(IsoDate(b)))) <==> !Before(a, b)
  {
    SortDateOfIso(a);
    SortDateOfIso(b);
    IsoOrderIsChronological(b, a);
  }

  /** A date before 1677-09-22, which the title parser accepts, sorts with
      the missing dates. */
  lemma EarlyDateSortsAsMissing()
    ensures SortDate(Some(IsoDate(Date(1600, 1, 1)))) == None
  {
    SortDateOfIso(Date(1600, 1, 1));
  }

  /** The order of `sort_values(by=["keyword", "_sort_date"],
      ascending=[True, False], na_position="last")`. */
  predicate ExportOrder(a: ExportRow, b: ExportRow) {
    KeywordBefore(a.keyword, b.keyword)
    || (a.keyword == b.keyword && DateNoEarlier(SortDate(a.judgmentDate), SortDate(b.judgmentDate)))
  }

  lemma KeywordOrder(a: Option<string>, b: Option<string>, c: Option<string>)
    ensures a == b || KeywordBefore(a, b) || KeywordBefore(b, a)
    ensures !(KeywordBefore(a, b) && KeywordBefore(b, a))
    ensures KeywordBefore(a, b) && KeywordBefore(b, c) ==> KeywordBefore(a, c)
    ensures !KeywordBefore(a, a)
  {
    if a.Some? && b.Some? {
      LessTotal(a.value, b.value);
      LessIrreflexive(a.value);
      if Less(a.value, b.value) {
        LessAsymmetric(a.value, b.value);
      }
      if Less(a.value, b.value) && c.Some? && Less(b.value, c.value) {
        LessTransitive(a.value, b.value, c.value);
      }
    }
    if a.Some? {
      LessIrreflexive(a.value);
    }
    assert a.None? && b.Some? ==> a != b;
  }

  lemma DateOrder(a: Option<string>, b: Option<string>, c: Option<string>)
    ensures DateNoEarlier(a, b) || DateNoEarlier(b, a)
    ensures DateNoEarlier(a, b) && DateNoEarlier(b, c) ==> DateNoEarlier(a, c)
  {
    if a.Some? && b.Some? {
      LessTotal(a.value, b.value);
    }
    if a.Some? && b.Some? && c.Some? && a != b && b != c && DateNoEarlier(a, b) && DateNoEarlier(b, c) {
      LessTransitive(c.value, b.value, a.value);
    }
  }

  lemma ExportOrderTotal()
    ensures TotalPreorder(ExportOrder)
  {
    forall a: ExportRow, b: ExportRow ensures ExportOrder(a, b) || ExportOrder(b, a) {
      KeywordOrder(a.keyword, b.keyword, b.keyword);
      DateOrder(SortDate(a.judgmentDate), SortDate(b.judgmentDate), SortDate(b.judgmentDate));
    }
    forall a: ExportRow, b: ExportRow, c: ExportRow | ExportOrder(a, b) && ExportOrder(b, c)
      ensures ExportOrder(a, c)
    {
      KeywordOrder(a.keyword, b.keyword, c.keyword);
      KeywordOrder(a.keyword, c.keyword, b.keyword);
      DateOrder(SortDate(a.judgmentDate), SortDate(b.judgmentDate), SortDate(c.judgmentDate));
    }
  }

  /** Every column of the row is `NA`. */
  predicate AllNull(r: ExportRow) {
    r.keyword.None? && r.title.None? && r.caseName.None? && r.day.None?
    && r.month.None? && r.year.None? && r.judgmentDate.None? && r.link.None?
  }

  /** The filter of `dropna(how="all")`. */
  function KeepRow(r: ExportRow): bool {
    !AllNull(r)
  }

  /** The frame `export_records_to_excel` writes, or the error it raises on
      an empty list before writing anything. */
  function ExportRows(records: seq<Record>): (r: Result<seq<ExportRow>, string>)
    ensures r.Failure? <==> records == []
    ensures r.Failure? ==> r.error == NoRecordsMessage
    ensures r.Success? ==> forall k :: 0 <= k < |r.value| ==> !AllNull(r.value[k])
  {
    if records == [] then Failure(NoRecordsMessage)
    else
      var unique := FirstSeen(ProjectAll(records), ExportKey);
      Success(Filter(Sort(unique, ExportOrder), KeepRow))
  }

  /** The exported rows are sorted by keyword, missing keywords last, and
      within a keyword by date, newest first and missing dates last. */
  lemma ExportSorted(records: seq<Record>)
    requires records != []
    ensures SortedBy(ExportRows(records).value, ExportOrder)
  {
    var unique := FirstSeen(ProjectAll(records), ExportKey);
    ExportOrderTotal();
    SortSorted(unique, ExportOrder);
    SortedFilter(Sort(unique, ExportOrder), ExportOrder, KeepRow);
  }

  /** The exported rows are some of the projected input rows, reordered:
      no row is invented or altered, and none is repeated. */
  lemma ExportFromInput(records: seq<Record>)
    requires records != []
    ensures multiset(ExportRows(records).value) <= multiset(ProjectAll(records))
  {
    var unique := FirstSeen(ProjectAll(records), ExportKey);
    FirstSeenSubMultiset(ProjectAll(records), ExportKey);
    FilterMultiset(Sort(unique, ExportOrder), KeepRow);
  }

  /** No two exported rows share a (keyword, link) pair, a missing value
      counting as equal to another missing value. */
  lemma ExportDistinct(records: seq<Record>)
    requires records != []
    ensures DistinctBy(ExportRows(records).value, ExportKey)
  {
    var unique := FirstSeen(ProjectAll(records), ExportKey);
    FirstSeenDistinct(ProjectAll(records), ExportKey);
    FilterMultiset(Sort(unique, ExportOrder), KeepRow);
    DistinctSubMultiset(unique, ExportRows(records).value, ExportKey);
  }

  /** Every exported row is the first input row of its (keyword, link) pair. */
  lemma ExportOnlyFirsts(records: seq<Record>)
    requires records != []
    ensures forall x :: x in ExportRows(records).value ==>
      exists i :: IsFirstOccurrence(ProjectAll(records), ExportKey, i) && x == ProjectAll(records)[i]
  {
    var p := ProjectAll(records);
    var unique := FirstSeen(p, ExportKey);
    var sorted := Sort(unique, ExportOrder);
    assert ExportRows(records).value == Filter(sorted, KeepRow);
    FirstSeenOrigins(p, ExportKey);
    FilterMultiset(sorted, KeepRow);
    var o := Origins(p, ExportKey);
    forall x | x in Filter(sorted, KeepRow)
      ensures exists i :: IsFirstOccurrence(p, ExportKey, i) && x == p[i]
    {
      assert x in multiset(sorted);
      var k :| 0 <= k < |unique| && unique[k] == x;
      assert IsFirstOccurrence(p, ExportKey, o[k]) && x == p[o[k]];
    }
  }

  /** The first input row of each (keyword, link) pair is exported unless
      all its columns are empty. */
  lemma ExportAllFirsts(records: seq<Record>)
    requires records != []
    ensures forall i :: IsFirstOccurrence(ProjectAll(records), ExportKey, i) ==>
      AllNull(ProjectAll(records)[i]) || ProjectAll(records)[i] in ExportRows(records).value
  {
    var p := ProjectAll(records);
    var unique := FirstSeen(p, ExportKey);
    var sorted := Sort(unique, ExportOrder);
    assert ExportRows(records).value == Filter(sorted, KeepRow);
    FirstSeenOrigins(p, ExportKey);
    FilterMultiset(sorted, KeepRow);
    var o := Origins(p, ExportKey);
    forall i | IsFirstOccurrence(p, ExportKey, i) && !AllNull(p[i])
      ensures p[i] in Filter(sorted, KeepRow)
    {
      var k :| 0 <= k < |o| && o[k] == i;
      assert unique[k] == p[i];
      assert p[i] in multiset(sorted);
    }
  }

  /** Whether the link cell of a row becomes a hyperlink: the link is set
      and is not blank (stripping it leaves something). */
  predicate HasLink(r: ExportRow) {
    r.link.Some? && !AllSpace(r.link.value)
  }

  /** A `write_url` call: sheet row (the header is row 0), column, URL. */
  datatype LinkCell = LinkCell(row: nat, column: nat, url: string)

  /** The cells the hyperlink loop writes for the first `|rows|` rows. */
  function LinkCells(rows: seq<ExportRow>): (cells: seq<LinkCell>)
    ensures forall k :: 0 <= k < |cells| ==> cells[k].row <= |rows|
    decreases |rows|
  {
    if rows == [] then []
    else
      var n := |rows| - 1;
      var before := LinkCells(rows[..n]);
      if HasLink(rows[n]) then before + [LinkCell(n + 1, LinkColumn, rows[n].link.value)] else before
  }

  /** `c` is the cell written for row `i`, which has a link. */
  predicate CellFor(rows: seq<ExportRow>, i: int, c: LinkCell) {
    0 <= i < |rows| && HasLink(rows[i]) && c == LinkCell(i + 1, LinkColumn, rows[i].link.value)
  }

  /** The loop writes one cell per row that has a link, at the row's sheet
      position (after the header) in the link column with the link itself,
      and no other cell. */
  lemma {:induction false} LinkCellsExactly(rows: seq<ExportRow>)
    ensures forall c :: c in LinkCells(rows) <==> exists i :: CellFor(rows, i, c)
    decreases |rows|
  {
    if rows != [] {
      var n := |rows| - 1;
      LinkCellsExactly(rows[..n]);
      var cells := LinkCells(rows);
      var before := LinkCells(rows[..n]);
      forall c | c in cells ensures exists i :: CellFor(rows, i, c) {
        if c in before {
          var i :| CellFor(rows[..n], i, c);
          assert rows[..n][i] == rows[i];
          assert CellFor(rows, i, c);
        } else {
          assert CellFor(rows, n, c);
        }
      }
      forall c, i | CellFor(rows, i, c) ensures c in cells {
        if i < n {
          assert rows[..n][i] == rows[i];
          assert CellFor(rows[..n], i, c);
        }
      }
    }
  }

  /** The cells come in row order, one per row at most. */
  lemma {:induction false} LinkCellsOrdered(rows: seq<ExportRow>)
    ensures forall k, l :: 0 <= k < l < |LinkCells(rows)| ==> LinkCells(rows)[k].row < LinkCells(rows)[l].row
    decreases |rows|
  {
    if rows != [] {
      var n := |rows| - 1;
      LinkCellsOrdered(rows[..n]);
      var before := LinkCells(rows[..n]);
      assert forall k :: 0 <= k < |before| ==> before[k].row <= n;
      if HasLink(rows[n]) {
        var all := before + [LinkCell(n + 1, LinkColumn, rows[n].link.value)];
        assert LinkCells(rows) == all;
        forall k, l | 0 <= k < l < |all| ensures all[k].row < all[l].row {
          if l == |before| {
            assert all[k] == before[k];
          } else {
            assert all[k] == before[k] && all[l] == before[l];
          }
        }
      }
    }
  }

  /** The hyperlink loop: for each row in turn, a link cell when the row's
      link is set and not blank. */
  method HyperlinkCells(rows: seq<ExportRow>) returns (cells: seq<LinkCell>)
    ensures cells == LinkCells(rows)
    ensures forall c :: c in cells <==> exists i :: CellFor(rows, i, c)
    ensures forall k, l :: 0 <= k < l < |cells| ==> cells[k].row < cells[l].row
  {
    cells := [];
    for i := 0 to |rows|
      invariant cells == LinkCells(rows[..i])
    {
      assert rows[..i + 1][..i] == rows[..i];
      var url := rows[i].link;
      if url.Some? && Strip(url.value) != [] {
        cells := cells + [LinkCell(i + 1, LinkColumn, url.value)];
      }
    }
    assert rows[..|rows|] == rows;
    LinkCellsExactly(rows);
    LinkCellsOrdered(rows);
  }

  lemma LinkColumnIsLink()
    ensures |RequiredCols| == 8 && RequiredCols[LinkColumn] == "link"
  {
  }
}

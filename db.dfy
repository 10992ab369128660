/** The `judgments` table of the SQLite store: rows are only ever appended,
    a `UNIQUE(doc_id, judgment_date) ON CONFLICT IGNORE` rule drops a row
    whose two key columns are both set and equal to an existing row's, and
    the two queries read the rows back newest first. */
module Db {
  import opened Wrappers
  import opened Text
  import opened Calendar
  import opened Records
  import opened Dedup
  import opened Sorting

  /** One row of `judgments`, without the AUTOINCREMENT id. */
  datatype Row = Row(
    keyword: Option<string>,
    caseName: Option<string>,
    day: Option<int>,
    month: Option<string>,
    year: Option<int>,
    judgmentDate: Option<string>,
    docId: Option<string>,
    link: Option<string>,
    insertedAt: string)

  /** The pair `insert_records` deduplicates a batch on. */
  function RecordKey(r: Record): (Option<string>, Option<string>) {
    (r.docId, r.judgmentDate)
  }

  /** The row the INSERT statement writes for `r` at time `now`; the title is
      not a column and is not stored. */
  function RowOf(r: Record, now: string): (row: Row)
    ensures row.docId == r.docId && row.judgmentDate == r.judgmentDate
  {
    Row(r.keyword, r.caseName, r.day, r.month, r.year, r.judgmentDate, r.docId, r.link, now)
  }

  function RowsOf(records: seq<Record>, now: string): (rows: seq<Row>)
    ensures |rows| == |records|
    ensures forall i :: 0 <= i < |records| ==> rows[i] == RowOf(records[i], now)
  {
    seq(|records|, i requires 0 <= i < |records| => RowOf(records[i], now))
  }

  lemma RowsOfLast(records: seq<Record>, now: string)
    requires records != []
    ensures RowsOf(records, now)
      == RowsOf(records[..|records| - 1], now) + [RowOf(records[|records| - 1], now)]
  {
    var n := |records| - 1;
    var a, b := RowsOf(records, now), RowsOf(records[..n], now) + [RowOf(records[n], now)];
    forall k | 0 <= k < |a| ensures a[k] == b[k] {
      if k < n {
        assert records[..n][k] == records[k];
      }
    }
  }

  /** The UNIQUE rule: an existing row `a` blocks a new row `b` only when
      `a` has both key columns set and `b` has the same values. SQLite treats
      NULL as distinct from every value, NULL included. */
  predicate Conflicts(a: Row, b: Row)
    ensures Conflicts(a, b) ==> b.docId.Some? && b.judgmentDate.Some?
  {
    a.docId.Some? && a.judgmentDate.Some? && a.docId == b.docId && a.judgmentDate == b.judgmentDate
  }

  /** The rule does not depend on which row came first, and a row with a
      NULL key column does not even conflict with a copy of itself. */
  lemma ConflictsSymmetric(a: Row, b: Row)
    ensures Conflicts(a, b) <==> Conflicts(b, a)
    ensures Conflicts(a, a) <==> a.docId.Some? && a.judgmentDate.Some?
  {
  }

  /** No two rows break the UNIQUE rule. */
  predicate UniqueKeys(rows: seq<Row>) {
    forall i, j :: 0 <= i < j < |rows| ==> !Conflicts(rows[i], rows[j])
  }

  /** `INSERT OR IGNORE` of one row: appended unless an existing row
      conflicts with it. */
  function InsertOrIgnore(rows: seq<Row>, row: Row): (r: seq<Row>)
    ensures r == rows || r == rows + [row]
    ensures r == rows <==> exists i :: 0 <= i < |rows| && Conflicts(rows[i], row)
    ensures row.docId.None? || row.judgmentDate.None? ==> r == rows + [row]
    ensures UniqueKeys(rows) ==> UniqueKeys(r)
  {
    if exists i :: 0 <= i < |rows| && Conflicts(rows[i], row) then rows else rows + [row]
  }

  /** The rows after inserting `records` one by one, in order. Existing rows
      are never changed or removed, and each record adds at most one row. */
  function InsertAll(rows: seq<Row>, records: seq<Record>, now: string): (r: seq<Row>)
    ensures |rows| <= |r| <= |rows| + |records| && r[..|rows|] == rows
    ensures UniqueKeys(rows) ==> UniqueKeys(r)
    decreases |records|
  {
    if records == [] then rows
    else
      var before := InsertAll(rows, records[..|records| - 1], now);
      var r := InsertOrIgnore(before, RowOf(records[|records| - 1], now));
      assert r[..|before|] == before;
      assert r[..|rows|] == before[..|rows|];
      r
  }

  lemma InsertAllLast(rows: seq<Row>, records: seq<Record>, now: string)
    requires records != []
    ensures InsertAll(rows, records, now)
      == InsertOrIgnore(InsertAll(rows, records[..|records| - 1], now), RowOf(records[|records| - 1], now))
  {
  }

  lemma InsertAllStep(rows: seq<Row>, records: seq<Record>, now: string, i: nat)
    requires i < |records|
    ensures InsertAll(rows, records[..i + 1], now)
      == InsertOrIgnore(InsertAll(rows, records[..i], now), RowOf(records[i], now))
  {
    assert records[..i + 1][..i] == records[..i];
  }

  /** Some row of `rows` keeps `row` out. */
  predicate Blocked(rows: seq<Row>, row: Row) {
    exists i :: 0 <= i < |rows| && Conflicts(rows[i], row)
  }

  /** After a batch is inserted, every record of it with both key columns
      set is kept out by some row: its own, or the one that blocked it. */
  lemma {:induction false} InsertAllBlocks(rows: seq<Row>, records: seq<Record>, now: string)
    ensures forall k :: 0 <= k < |records| && records[k].docId.Some? && records[k].judgmentDate.Some? ==>
              Blocked(InsertAll(rows, records, now), RowOf(records[k], now))
    decreases |records|
  {
    if records != [] {
      var n := |records| - 1;
      InsertAllBlocks(rows, records[..n], now);
      var before := InsertAll(rows, records[..n], now);
      var after := InsertAll(rows, records, now);
      InsertAllLast(rows, records, now);
      assert after[..|before|] == before;
      forall k | 0 <= k < |records| && records[k].docId.Some? && records[k].judgmentDate.Some?
        ensures Blocked(after, RowOf(records[k], now))
      {
        if k < n {
          assert records[..n][k] == records[k];
          BlockedGrows(before, after, RowOf(records[k], now));
        } else {
          BlockedAfterInsert(before, RowOf(records[n], now));
        }
      }
    }
  }

  /** A row kept out stays kept out when rows are appended. */
  lemma BlockedGrows(before: seq<Row>, after: seq<Row>, row: Row)
    requires |before| <= |after| && after[..|before|] == before && Blocked(before, row)
    ensures Blocked(after, row)
  {
    var i :| 0 <= i < |before| && Conflicts(before[i], row);
    assert after[i] == after[..|before|][i];
  }

  /** Once a row with both key columns set has been offered, it is kept out. */
  lemma BlockedAfterInsert(before: seq<Row>, row: Row)
    requires row.docId.Some? && row.judgmentDate.Some?
    ensures Blocked(InsertOrIgnore(before, row), row)
  {
    var r := InsertOrIgnore(before, row);
    if Blocked(before, row) {
      BlockedGrows(before, r, row);
    } else {
      assert r[|before|] == row && Conflicts(row, row);
    }
  }

  /** A batch every record of which is kept out adds nothing. */
  lemma {:induction false} InsertAllBlockedUnchanged(rows: seq<Row>, records: seq<Record>, now: string)
    requires forall k :: 0 <= k < |records| ==> Blocked(rows, RowOf(records[k], now))
    ensures InsertAll(rows, records, now) == rows
    decreases |records|
  {
    if records != [] {
      var n := |records| - 1;
      assert forall k :: 0 <= k < n ==> records[..n][k] == records[k];
      InsertAllBlockedUnchanged(rows, records[..n], now);
      InsertAllLast(rows, records, now);
      assert Blocked(rows, RowOf(records[n], now));
    }
  }

  /** Inserting the same batch again, by a later call that stamps a later
      `datetime('now')`, leaves the table as the first call did, when every
      record has both `doc_id` and `judgment_date`: the rule reads only those
      two columns, never `inserted_at`. */
  lemma ReinsertUnchanged(rows: seq<Row>, records: seq<Record>, now: string, later: string)
    requires forall k :: 0 <= k < |records| ==> records[k].docId.Some? && records[k].judgmentDate.Some?
    ensures var once := InsertAll(rows, FirstSeen(records, RecordKey), now);
      InsertAll(once, FirstSeen(records, RecordKey), later) == once
  {
    var u := FirstSeen(records, RecordKey);
    FirstSeenSubMultiset(records, RecordKey);
    forall k | 0 <= k < |u| ensures u[k].docId.Some? && u[k].judgmentDate.Some? {
      assert u[k] in multiset(records);
    }
    var once := InsertAll(rows, u, now);
    InsertAllBlocks(rows, u, now);
    forall k | 0 <= k < |u| ensures Blocked(once, RowOf(u[k], later)) {
      var i :| 0 <= i < |once| && Conflicts(once[i], RowOf(u[k], now));
      assert Conflicts(once[i], RowOf(u[k], later));
    }
    InsertAllBlockedUnchanged(once, u, later);
  }

  /** Records without a `doc_id` are never rejected: each adds a row. */
  lemma {:induction false} NullDocIdAllInserted(rows: seq<Row>, records: seq<Record>, now: string)
    requires forall k :: 0 <= k < |records| ==> records[k].docId.None?
    ensures InsertAll(rows, records, now) == rows + RowsOf(records, now)
    decreases |records|
  {
    if records != [] {
      var n := |records| - 1;
      assert forall k :: 0 <= k < n ==> records[..n][k] == records[k];
      NullDocIdAllInserted(rows, records[..n], now);
      var before, row := InsertAll(rows, records[..n], now), RowOf(records[n], now);
      InsertAllLast(rows, records, now);
      assert row.docId.None?;
      RowsOfLast(records, now);
      assert rows + RowsOf(records[..n], now) + [row] == rows + (RowsOf(records[..n], now) + [row]);
    }
  }

  /** A batch from the scraper, whose records never carry a `doc_id`: the
      dedup keeps one record per distinct judgment date (all undated records
      count as one), every date of the batch is kept, each kept record is
      stored, and storing the same batch again, at a later time, stores all
      of them again. */
  lemma ScrapedBatch(rows: seq<Row>, records: seq<Record>, now: string, later: string)
    requires forall k :: 0 <= k < |records| ==> records[k].docId.None?
    ensures var u := FirstSeen(records, RecordKey);
      (forall k, l :: 0 <= k < l < |u| ==> u[k].judgmentDate != u[l].judgmentDate)
      && (forall k :: 0 <= k < |records| ==>
            exists l :: 0 <= l < |u| && u[l].judgmentDate == records[k].judgmentDate)
      && InsertAll(rows, u, now) == rows + RowsOf(u, now)
      && InsertAll(InsertAll(rows, u, now), u, later) == InsertAll(rows, u, now) + RowsOf(u, later)
  {
    var u := FirstSeen(records, RecordKey);
    FirstSeenSubMultiset(records, RecordKey);
    forall k | 0 <= k < |u| ensures u[k].docId.None? {
      assert u[k] in multiset(records);
    }
    FirstSeenDistinct(records, RecordKey);
    FirstSeenKeys(records, RecordKey);
    forall k | 0 <= k < |records|
      ensures exists l :: 0 <= l < |u| && u[l].judgmentDate == records[k].judgmentDate
    {
      assert RecordKey(records[k]) in KeysOf(records, RecordKey);
      var l :| 0 <= l < |u| && RecordKey(u[l]) == RecordKey(records[k]);
    }
    NullDocIdAllInserted(rows, u, now);
    NullDocIdAllInserted(InsertAll(rows, u, now), u, later);
  }

  /** The first-seen pass of `insert_records`: a `seen` set of keys and the
      list of records whose key was new. */
  method DedupRecords(records: seq<Record>) returns (unique: seq<Record>)
    ensures unique == FirstSeen(records, RecordKey)
  {
    var seen: set<(Option<string>, Option<string>)> := {};
    unique := [];
    for i := 0 to |records|
      invariant seen == KeysOf(records[..i], RecordKey)
      invariant unique == FirstSeen(records[..i], RecordKey)
    {
      FirstSeenStep(records, RecordKey, i);
      var key := RecordKey(records[i]);
      if key !in seen {
        seen := seen + {key};
        unique := unique + [records[i]];
      }
    }
    assert records[..|records|] == records;
  }

  /** What a query returns for a row: its eight selected columns as a dict. */
  function Selected(row: Row): (r: Record)
    ensures r.title.None? && r.docId == row.docId && r.judgmentDate == row.judgmentDate
  {
    Record(row.keyword, None, row.caseName, row.day, row.month, row.year,
           row.judgmentDate, row.docId, row.link)
  }

  /** A stored record reads back as itself, less its title, which the table
      does not store. */
  lemma ReadBack(r: Record, now: string)
    ensures Selected(RowOf(r, now)) == r.(title := None)
  {
  }

  function SelectAll(rows: seq<Row>): (r: seq<Record>)
    ensures |r| == |rows|
    ensures forall i :: 0 <= i < |rows| ==> r[i] == Selected(rows[i])
  {
    seq(|rows|, i requires 0 <= i < |rows| => Selected(rows[i]))
  }

  /** `ORDER BY judgment_date DESC`: later dates first by text order, and a
      NULL date, which SQLite ranks below every value, after all of them. */
  predicate DateDesc(a: Record, b: Record) {
    b.judgmentDate.None? || (a.judgmentDate.Some? && LessEq(b.judgmentDate.value, a.judgmentDate.value))
  }

  lemma DateDescTotal()
    ensures TotalPreorder(DateDesc)
  {
    forall a: Record, b: Record ensures DateDesc(a, b) || DateDesc(b, a) {
      if a.judgmentDate.Some? && b.judgmentDate.Some? {
        LessTotal(a.judgmentDate.value, b.judgmentDate.value);
      }
    }
    forall a: Record, b: Record, c: Record | DateDesc(a, b) && DateDesc(b, c)
      ensures DateDesc(a, c)
    {
      if c.judgmentDate.Some? && a.judgmentDate != b.judgmentDate && b.judgmentDate != c.judgmentDate {
        LessTransitive(c.judgmentDate.value, b.judgmentDate.value, a.judgmentDate.value);
      }
    }
  }

  /** The `WHERE` clause of `get_last_30_days`: a date is set and is not
      before `start` in text order. */
  function InWindow(start: string): (Record -> bool) {
    (x: Record) => x.judgmentDate.Some? && LessEq(start, x.judgmentDate.value)
  }

  /** For ISO dates the text comparison of the query is the calendar one. */
  lemma WindowIsChronological(start: Date, d: Date)
    requires IsValid(start) && IsValid(d)
    ensures LessEq(IsoDate(start), IsoDate(d)) <==> !Before(d, start)
  {
    IsoOrderIsChronological(start, d);
  }

  /** The records dated `start` or later, newest first. */
  function Window(records: seq<Record>, start: string): (r: seq<Record>)
    ensures SortedBy(r, DateDesc)
    ensures forall x :: multiset(r)[x] == (if InWindow(start)(x) then multiset(records)[x] else 0)
    ensures forall x :: x in r <==>
      x in records && x.judgmentDate.Some? && LessEq(start, x.judgmentDate.value)
  {
    var kept := Filter(records, InWindow(start));
    DateDescTotal();
    SortSorted(kept, DateDesc);
    FilterMultiset(records, InWindow(start));
    var r := Sort(kept, DateDesc);
    assert forall x :: x in r <==> x in multiset(kept);
    r
  }

  class JudgmentTable {
    var rows: seq<Row>

    /** The table never holds two rows the UNIQUE rule forbids together. */
    ghost predicate Valid()
      reads this
    {
      UniqueKeys(rows)
    }

    /** `init_db` on a new database file: an empty table. */
    constructor ()
      ensures rows == [] && Valid()
    {
      rows := [];
    }

    /** `insert_records`: nothing for an empty batch; otherwise the batch is
        deduplicated on `(doc_id, judgment_date)` keeping the first record of
        each key, and each remaining record goes through INSERT OR IGNORE. */
    method InsertRecords(records: seq<Record>, now: string)
      requires Valid()
      modifies this
      ensures Valid()
      ensures rows == InsertAll(old(rows), FirstSeen(records, RecordKey), now)
      ensures records == [] ==> rows == old(rows)
    {
      if records == [] {
        return;
      }
      var unique := DedupRecords(records);
      for i := 0 to |unique|
        invariant rows == InsertAll(old(rows), unique[..i], now)
        invariant Valid()
      {
        InsertAllStep(old(rows), unique, now, i);
        rows := InsertOrIgnore(rows, RowOf(unique[i], now));
      }
      assert unique[..|unique|] == unique;
    }

    /** `get_all`: every row, newest judgment date first, undated rows last. */
    function GetAll(): (r: seq<Record>)
      reads this
      ensures multiset(r) == multiset(SelectAll(rows))
      ensures SortedBy(r, DateDesc)
    {
      DateDescTotal();
      SortSorted(SelectAll(rows), DateDesc);
      Sort(SelectAll(rows), DateDesc)
    }

    /** `get_last_30_days`: the dated rows on or after the day 30 days before
        `today`, newest first; `None` where computing that day overflows. */
    function GetLast30Days(today: Date): (r: Option<seq<Record>>)
      requires IsValid(today)
      reads this
      ensures r.None? <==> DaysBefore(today, 30).None?
      ensures r.Some? ==> SortedBy(r.value, DateDesc)
      ensures r.Some? ==> var inWindow := InWindow(IsoDate(DaysBefore(today, 30).value));
        forall x :: multiset(r.value)[x] == (if inWindow(x) then multiset(SelectAll(rows))[x] else 0)
      ensures r.Some? ==> forall x :: x in r.value <==>
        x in SelectAll(rows) && x.judgmentDate.Some?
        && LessEq(IsoDate(DaysBefore(today, 30).value), x.judgmentDate.value)
    {
      match DaysBefore(today, 30)
      case None => None
      case Some(start) =>
        Some(Window(SelectAll(rows), IsoDate(start)))
    }
  }
}

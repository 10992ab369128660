# Supreme Court judgment scraper: a Dafny model of its core

The system searches Indian Kanoon for Supreme Court judgments that match a keyword. Its pipeline has three stages:

1. The scraper reads the anchors of the results page and turns each judgment link into a record. A record holds the keyword, the title, the case name, the day, month and year, an ISO judgment date and a canonical link.
2. The records are stored in a SQLite table. The table has a `UNIQUE(doc_id, judgment_date) ON CONFLICT IGNORE` rule, and queries read the rows back newest first.
3. The records are exported to a spreadsheet. The export deduplicates, sorts and drops empty rows, and turns the link column into hyperlinks.

This project models those three stages in Dafny and proves what each promises.

Modules:

- `Wrappers` (wrappers.dfy): `Option` (Python's `None`) and `Result` (an operation that raises).
- `Text` (text.dfy): ASCII whitespace, `str.strip`, `str.lower`, decimal digits, `str(n)`, zero padding. It also has the code-point order on strings that Python's `<` and SQLite's BINARY collation share.
- `Calendar` (calendar.dfy): Gregorian dates as `datetime.date` handles them. This covers English month names for `%B`, `isoformat()`, and `date - timedelta(days = n)`.
- `PercentEncoding` (percent.dfy): UTF-8 and `urllib.parse.quote`, with a decoder used to state the round trip.
- `Records` (records.dfy): the record dict. A key that is missing and a key holding `None` are the same, as `.get` sees them.
- `Scraper` (scraper.dfy):
  - the title regex and `strptime` check of `parse_case_and_date`;
  - `doc_id_from_href`;
  - `build_search_url`;
  - the anchor loop of `scrape_keyword`, as a method over the anchors.
  - The module `ScraperExamples` works these functions on concrete inputs.
- `Dedup` (dedup.dfy): keep-the-first deduplication by a key. Both `insert_records` and `drop_duplicates(keep="first")` use it.
- `Sorting` (sorting.dfy): a stable insertion sort by a total preorder, and an order-keeping filter.
- `Db` (db.dfy):
  - the `judgments` table, as a class `JudgmentTable` whose field `rows` is the table contents;
  - `insert_records` as a method: a dedup loop, then INSERT OR IGNORE of each row;
  - the two queries.
- `Export` (export.dfy): the frame pipeline of `export_records_to_excel` as a function, and the hyperlink loop as a method.

Behaviour of the code worth knowing:

- Records without a `doc_id` and with the same judgment date are merged by the store's dedup. The dedup key is the tuple `(r.get("doc_id"), r.get("judgment_date"))`, and `None == None` holds in Python (db.py:34-35).
- The scraper never puts `doc_id` into a record (scraper.py:76-91). So in the running pipeline the store's dedup keeps one record per distinct judgment date in each batch, undated records included. SQLite's rule never rejects these rows, because their `doc_id` is NULL. The lemma `Db.ScrapedBatch` states this behaviour.
- `strptime("%d %B %Y")` is applied to the text `f"{day} {month} {year}"`. `%Y` reads exactly four digits and the year is printed without padding. So an ISO date is produced only for years 1000 to 9999, not for every year from 1.
- The export sorts on `pd.to_datetime(..., errors="coerce")`. The model assumes pandas 2.x, where `to_datetime` gives `datetime64[ns]`. A nanosecond `Timestamp` holds only days from 1677-09-22 to 2262-04-11, so an earlier or later judgment date, which the title parser accepts, sorts with the missing dates (`Export.EarlyDateSortsAsMissing`). pandas 3 may infer a coarser unit, under which such dates would sort by date.

## Model

| member | source | states |
|---|---|---|
| Text.Lower | scraper.py:67 | Each character is lowered on its own, and the length is unchanged. |
| Text.LowerIdempotent | scraper.py:67 | Lowering already-lowered text changes nothing. |
| Text.LowerIgnoresCase | scraper.py:67 | Texts that differ only in letter case lower to the same text. |
| Text.DigitsValue | scraper.py:22-24 | `int()` of a digit string with `w` digits is below `10^w`. |
| Text.NumberText | scraper.py:26 | `str(n)` is non-empty decimal digits that read back as `n`, with a leading zero only for 0 itself. |
| Text.PadDigits | scraper.py:27 | A digit string is the zero-padded text of its own value at its own width. |
| Text.Strip | scraper.py:61 | The result is the input with its leading and trailing whitespace removed. It is empty exactly when the input is all whitespace; otherwise it starts and ends with a non-space character. |
| Text.StripIdempotent | scraper.py:18 | Stripping already-stripped text changes nothing, so `parse_case_and_date`'s second strip is harmless. |
| Text.NumberTextLength | scraper.py:26 | `str(n)` has at most `w` digits exactly when `n < 10^w`. |
| Text.DigitsValuePad | scraper.py:27 | Reading back a zero-padded number gives the number. |
| Text.LessTotal | db.py:65 | Any two distinct strings are ordered one way or the other by code-point comparison. |
| Text.LessTransitive | db.py:65 | Code-point order on strings is transitive. |
| Text.PadLess | db.py:78 | Zero-padded numbers of one width compare as text exactly as they compare as numbers. |
| Calendar.DaysInMonth | scraper.py:26 | Months have 28 to 31 days, and 29 exactly for February of a Gregorian leap year. |
| Calendar.MonthNumber | scraper.py:26 | `%B` recognises exactly the twelve English month names in any letter case, and yields the matching month number. |
| Calendar.MonthNumberLower | scraper.py:26 | A month name and its lowered spelling name the same month. |
| Calendar.IsoDate | scraper.py:27 | `isoformat()` text has 10 characters with dashes at positions 4 and 7. The year, month and day read back from it. |
| Calendar.IsoOrderIsChronological | db.py:78 | For valid dates, text order of ISO strings is chronological order, and equal text means the same date. |
| Calendar.PrevDay | db.py:72 | The day before a date is the latest valid date that precedes it. There is none only before 0001-01-01. |
| Calendar.Ordinal | db.py:72 | `toordinal()`: the day number is at least 1, and it is 1 exactly on 0001-01-01. |
| Calendar.OrdinalOrder | db.py:72 | Day numbers order dates as the calendar does, and equal day numbers mean the same date, so a date is fixed by its day number. |
| Calendar.DaysBefore | db.py:72 | `today - timedelta(days=n)` is the valid date whose day number is n less than today's. It overflows (None) exactly when n is at least today's day number, that is when the result would precede 0001-01-01. |
| Calendar.ParseIso | export.py:30 | Text that reads back as a date is exactly that date's ISO text. |
| Calendar.ParseIsoRoundTrip | export.py:30 | Every date's ISO text parses back to the date. |
| PercentEncoding.Quote | scraper.py:38 | `quote` produces only kept characters and `%XX` triples. No triple encodes a letter, a digit, `_.-~` or `/`. Percent-decoding the output gives back the keyword's UTF-8 bytes. |
| PercentEncoding.CanonicalUnique | scraper.py:38 | Text in that canonical form that decodes to given bytes is exactly `quote`'s output for them, so the two properties above fix the encoding. |
| Scraper.ScanTailSound | scraper.py:18 | A split found by greedy scanning is a match of `\s+on\s+(\d{1,2})\s+([A-Za-z]+),\s+(\d{4})` to the end of the text. |
| Scraper.ScanTailComplete | scraper.py:18 | The tail pattern splits a text in at most one way, and the scan finds it whenever one exists. |
| Scraper.TailRuns | scraper.py:18 | In any match of the tail pattern every run of spaces, digits or letters is as long as it can be, since the character after it cannot continue it. |
| Scraper.FindSplit | scraper.py:18 | The search from group-1 length k finds the shortest case-name prefix at or after k that lets the tail match. It reports none only when no such prefix exists. |
| Scraper.MatchIsShortest | scraper.py:18 | A split with the shortest case name is the one `re.match` finds. |
| Scraper.MatchTitle | scraper.py:18 | `re.match` with the lazy `(.*?)` finds a split exactly when one exists, and it is the split with the shortest case name. |
| Scraper.CaseNamePresent | scraper.py:18-21 | In a stripped title the matched case name is non-empty after stripping. |
| Scraper.DayFieldRange | scraper.py:26 | `%d` accepts `str(day)` exactly for days 1 to 31. |
| Scraper.YearFieldRange | scraper.py:26 | `%Y` accepts `str(year)` exactly for years 1000 to 9999. |
| Scraper.Strptime | scraper.py:26 | Any date `strptime` returns is a valid calendar date. |
| Scraper.StrptimeAccepts | scraper.py:25-29 | A date results exactly when the day is 1-31 and within the month, the month is a full English name, and the year has four digits. The date is then the one the three fields name. |
| Scraper.IsoOf | scraper.py:25-29 | `iso_date` is set exactly when `strptime` succeeds, and is then the ISO text of that date. |
| Scraper.CaseGroup | scraper.py:18-21 | Group 1 is the text before the split. |
| Scraper.DayGroup | scraper.py:18-22 | Group 2 is one or two digits. |
| Scraper.MonthGroup | scraper.py:18-23 | Group 3 is non-empty letters. |
| Scraper.YearGroup | scraper.py:18-24 | Group 4 is four digits. |
| Scraper.Groups | scraper.py:21-29 | From a match, the case name is group 1 stripped, the day and year are `int()` of groups 2 and 4, and the month is group 3 in its raw spelling. The case name is non-empty and stripped, the day is below 100, the year below 10000, and the ISO date is that of the three fields. |
| Scraper.ParseCaseAndDate | scraper.py:12-30 | None exactly when the stripped text has no match of the title pattern. Otherwise the result is the groups of the match with the shortest case name, the one `re.match` finds, with an ISO date exactly when the fields name a real date. |
| ScraperExamples.TitleExample | scraper.py:14-15 | "Foo vs Bar on 10 December, 2025" parses to ("Foo vs Bar", 10, "December", 2025, "2025-12-10"). |
| ScraperExamples.StrptimeRejects | scraper.py:25-29 | These inputs get no ISO date: 31 February, a three-digit year, and day 0. |
| Scraper.LeftmostMatch | scraper.py:34 | `re.search` finds the leftmost position where the prefix is followed by a digit, or reports that none exists. |
| Scraper.DigitGroup | scraper.py:34-35 | `(\d+)` takes the whole run of digits after the prefix: non-empty, all digits, followed by a non-digit or the end. |
| Scraper.DocIdFromHref | scraper.py:32-35 | The result is None or a non-empty all-digit string. It is None exactly when neither "/docfragment/" nor "/doc/" is followed by a digit. The leftmost "/docfragment/" match takes precedence over any "/doc/" match. |
| ScraperExamples.DocIdExample | scraper.py:32-35 | "/doc/12345/" yields "12345". |
| ScraperExamples.FragmentIdExample | scraper.py:34 | "/docfragment/777/?q=/doc/9" yields "777": the fragment form wins. |
| ScraperExamples.NoDocIdExample | scraper.py:34-35 | "/doc/abc/" yields None. |
| Scraper.BuildSearchUrl | scraper.py:37-40 | The URL is the fixed search prefix, then the percent-encoded keyword, then the fixed Supreme Court filter. The middle part is in `quote`'s canonical form and decodes back to the keyword's UTF-8 bytes, so it is `quote`'s output. |
| Scraper.AnchorRecord | scraper.py:76-91 | A kept anchor gives a record with the search keyword and a link. Its `doc_id` is absent, because the loop never sets it. |
| Scraper.AnchorKept | scraper.py:61-74 | An anchor is kept exactly when four things hold. Its stripped text and its href are non-empty. The text is not "full document" in any letter case. The href starts with "/docfragment" or "/doc/", and a doc id is found in it. |
| Scraper.AnchorFields | scraper.py:70-91 | The record's title is the stripped text, and its link is `https://indiankanoon.org/doc/<id>/`. Case name, day, month, year and date are the parsed title's values. They are all absent when the title does not parse. |
| Scraper.Candidates | scraper.py:60-93 | The records the anchors yield, in anchor order. Each has the keyword and a link, and none has a doc id. |
| Scraper.CollectFrom | scraper.py:60-93 | Every record the loop collects is the one some anchor gives. |
| Scraper.CollectAppend | scraper.py:60-93 | Collecting over two runs of anchors, one after the other, gives the records of the first run followed by those of the second. |
| Scraper.CollectPrefix | scraper.py:60-93 | Reading more anchors only appends records. |
| Scraper.Limit | scraper.py:94-95 | The number of records `max_links` lets through is `max_links` when it is at least 1, and 1 otherwise. |
| Scraper.CollectUpTo | scraper.py:59-95 | The loop, for any record function, returns the first `Limit(max_links)` values it yields, in order, and all of them when there are fewer. |
| Scraper.StopAtLimit | scraper.py:94-95 | Stopping once the limit is reached, or at the end of the anchors, leaves exactly the records the limit lets through. |
| Scraper.ScrapeKeyword | scraper.py:59-95 | The loop returns the first `Limit(max_links)` records the anchors yield, in anchor order. |
| Dedup.FirstSeen | db.py:31-37 | Never longer than the input, and the first element is always kept. |
| Dedup.FirstSeenOrigins | db.py:31-37 | The dedup output is exactly the first element of each key, in input order. |
| Dedup.FirstSeenDistinct | db.py:31-37 | No two kept elements share a key. A missing value equals a missing value. |
| Dedup.FirstSeenKeys | db.py:31-37 | Every key of the input is represented in the output, and no other key. |
| Dedup.FirstSeenSubMultiset | export.py:27 | The dedup keeps only input elements, each at most as often as it occurs. |
| Dedup.DistinctSubMultiset | export.py:27-40 | Reordering some of a key-distinct sequence keeps its keys distinct. |
| Sorting.Sort | db.py:65 | Sorting returns a permutation of its input. |
| Sorting.SortSorted | db.py:65 | Under a total preorder, the sorted output is in order. |
| Sorting.FilterMultiset | db.py:78 | The filter keeps each element that passes as many times as it occurs in the input, and drops every other element. |
| Sorting.FilterCons | db.py:78 | Filtering one more element in front adds it in front exactly when it passes. |
| Sorting.InsertTies | export.py:33-37 | Inserting an element puts it before the elements ranked equal to it and leaves their order alone. |
| Sorting.SortStable | export.py:33-37 | The sort is stable: the elements ranked equal to any element come out in their input order. |
| Sorting.SortedFilter | export.py:40 | Filtering a sorted sequence leaves it sorted. |
| Db.RowOf | db.py:42-55 | The stored row carries the record's `doc_id` and `judgment_date`. |
| Db.Conflicts | db.py:16 | A row with a NULL `doc_id` or `judgment_date` is never blocked. |
| Db.ConflictsSymmetric | db.py:16 | The UNIQUE rule does not depend on which row came first. A row with a NULL key column does not even conflict with a copy of itself. |
| Db.InsertOrIgnore | db.py:16 | A row is appended unless an existing row with both key columns set has the same key; otherwise nothing changes. A row with a NULL key column is always appended. The UNIQUE rule is preserved. |
| Db.InsertAll | db.py:41-55 | Inserting a batch keeps the existing rows as a prefix. It adds at most one row per record and preserves the UNIQUE rule. |
| Db.DedupRecords | db.py:30-37 | The `seen`-set loop returns the first record of each `(doc_id, judgment_date)` key, in order. |
| Db.JudgmentTable.constructor | db.py:21-24 | A new table is empty and satisfies the UNIQUE rule. |
| Db.JudgmentTable.InsertRecords | db.py:26-57 | The new rows are the old rows after INSERT OR IGNORE of the deduplicated batch. An empty batch leaves the table unchanged, and the UNIQUE rule is kept. |
| Db.BlockedAfterInsert | db.py:16 | Once a row with both key columns set has been offered to the table, the table holds a row that conflicts with it. |
| Db.BlockedGrows | db.py:16 | A row the table keeps out stays kept out as more rows are inserted. |
| Db.InsertAllBlocks | db.py:16 | After a batch is inserted, every record of it with both key columns set has a row that blocks it. |
| Db.InsertAllBlockedUnchanged | db.py:43 | A batch whose every row is blocked leaves the table unchanged. |
| Db.ReinsertUnchanged | db.py:42-45 | Inserting a batch again by a later `insert_records` call, which stamps a different `datetime('now')`, changes nothing when all its records have `doc_id` and `judgment_date`. |
| Db.NullDocIdAllInserted | db.py:16 | Records without `doc_id` are never rejected: each adds its row. |
| Db.ScrapedBatch | db.py:31-37 | For scraper records, which have no `doc_id`, the kept records have pairwise different judgment dates and every date of the batch is kept. All of them are stored, and storing the batch again by a later call stores them again, with the later timestamp. |
| Db.DateDescTotal | db.py:65 | `ORDER BY judgment_date DESC` with NULLs last is a total preorder. |
| Db.Selected | db.py:63 | The selected dict carries the row's `doc_id` and `judgment_date` and has no title. |
| Db.ReadBack | db.py:42-55 | A stored record reads back through the SELECT as itself, less its title, which is not a column. |
| Db.Window | db.py:75-80 | The query keeps every record dated on or after the start, as many times as it occurs, and no other, newest first. |
| Db.WindowIsChronological | db.py:72-78 | For ISO dates, the text test `judgment_date >= start` is "not before the start date". |
| Db.JudgmentTable.GetAll | db.py:59-68 | Every row is returned (a permutation of the table), newest date first, undated rows last. |
| Db.JudgmentTable.GetLast30Days | db.py:70-82 | The result holds each dated row whose date is not below the ISO text of today minus 30 days, as many times as the table holds it, and no other row, newest first. It is None only when that subtraction overflows. |
| Export.Project | export.py:24 | `df[REQUIRED_COLS]` keeps the keyword, the link and the judgment date. |
| Export.ProjectDropsDocId | export.py:24 | Two records give the same sheet row exactly when they agree on everything but `doc_id`. |
| Export.SortDateOfIso | export.py:30 | The `_sort_date` of a day's ISO text is that text when a nanosecond `Timestamp` (pandas 2.x) holds the day (1677-09-22 to 2262-04-11), and missing otherwise. |
| Export.SortDateChronological | export.py:30-37 | For days a `Timestamp` holds, the sort puts a day before another exactly when it is not earlier. |
| Export.EarlyDateSortsAsMissing | export.py:30 | Under pandas 2.x's nanosecond unit, the date of a title from 1600 sorts with the missing dates. |
| Export.ExportOrderTotal | export.py:33-37 | Keyword ascending with missing keywords last, then date descending with missing dates last, is a total preorder. |
| Export.ExportRows | export.py:16-40 | An empty input fails with "No records to export". Otherwise no output row has all eight columns empty. |
| Export.ExportSorted | export.py:30-37 | Output is sorted by keyword ascending, missing last. Within a keyword it is sorted by `_sort_date` descending, dates a `Timestamp` cannot hold and missing ones last. |
| Export.ExportFromInput | export.py:20-40 | Output rows are projected input rows, reordered, none invented or repeated beyond the input. |
| Export.ExportDistinct | export.py:27 | No two output rows share `(keyword, link)`, a missing value equal to a missing value. |
| Export.ExportOnlyFirsts | export.py:27 | Every output row is the first input row of its `(keyword, link)` pair. |
| Export.ExportAllFirsts | export.py:27-40 | The first input row of every `(keyword, link)` pair appears in the output, unless all its columns are empty. |
| Export.LinkCellsExactly | export.py:53-56 | A link cell is written exactly for the rows whose link is set and not blank. It goes at sheet row index+1 in the link column, with the link as URL. |
| Export.LinkCellsOrdered | export.py:53-56 | Link cells come in row order, at most one per row. |
| Export.HyperlinkCells | export.py:50-56 | The loop writes exactly the link cells above, in row order. |
| Export.LinkColumnIsLink | export.py:50 | Column 7 of the eight required columns is "link". |

## Left out

- The browser and the network: Playwright, page loading, `inner_text` and `get_attribute`. Their product is the input sequence of anchors, each with its inner text and optional `href`.
- The command-line and JSON entry point of the scraper, the Streamlit application and the mail sender: these are process and UI plumbing.
- SQLite connections and the AUTOINCREMENT `id` column.
- `datetime('now')`: it is computed per row, but the model takes one `now` text for each `insert_records` call. Separate calls get separate texts (`Db.ReinsertUnchanged`, `Db.ScrapedBatch`).
- `date.today()` is a parameter.
- Unicode: whitespace, digits, letters and case folding are ASCII only. The `\s`, `\d`, `str.strip` and `str.lower` of the code also accept non-ASCII characters. `%B` is modelled for English month names only.
- Scraper.ScrapeKeyword: ties to the anchors' order but does not model the asynchronous calls in between.
- Db.JudgmentTable.GetAll: rows with equal dates keep insertion order (`Sorting.SortStable`). SQLite leaves their order unspecified.
- Db.JudgmentTable.GetLast30Days: same as GetAll for rows with equal dates.
- Export.ExportRows: the `Timestamp` range is that of pandas 2.x's default `datetime64[ns]`. The source pins no pandas version, and under a coarser unit that pandas 3 may infer, every date from year 1000 on would sort by date.
- Export.ExportRows: `_sort_date` keeps an ISO date of a day a `Timestamp` holds and treats every other text as missing. pandas would also parse some non-ISO date layouts. Stored dates are always ISO text or NULL, so this does not arise in the pipeline.
- Export.ExportRows: integers are kept as integers. pandas turns a day or year column with a missing value into floats.
- The loop that adds missing columns as `NA` (export.py:21-23) is not a separate step. A record in this model already has every field, with absent ones `None`, so that loop changes nothing.
- Writing the workbook: cell formats, column widths, and the header and cell contents.

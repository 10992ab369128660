/** The pure parts of the scraper: reading a judgment title, extracting the
    document id from a link, building the search URL, and the loop that turns
    the anchors of a results page into records. */
module Scraper {
  import opened Wrappers
  import opened Text
  import opened Calendar
  import opened PercentEncoding
  import opened Records

  const SearchBase: string := "https://indiankanoon.org/search/"
  const QueryPrefix: string := SearchBase + "?formInput="
  /** The filter appended to every keyword: Supreme Court judgments, most recent first. */
  const QuerySuffix: string := "++doctypes%3A+supremecourt+sortby%3Amostrecent"
  const DocLinkBase: string := "https://indiankanoon.org/doc/"

  // ---------------------------------------------------------------------------
  // Title parsing: ^(.*?)\s+on\s+(\d{1,2})\s+([A-Za-z]+),\s+(\d{4})$
  // ---------------------------------------------------------------------------

  /** Boundaries inside the part of a title that follows the case name. */
  datatype TailSplit = TailSplit(a: nat, b: nat, c: nat, d: nat, e: nat, f: nat)

  /** `t` matches `\s+on\s+(\d{1,2})\s+([A-Za-z]+),\s+(\d{4})` to its end, with
      spaces in `t[..a]`, "on" at `a`, spaces up to `b`, the day in `t[b..c]`,
      spaces up to `d`, the month in `t[d..e]`, a comma at `e`, spaces up to
      `f` and the year in `t[f..]`. */
  predicate TailShape(t: string, p: TailSplit) {
    0 < p.a && p.a + 2 < p.b && p.b < p.c <= p.b + 2 && p.c < p.d && p.d < p.e
    && p.e + 1 < p.f && p.f + 4 == |t|
    && AllSpace(t[..p.a]) && t[p.a..p.a + 2] == "on" && AllSpace(t[p.a + 2..p.b])
    && AllDigits(t[p.b..p.c]) && AllSpace(t[p.c..p.d]) && AllLetters(t[p.d..p.e])
    && t[p.e] == ',' && AllSpace(t[p.e + 1..p.f]) && AllDigits(t[p.f..])
  }

  /** Matches `t` against the tail of the title pattern. Every run is taken
      whole: the character after a run of spaces must be a letter or digit,
      after the day a space, after the month a comma, so no shorter run can
      lead to a match. */
  function ScanTail(t: string): Option<TailSplit> {
    var a := RunEnd(t, 0, IsSpace);
    if a == 0 || a + 2 > |t| || t[a..a + 2] != "on" then None
    else
      var b := RunEnd(t, a + 2, IsSpace);
      var c := RunEnd(t, b, IsDigit);
      if b == a + 2 || c == b || c > b + 2 then None
      else
        var d := RunEnd(t, c, IsSpace);
        var e := RunEnd(t, d, IsLetter);
        if d == c || e == d || e == |t| || t[e] != ',' then None
        else
          var f := RunEnd(t, e + 1, IsSpace);
          if f == e + 1 || f + 4 != |t| || !AllDigits(t[f..]) then None
          else Some(TailSplit(a, b, c, d, e, f))
  }

  /** A split found by the scan is a match of the tail pattern. */
  lemma ScanTailSound(t: string)
    ensures ScanTail(t).Some? ==> TailShape(t, ScanTail(t).value)
  {
    if ScanTail(t).Some? {
      var p := ScanTail(t).value;
      assert p.a == RunEnd(t, 0, IsSpace) && p.b == RunEnd(t, p.a + 2, IsSpace);
      assert p.c == RunEnd(t, p.b, IsDigit) && p.d == RunEnd(t, p.c, IsSpace);
      assert p.e == RunEnd(t, p.d, IsLetter) && p.f == RunEnd(t, p.e + 1, IsSpace);
      SpaceRun(t, 0);
      SpaceRun(t, p.a + 2);
      DigitRun(t, p.b);
      SpaceRun(t, p.c);
      LetterRun(t, p.d);
      SpaceRun(t, p.e + 1);
    }
  }

  /** What a greedy run of spaces from `i` consumes is all spaces. */
  lemma SpaceRun(t: string, i: nat)
    requires i <= |t|
    ensures AllSpace(t[i..RunEnd(t, i, IsSpace)])
  {
    var j := RunEnd(t, i, IsSpace);
    forall k | 0 <= k < j - i ensures IsSpace(t[i..j][k]) {
      assert t[i..j][k] == t[i + k];
    }
  }

  lemma DigitRun(t: string, i: nat)
    requires i <= |t|
    ensures AllDigits(t[i..RunEnd(t, i, IsDigit)])
  {
    var j := RunEnd(t, i, IsDigit);
    forall k | 0 <= k < j - i ensures IsDigit(t[i..j][k]) {
      assert t[i..j][k] == t[i + k];
    }
  }

  lemma LetterRun(t: string, i: nat)
    requires i <= |t|
    ensures AllLetters(t[i..RunEnd(t, i, IsLetter)])
  {
    var j := RunEnd(t, i, IsLetter);
    forall k | 0 <= k < j - i ensures IsLetter(t[i..j][k]) {
      assert t[i..j][k] == t[i + k];
    }
  }

  lemma SpaceRunEnd(t: string, i: nat, j: nat)
    requires i <= j <= |t| && AllSpace(t[i..j]) && (j < |t| ==> !IsSpace(t[j]))
    ensures RunEnd(t, i, IsSpace) == j
  {
    forall k | i <= k < j ensures IsSpace(t[k]) { assert t[k] == t[i..j][k - i]; }
    RunEndAt(t, i, j, IsSpace);
  }

  lemma DigitRunEnd(t: string, i: nat, j: nat)
    requires i <= j <= |t| && AllDigits(t[i..j]) && (j < |t| ==> !IsDigit(t[j]))
    ensures RunEnd(t, i, IsDigit) == j
  {
    forall k | i <= k < j ensures IsDigit(t[k]) { assert t[k] == t[i..j][k - i]; }
    RunEndAt(t, i, j, IsDigit);
  }

  lemma LetterRunEnd(t: string, i: nat, j: nat)
    requires i <= j <= |t| && AllLetters(t[i..j]) && (j < |t| ==> !IsLetter(t[j]))
    ensures RunEnd(t, i, IsLetter) == j
  {
    forall k | i <= k < j ensures IsLetter(t[k]) { assert t[k] == t[i..j][k - i]; }
    RunEndAt(t, i, j, IsLetter);
  }

  /** The tail pattern splits a text in at most one way, and `ScanTail` finds it. */
  lemma ScanTailComplete(t: string, p: TailSplit)
    requires TailShape(t, p)
    ensures ScanTail(t) == Some(p)
  {
    TailRuns(t, p);
  }

  /** Each boundary of a tail match is where the greedy run before it stops. */
  lemma TailRuns(t: string, p: TailSplit)
    requires TailShape(t, p)
    ensures RunEnd(t, 0, IsSpace) == p.a && RunEnd(t, p.a + 2, IsSpace) == p.b
    ensures RunEnd(t, p.b, IsDigit) == p.c && RunEnd(t, p.c, IsSpace) == p.d
    ensures RunEnd(t, p.d, IsLetter) == p.e && RunEnd(t, p.e + 1, IsSpace) == p.f
  {
    assert t[p.a] == t[p.a..p.a + 2][0];
    SpaceRunEnd(t, 0, p.a);
    assert t[p.b] == t[p.b..p.c][0];
    SpaceRunEnd(t, p.a + 2, p.b);
    assert t[p.c] == t[p.c..p.d][0];
    DigitRunEnd(t, p.b, p.c);
    assert t[p.d] == t[p.d..p.e][0];
    SpaceRunEnd(t, p.c, p.d);
    LetterRunEnd(t, p.d, p.e);
    assert t[p.f] == t[p.f..][0];
    SpaceRunEnd(t, p.e + 1, p.f);
  }

  /** Where a whole title splits: the case name is `s[..k]` and the rest
      matches the tail pattern. */
  datatype TitleSplit = TitleSplit(k: nat, tail: TailSplit)

  /** `s` matches the title pattern with group 1 = `s[..m.k]`; `.` matches any
      character but a line feed. */
  predicate SplitsAt(s: string, m: TitleSplit) {
    m.k <= |s| && (forall i :: 0 <= i < m.k ==> s[i] != '\n') && TailShape(s[m.k..], m.tail)
  }

  /** No split puts the case name exactly at `s[..k]` when the tail scan fails there. */
  lemma NoSplitAt(s: string, k: nat)
    requires k <= |s| && ScanTail(s[k..]).None?
    ensures forall m :: SplitsAt(s, m) ==> m.k != k
  {
    forall m | SplitsAt(s, m) && m.k == k
      ensures false
    {
      ScanTailComplete(s[k..], m.tail);
    }
  }

  /** The search for the shortest group 1 from length `k` on. */
  function FindSplit(s: string, k: nat): (r: Option<TitleSplit>)
    requires k <= |s| && forall i :: 0 <= i < k ==> s[i] != '\n'
    ensures r.Some? ==> SplitsAt(s, r.value) && k <= r.value.k
    ensures r.Some? ==> forall m :: SplitsAt(s, m) && k <= m.k ==> r.value.k <= m.k
    ensures r.None? ==> forall m :: SplitsAt(s, m) ==> m.k < k
    decreases |s| - k
  {
    match ScanTail(s[k..])
    case Some(p) =>
      ScanTailSound(s[k..]);
      Some(TitleSplit(k, p))
    case None =>
      NoSplitAt(s, k);
      if k < |s| && s[k] != '\n' then FindSplit(s, k + 1) else None
  }

  /** `re.match` of the title pattern: the lazy `(.*?)` makes the case name
      the shortest one that lets the rest match. */
  function MatchTitle(s: string): (r: Option<TitleSplit>)
    ensures r.Some? ==> SplitsAt(s, r.value)
    ensures r.Some? ==> forall m :: SplitsAt(s, m) ==> r.value.k <= m.k
    ensures r.None? <==> forall m :: !SplitsAt(s, m)
  {
    FindSplit(s, 0)
  }

  /** `m` is a split of `s` with the shortest case name. */
  ghost predicate Shortest(s: string, m: TitleSplit) {
    SplitsAt(s, m) && forall m' :: SplitsAt(s, m') ==> m.k <= m'.k
  }

  /** A split with the shortest case name is the one `MatchTitle` finds. */
  lemma MatchIsShortest(s: string, m: TitleSplit)
    requires Shortest(s, m)
    ensures MatchTitle(s) == Some(m)
  {
    var r := MatchTitle(s).value;
    assert r.k == m.k;
    ScanTailComplete(s[m.k..], m.tail);
    ScanTailComplete(s[m.k..], r.tail);
  }

  /** In a stripped title the case name is never empty: the tail starts with
      a space, which cannot be the first character. */
  lemma CaseNamePresent(s: string, m: TitleSplit)
    requires SplitsAt(s, m) && (s == [] || !IsSpace(s[0]))
    ensures 0 < m.k && Strip(s[..m.k]) != []
  {
    assert s[m.k] == s[m.k..][..m.tail.a][0];
    assert s[..m.k][0] == s[0];
  }

  /** The five values `parse_case_and_date` returns. */
  datatype ParsedTitle = ParsedTitle(caseName: string, day: nat, month: string, year: nat, isoDate: Option<string>)

  /** Whether the `%d` directive reads `t` whole: `3[01]|[12]\d|0[1-9]|[1-9]`
      (a leading space is also allowed, but `str(n)` never has one). */
  predicate DayFieldAccepts(t: string) {
    (|t| == 1 && '1' <= t[0] <= '9')
    || (|t| == 2 && (t[0] == '1' || t[0] == '2') && IsDigit(t[1]))
    || (|t| == 2 && t[0] == '3' && (t[1] == '0' || t[1] == '1'))
    || (|t| == 2 && t[0] == '0' && '1' <= t[1] <= '9')
  }

  /** `%d` accepts the unpadded text of `day` exactly for days 1 to 31. */
  lemma DayFieldRange(day: nat)
    ensures DayFieldAccepts(NumberText(day)) <==> 1 <= day <= 31
  {
    var t := NumberText(day);
    if day < 10 {
      assert t == [DigitChar(day)];
    } else if day < 100 {
      var tens, units := day / 10, day % 10;
      assert NumberText(tens) == [DigitChar(tens)];
      assert t == NumberText(tens) + [DigitChar(units)];
      assert 1 <= tens <= 9;
      assert 10 <= day <= 31 <==> tens <= 2 || (tens == 3 && units <= 1);
    } else {
      NumberTextLength(day, 2);
    }
  }

  /** `%Y` reads exactly four digits, so the unpadded year text passes only
      for years 1000 to 9999. */
  lemma YearFieldRange(year: nat)
    ensures |NumberText(year)| == 4 <==> 1000 <= year <= 9999
  {
    NumberTextLength(year, 3);
    NumberTextLength(year, 4);
  }

  /** `datetime.strptime(f"{day} {month} {year}", "%d %B %Y").date()`, or
      `None` where it raises ValueError. */
  function Strptime(day: nat, month: string, year: nat): (r: Option<Date>)
    ensures r.Some? ==> IsValid(r.value)
  {
    if !DayFieldAccepts(NumberText(day)) || |NumberText(year)| != 4 then None
    else match MonthNumber(month)
      case None => None
      case Some(m) =>
        YearFieldRange(year);
        if day <= DaysInMonth(year, m) then Some(Date(year, m, day)) else None
  }

  /** The date `strptime` accepts is the one the fields name, and it accepts
      one exactly when the day is 1 to 31 and within the month, the month is a
      full English name, and the year has four digits. */
  lemma StrptimeAccepts(day: nat, month: string, year: nat)
    ensures var r := Strptime(day, month, year);
      r.Some? <==> (1 <= day <= 31 && 1000 <= year <= 9999 && MonthNumber(month).Some?
                    && day <= DaysInMonth(year, MonthNumber(month).value))
    ensures var r := Strptime(day, month, year);
      r.Some? ==> r.value == Date(year, MonthNumber(month).value, day)
  {
    DayFieldRange(day);
    YearFieldRange(year);
  }

  /** The `try` block of `parse_case_and_date`: the ISO text of the date the
      three fields name, `None` where `strptime` raises. */
  function IsoOf(day: nat, month: string, year: nat): (r: Option<string>)
    ensures r.Some? <==> Strptime(day, month, year).Some?
    ensures r.Some? ==> r.value == IsoDate(Strptime(day, month, year).value)
  {
    match Strptime(day, month, year)
    case None => None
    case Some(dt) => Some(IsoDate(dt))
  }

  /** Group 1 of a split: the case name as matched. */
  function CaseGroup(s: string, m: TitleSplit): (g: string)
    requires SplitsAt(s, m)
    ensures |g| == m.k
  {
    s[..m.k]
  }

  /** Group 2: the day's one or two digits. */
  function DayGroup(s: string, m: TitleSplit): (g: string)
    requires SplitsAt(s, m)
    ensures 1 <= |g| <= 2 && AllDigits(g)
  {
    s[m.k..][m.tail.b..m.tail.c]
  }

  /** Group 3: the month's letters. */
  function MonthGroup(s: string, m: TitleSplit): (g: string)
    requires SplitsAt(s, m)
    ensures g != [] && AllLetters(g)
  {
    s[m.k..][m.tail.d..m.tail.e]
  }

  /** Group 4: the year's four digits. */
  function YearGroup(s: string, m: TitleSplit): (g: string)
    requires SplitsAt(s, m)
    ensures |g| == 4 && AllDigits(g)
  {
    s[m.k..][m.tail.f..]
  }

  /** The values read from a matched title: group 1 stripped, `int()` of
      groups 2 and 4, and group 3 in its raw spelling (it is letters only, so
      its `.strip()` changes nothing). */
  function Groups(s: string, m: TitleSplit): (r: ParsedTitle)
    requires SplitsAt(s, m) && (s == [] || !IsSpace(s[0]))
    ensures r.caseName == Strip(CaseGroup(s, m)) && r.month == MonthGroup(s, m)
    ensures r.day == DigitsValue(DayGroup(s, m)) && r.year == DigitsValue(YearGroup(s, m))
    ensures r.caseName != [] && r.caseName == Strip(r.caseName)
    ensures r.day < 100 && r.year < 10000
    ensures r.isoDate == IsoOf(r.day, r.month, r.year)
  {
    var dayText, yearText := DayGroup(s, m), YearGroup(s, m);
    assert Pow10(|dayText|) <= Pow10(2) == 100;
    assert Pow10(|yearText|) == Pow10(4) == 10000;
    CaseNamePresent(s, m);
    StripIdempotent(s[..m.k]);
    var day := DigitsValue(dayText);
    var month := MonthGroup(s, m);
    var year := DigitsValue(yearText);
    ParsedTitle(Strip(CaseGroup(s, m)), day, month, year, IsoOf(day, month, year))
  }

  /** `parse_case_and_date`: `None` when the stripped title does not match
      the pattern; otherwise the stripped case name, the day, month and year
      groups, and the ISO date when they name a real date. */
  function ParseCaseAndDate(text: string): (r: Option<ParsedTitle>)
    ensures r.None? <==> forall m :: !SplitsAt(Strip(text), m)
    ensures r.Some? ==> exists m :: Shortest(Strip(text), m) && r.value == Groups(Strip(text), m)
    ensures r.Some? ==> r.value.caseName != [] && r.value.caseName == Strip(r.value.caseName)
    ensures r.Some? ==> r.value.day < 100 && r.value.year < 10000
    ensures r.Some? ==> r.value.month != [] && AllLetters(r.value.month)
    ensures r.Some? ==> r.value.isoDate == IsoOf(r.value.day, r.value.month, r.value.year)
  {
    var s := Strip(text);
    match MatchTitle(s)
    case None => None
    case Some(m) =>
      assert Shortest(s, m);
      Some(Groups(s, m))
  }

  // ---------------------------------------------------------------------------
  // Document ids: re.search(r"/docfragment/(\d+)", href) or re.search(r"/doc/(\d+)", href)
  // ---------------------------------------------------------------------------

  const FragmentPattern: string := "/docfragment/"
  const DocPattern: string := "/doc/"

  /** `pat` followed by at least one digit occurs in `h` at position `p`. */
  predicate DigitsFollow(h: string, pat: string, p: nat) {
    p + |pat| < |h| && h[p..p + |pat|] == pat && IsDigit(h[p + |pat|])
  }

  /** The leftmost position at or after `i` where `pat` is followed by a digit. */
  function LeftmostMatch(h: string, pat: string, i: nat): (r: Option<nat>)
    ensures r.Some? ==> i <= r.value && DigitsFollow(h, pat, r.value)
    ensures r.Some? ==> forall q :: i <= q < r.value ==> !DigitsFollow(h, pat, q)
    ensures r.None? <==> forall q :: i <= q ==> !DigitsFollow(h, pat, q)
    decreases |h| - i
  {
    if i + |pat| >= |h| then None
    else if DigitsFollow(h, pat, i) then Some(i)
    else LeftmostMatch(h, pat, i + 1)
  }

  /** `p` is where `re.search` matches: the first position with `pat`
      followed by a digit. */
  predicate Leftmost(h: string, pat: string, p: nat) {
    DigitsFollow(h, pat, p) && forall q: nat :: q < p ==> !DigitsFollow(h, pat, q)
  }

  /** The position `LeftmostMatch` finds from the start is the only leftmost one. */
  lemma LeftmostUnique(h: string, pat: string, p: nat)
    requires LeftmostMatch(h, pat, 0) == Some(p)
    ensures Leftmost(h, pat, p)
    ensures forall p' :: Leftmost(h, pat, p') ==> p' == p
  {
  }

  /** The group `(\d+)` of a match at `p`: every digit that follows, greedily. */
  function DigitGroup(h: string, pat: string, p: nat): (g: string)
    requires DigitsFollow(h, pat, p)
    ensures g != [] && AllDigits(g)
    ensures p + |pat| + |g| <= |h| && g == h[p + |pat|..p + |pat| + |g|]
    ensures p + |pat| + |g| < |h| ==> !IsDigit(h[p + |pat| + |g|])
  {
    var j := RunEnd(h, p + |pat|, IsDigit);
    var g := h[p + |pat|..j];
    assert forall k :: 0 <= k < |g| ==> g[k] == h[p + |pat| + k];
    g
  }

  /** `doc_id_from_href`: the digits after the leftmost "/docfragment/"
      followed by a digit, or failing that after the leftmost "/doc/"
      followed by a digit, or `None`. */
  function DocIdFromHref(href: string): (r: Option<string>)
    ensures r.Some? ==> r.value != [] && AllDigits(r.value)
    ensures r.None? <==> (forall p :: !DigitsFollow(href, FragmentPattern, p))
                         && (forall p :: !DigitsFollow(href, DocPattern, p))
    ensures forall p :: Leftmost(href, FragmentPattern, p)
                        ==> r == Some(DigitGroup(href, FragmentPattern, p))
    ensures (forall q :: !DigitsFollow(href, FragmentPattern, q)) ==>
              forall p :: Leftmost(href, DocPattern, p) ==> r == Some(DigitGroup(href, DocPattern, p))
  {
    match LeftmostMatch(href, FragmentPattern, 0)
    case Some(p) =>
      LeftmostUnique(href, FragmentPattern, p);
      Some(DigitGroup(href, FragmentPattern, p))
    case None =>
      match LeftmostMatch(href, DocPattern, 0)
      case Some(p) =>
        LeftmostUnique(href, DocPattern, p);
        Some(DigitGroup(href, DocPattern, p))
      case None => None
  }

  // ---------------------------------------------------------------------------
  // Search URL
  // ---------------------------------------------------------------------------

  /** `build_search_url`: the search page address with the keyword
      percent-encoded between the fixed prefix and the fixed filter; the
      encoded part decodes back to the keyword's UTF-8 bytes. */
  function BuildSearchUrl(keyword: string): (url: string)
    ensures |QueryPrefix| + |QuerySuffix| <= |url|
    ensures url[..|QueryPrefix|] == QueryPrefix
    ensures url[|url| - |QuerySuffix|..] == QuerySuffix
    ensures WellEncoded(url[|QueryPrefix|..|url| - |QuerySuffix|])
    ensures Canonical(url[|QueryPrefix|..|url| - |QuerySuffix|])
    ensures Unquote(url[|QueryPrefix|..|url| - |QuerySuffix|]) == Some(Utf8(keyword))
  {
    var encoded := Quote(keyword);
    var url := QueryPrefix + encoded + QuerySuffix;
    assert url[|QueryPrefix|..|url| - |QuerySuffix|] == encoded;
    url
  }

  // ---------------------------------------------------------------------------
  // The anchor loop of scrape_keyword
  // ---------------------------------------------------------------------------

  /** One `<a>` element of the results page: its inner text and its `href`
      attribute, absent when the element has none. */
  datatype Anchor = Anchor(innerText: string, href: Option<string>)

  /** Whether the anchor loop keeps an anchor, and the record it makes: the
      stripped text and the link must be non-empty, the text must not be
      "Full Document" in any case, the link must start with "/docfragment" or
      "/doc/" and carry a document id. */
  function AnchorRecord(keyword: string, anchor: Anchor): (r: Option<Record>)
    ensures r.Some? ==> r.value.keyword == Some(keyword) && r.value.docId.None? && r.value.link.Some?
  {
    var text := Strip(anchor.innerText);
    var href := if anchor.href.Some? then anchor.href.value else "";
    if text == [] || href == [] then None
    else if Lower(text) == "full document" then None
    else if !(StartsWith(href, "/docfragment") || StartsWith(href, "/doc/")) then None
    else match DocIdFromHref(href)
      case None => None
      case Some(docId) =>
        var record := NoFields.(keyword := Some(keyword), title := Some(text),
                                link := Some(DocLinkBase + docId + "/"));
        match ParseCaseAndDate(text)
        case None => Some(record)
        case Some(parsed) =>
          Some(record.(caseName := Some(parsed.caseName), day := Some(parsed.day),
                       month := Some(parsed.month), year := Some(parsed.year),
                       judgmentDate := parsed.isoDate))
  }

  /** The loop keeps an anchor exactly when its stripped text and its link
      are non-empty, the text is not "Full Document" in any case, the link
      starts with "/docfragment" or "/doc/" and a document id is found in it. */
  lemma AnchorKept(keyword: string, anchor: Anchor)
    ensures AnchorRecord(keyword, anchor).Some? <==>
      var text, href := Strip(anchor.innerText), if anchor.href.Some? then anchor.href.value else "";
      text != [] && href != [] && Lower(text) != "full document"
      && (StartsWith(href, "/docfragment") || StartsWith(href, "/doc/"))
      && DocIdFromHref(href).Some?
  {
  }

  /** The record of a kept anchor: the stripped text as title, the canonical
      link built from the document id, and the parsed title fields, all
      absent when the title does not parse. */
  lemma AnchorFields(keyword: string, anchor: Anchor, r: Record)
    requires AnchorRecord(keyword, anchor) == Some(r)
    ensures anchor.href.Some? && DocIdFromHref(anchor.href.value).Some?
    ensures r.title == Some(Strip(anchor.innerText))
    ensures r.link == Some(DocLinkBase + DocIdFromHref(anchor.href.value).value + "/")
    ensures var parsed := ParseCaseAndDate(Strip(anchor.innerText));
      (parsed.None? ==> r.caseName.None? && r.day.None? && r.month.None? && r.year.None?
                        && r.judgmentDate.None?)
      && (parsed.Some? ==> r.caseName == Some(parsed.value.caseName)
                           && r.day == Some(parsed.value.day)
                           && r.month == Some(parsed.value.month)
                           && r.year == Some(parsed.value.year)
                           && r.judgmentDate == parsed.value.isoDate)
  {
  }

  /** No element, or the one an `Option` holds. */
  function Found<B>(o: Option<B>): (r: seq<B>)
    ensures o.None? ==> r == []
    ensures o.Some? ==> r == [o.value]
  {
    match o
    case None => []
    case Some(b) => [b]
  }

  /** The values `f` gives for the elements of `xs`, in order, skipping the
      elements it gives `None` for. */
  function Collect<A, B>(xs: seq<A>, f: A -> Option<B>): (r: seq<B>)
    ensures |r| <= |xs|
    decreases |xs|
  {
    if xs == [] then [] else Collect(xs[..|xs| - 1], f) + Found(f(xs[|xs| - 1]))
  }

  lemma CollectStep<A, B>(xs: seq<A>, f: A -> Option<B>, i: nat)
    requires i < |xs|
    ensures Collect(xs[..i + 1], f) == Collect(xs[..i], f) + Found(f(xs[i]))
  {
    assert xs[..i + 1][..i] == xs[..i];
  }

  /** Every collected value is what `f` gives for some element. */
  lemma {:induction false} CollectFrom<A, B>(xs: seq<A>, f: A -> Option<B>)
    ensures forall k :: 0 <= k < |Collect(xs, f)| ==>
      exists j :: 0 <= j < |xs| && f(xs[j]) == Some(Collect(xs, f)[k])
    decreases |xs|
  {
    if xs != [] {
      var n := |xs| - 1;
      CollectFrom(xs[..n], f);
      var r, front := Collect(xs, f), Collect(xs[..n], f);
      assert r == front + Found(f(xs[n]));
      forall k | 0 <= k < |r| ensures exists j :: 0 <= j < |xs| && f(xs[j]) == Some(r[k]) {
        if k < |front| {
          var j :| 0 <= j < n && f(xs[..n][j]) == Some(front[k]);
          assert xs[..n][j] == xs[j];
        } else {
          assert f(xs[n]) == Some(r[k]);
        }
      }
    } else {
      assert Collect(xs, f) == [];
    }
  }

  /** Collecting over two runs one after the other collects over each. */
  lemma {:induction false} CollectAppend<A, B>(xs: seq<A>, ys: seq<A>, f: A -> Option<B>)
    ensures Collect(xs + ys, f) == Collect(xs, f) + Collect(ys, f)
    decreases |ys|
  {
    if ys == [] {
      assert xs + ys == xs;
    } else {
      var init, y := ys[..|ys| - 1], ys[|ys| - 1];
      CollectAppend(xs, init, f);
      SplitLast(xs, ys);
      AppendStep(xs, init, y, f);
    }
  }

  /** The inductive step of `CollectAppend`: one more element at the end of
      the second run. */
  lemma AppendStep<A, B>(xs: seq<A>, init: seq<A>, y: A, f: A -> Option<B>)
    requires Collect(xs + init, f) == Collect(xs, f) + Collect(init, f)
    ensures Collect((xs + init) + [y], f) == Collect(xs, f) + Collect(init + [y], f)
  {
    CollectSnoc(xs + init, y, f);
    CollectSnoc(init, y, f);
    var front, mid, last := Collect(xs, f), Collect(init, f), Found(f(y));
    ConcatAssoc(front, mid, last);
  }

  lemma ConcatAssoc<B>(a: seq<B>, b: seq<B>, c: seq<B>)
    ensures (a + b) + c == a + (b + c)
  {
  }

  lemma SplitLast<A>(xs: seq<A>, ys: seq<A>)
    requires ys != []
    ensures xs + ys == (xs + ys[..|ys| - 1]) + [ys[|ys| - 1]]
    ensures ys == ys[..|ys| - 1] + [ys[|ys| - 1]]
  {
  }

  /** One more element at the end adds what `f` gives for it. */
  lemma CollectSnoc<A, B>(xs: seq<A>, x: A, f: A -> Option<B>)
    ensures Collect(xs + [x], f) == Collect(xs, f) + Found(f(x))
  {
    assert (xs + [x])[..|xs|] == xs;
  }

  /** The record function of the anchor loop for one keyword. */
  function RecordOf(keyword: string): Anchor -> Option<Record> {
    a => AnchorRecord(keyword, a)
  }

  /** The records the anchors of a page yield, in page order, when no limit
      applies. Every one carries the keyword and a link and, since the loop
      never sets one, no document id. */
  function Candidates(keyword: string, anchors: seq<Anchor>): (r: seq<Record>)
    ensures |r| <= |anchors|
    ensures forall k :: 0 <= k < |r| ==>
      r[k].keyword == Some(keyword) && r[k].docId.None? && r[k].link.Some?
  {
    CollectFrom(anchors, RecordOf(keyword));
    Collect(anchors, RecordOf(keyword))
  }

  /** Looking at more elements only adds collected values at the end. */
  lemma CollectPrefix<A, B>(xs: seq<A>, f: A -> Option<B>, i: nat)
    requires i <= |xs|
    ensures |Collect(xs[..i], f)| <= |Collect(xs, f)|
    ensures Collect(xs[..i], f) == Collect(xs, f)[..|Collect(xs[..i], f)|]
  {
    assert xs == xs[..i] + xs[i..];
    CollectAppend(xs[..i], xs[i..], f);
  }

  /** How many records `max_links` lets through: the check follows the
      append, so even a limit below one keeps the first record. */
  function Limit(maxLinks: int): (n: nat)
    ensures n >= 1 && n >= maxLinks
    ensures maxLinks >= 1 ==> n == maxLinks
    ensures maxLinks < 1 ==> n == 1
  {
    if maxLinks < 1 then 1 else maxLinks
  }

  function Min(a: nat, b: nat): nat {
    if a < b then a else b
  }

  /** The anchor loop for any record function `f`: it appends what `f`
      gives for each element in turn and stops as soon as `Limit(maxLinks)`
      values are collected. */
  method CollectUpTo<A, B>(xs: seq<A>, f: A -> Option<B>, maxLinks: int)
    returns (results: seq<B>)
    ensures results == Collect(xs, f)[..Min(|Collect(xs, f)|, Limit(maxLinks))]
  {
    results := [];
    for i := 0 to |xs|
      invariant results == Collect(xs[..i], f)
      invariant |results| < Limit(maxLinks)
    {
      CollectStep(xs, f, i);
      var found := f(xs[i]);
      if found.Some? {
        results := results + [found.value];
        if |results| >= maxLinks {
          StopAtLimit(xs, f, i + 1, maxLinks);
          return;
        }
      }
    }
    StopAtLimit(xs, f, |xs|, maxLinks);
  }

  /** The loop may stop after `i` elements once the limit is reached, or at
      the end: either way it has what the limit lets through. */
  lemma StopAtLimit<A, B>(xs: seq<A>, f: A -> Option<B>, i: nat, maxLinks: int)
    requires i <= |xs| && |Collect(xs[..i], f)| <= Limit(maxLinks)
    requires i == |xs| || |Collect(xs[..i], f)| == Limit(maxLinks)
    ensures Collect(xs[..i], f) == Collect(xs, f)[..Min(|Collect(xs, f)|, Limit(maxLinks))]
  {
    CollectPrefix(xs, f, i);
    if i == |xs| {
      assert xs[..i] == xs;
    }
  }

  /** `scrape_keyword` over the anchors of the results page: the first
      `Limit(maxLinks)` records the anchors yield, in page order. */
  method ScrapeKeyword(keyword: string, anchors: seq<Anchor>, maxLinks: int)
    returns (results: seq<Record>)
    ensures var c := Candidates(keyword, anchors);
      results == c[..Min(|c|, Limit(maxLinks))]
    ensures |results| <= Limit(maxLinks)
  {
    results := CollectUpTo(anchors, RecordOf(keyword), maxLinks);
  }
}
/** Worked examples of the scraper's functions on concrete inputs. */
module ScraperExamples {
  import opened Wrappers
  import opened Text
  import opened Calendar
  import opened Scraper

  lemma DecemberExample()
    ensures MonthNumber("December") == Some(12)
  {
    var l := Lower("December");
    assert l[0] == 'd' && l[1] == 'e' && l[2] == 'c' && l[3] == 'e';
    assert l[4] == 'm' && l[5] == 'b' && l[6] == 'e' && l[7] == 'r';
    assert l == "december";
  }

  lemma StrptimeExample()
    ensures Strptime(10, "December", 2025) == Some(Date(2025, 12, 10))
  {
    DecemberExample();
    StrptimeAccepts(10, "December", 2025);
  }

  lemma IsoExample()
    ensures IsoDate(Date(2025, 12, 10)) == "2025-12-10"
    ensures Pad(4, 2025) == "2025" && Pad(2, 10) == "10"
  {
    assert Pad(4, 2025) == "2025";
    assert Pad(2, 12) == "12";
    assert Pad(2, 10) == "10";
  }

  /** A split's tail opens with spaces and then "on". */
  lemma SplitHead(s: string, m: TitleSplit)
    requires SplitsAt(s, m)
    ensures 1 <= m.tail.a && m.k + m.tail.a + 2 <= |s|
    ensures IsSpace(s[m.k]) && (m.tail.a > 1 ==> IsSpace(s[m.k + 1]))
    ensures s[m.k + m.tail.a] == 'o'
  {
    var u := s[m.k..];
    assert u[0] == u[..m.tail.a][0];
    if m.tail.a > 1 {
      assert u[1] == u[..m.tail.a][1];
    }
    assert u[m.tail.a] == u[m.tail.a..m.tail.a + 2][0];
  }

  lemma NoEarlySplit(s: string, k: nat, a: nat)
    requires s == "Foo vs Bar on 10 December, 2025"
    requires 1 <= a && k + a + 2 <= |s| && IsSpace(s[k]) && s[k + a] == 'o'
    requires a > 1 ==> IsSpace(s[k + 1])
    ensures k >= 10
  {
  }

  /** The part after the case name has the tail shape, split at the obvious places. */
  lemma ExampleTail(t: string)
    requires t == " on 10 December, 2025"
    ensures TailShape(t, TailSplit(1, 4, 6, 7, 15, 17))
    ensures t[4..6] == "10" && t[7..15] == "December" && t[17..] == "2025"
  {
    assert t[..1] == " ";
    assert t[1..3] == "on";
    assert t[3..4] == " ";
    assert t[4..6] == "10";
    assert t[6..7] == " ";
    assert t[7..15] == "December";
    assert t[15] == ',';
    assert t[16..17] == " ";
    assert t[17..] == "2025";
  }

  /** The example title splits after "Foo vs Bar". */
  lemma ExampleSplit(s: string)
    requires s == "Foo vs Bar on 10 December, 2025"
    ensures s[..10] == "Foo vs Bar" && s[10..] == " on 10 December, 2025"
    ensures SplitsAt(s, TitleSplit(10, TailSplit(1, 4, 6, 7, 15, 17)))
  {
    assert s[..10] == "Foo vs Bar";
    var t := s[10..];
    assert t == " on 10 December, 2025";
    ExampleTail(t);
    assert forall i :: 0 <= i < 10 ==> s[i] != '\n';
  }

  /** No shorter case name works, so the lazy group stops after "Foo vs Bar". */
  lemma ExampleMatch(s: string)
    requires s == "Foo vs Bar on 10 December, 2025"
    ensures MatchTitle(s) == Some(TitleSplit(10, TailSplit(1, 4, 6, 7, 15, 17)))
  {
    ExampleSplit(s);
    forall m | SplitsAt(s, m) ensures 10 <= m.k {
      SplitHead(s, m);
      NoEarlySplit(s, m.k, m.tail.a);
    }
    MatchIsShortest(s, TitleSplit(10, TailSplit(1, 4, 6, 7, 15, 17)));
  }

  /** The groups of a split whose pieces are those of the example title. */
  lemma ExampleGroups(s: string, m: TitleSplit)
    requires SplitsAt(s, m) && s != [] && !IsSpace(s[0])
    requires s[..m.k] == "Foo vs Bar"
    requires var t, p := s[m.k..], m.tail;
      t[p.b..p.c] == "10" && t[p.d..p.e] == "December" && t[p.f..] == "2025"
    ensures Groups(s, m) == ParsedTitle("Foo vs Bar", 10, "December", 2025, Some("2025-12-10"))
  {
    StripUnchanged("Foo vs Bar");
    IsoExample();
    assert DigitsValue("10") == 10 by { DigitsValuePad(2, 10); }
    assert DigitsValue("2025") == 2025 by { DigitsValuePad(4, 2025); }
    StrptimeExample();
  }

  lemma ExampleParsed(s: string)
    requires s == "Foo vs Bar on 10 December, 2025"
    ensures SplitsAt(s, TitleSplit(10, TailSplit(1, 4, 6, 7, 15, 17))) && !IsSpace(s[0])
    ensures Groups(s, TitleSplit(10, TailSplit(1, 4, 6, 7, 15, 17)))
      == ParsedTitle("Foo vs Bar", 10, "December", 2025, Some("2025-12-10"))
  {
    ExampleSplit(s);
    ExampleTail(s[10..]);
    ExampleGroups(s, TitleSplit(10, TailSplit(1, 4, 6, 7, 15, 17)));
  }

  lemma TitleExample()
    ensures ParseCaseAndDate("Foo vs Bar on 10 December, 2025")
      == Some(ParsedTitle("Foo vs Bar", 10, "December", 2025, Some("2025-12-10")))
  {
    var s := "Foo vs Bar on 10 December, 2025";
    StripUnchanged(s);
    ExampleMatch(s);
    ExampleParsed(s);
  }

  lemma DocIdExample()
    ensures DocIdFromHref("/doc/12345/") == Some("12345")
  {
    var h := "/doc/12345/";
    assert DigitsFollow(h, DocPattern, 0);
    assert RunEnd(h, 5, IsDigit) == 10;
    assert |FragmentPattern| == 13;
    assert forall p :: !DigitsFollow(h, FragmentPattern, p);
    assert DigitGroup(h, DocPattern, 0) == h[5..10] == "12345";
  }

  /** A fragment id wins even when a document id comes later. */
  lemma FragmentIdExample()
    ensures DocIdFromHref("/docfragment/777/?q=/doc/9") == Some("777")
  {
    var g := "/docfragment/777/?q=/doc/9";
    assert g[..13] == FragmentPattern && g[13..16] == "777" && g[16] == '/';
    DigitRunEnd(g, 13, 16);
    assert Leftmost(g, FragmentPattern, 0);
  }

  lemma NoDocIdExample()
    ensures DocIdFromHref("/doc/abc/") == None
  {
    var n := "/doc/abc/";
    assert |FragmentPattern| == 13 && |DocPattern| == 5;
    forall p: nat ensures !DigitsFollow(n, DocPattern, p) {
      if p + 5 < |n| && n[p..p + 5] == DocPattern {
        assert n[p + 4] == '/' && n[p + 1] == 'd';
        assert p == 0;
      }
    }
  }

  lemma StrptimeRejects()
    ensures Strptime(31, "February", 2025).None?
    ensures Strptime(10, "December", 999).None?
    ensures Strptime(0, "December", 2025).None?
  {
    var l := Lower("February");
    assert l[0] == 'f' && l[1] == 'e' && l[2] == 'b' && l[3] == 'r';
    assert l[4] == 'u' && l[5] == 'a' && l[6] == 'r' && l[7] == 'y';
    assert l == "february";
    StrptimeAccepts(31, "February", 2025);
    StrptimeAccepts(10, "December", 999);
    StrptimeAccepts(0, "December", 2025);
  }
}

/** Proleptic Gregorian dates as Python's `datetime.date` handles them: the
    leap rule, English month names for `%B`, the ISO `YYYY-MM-DD` text that
    `isoformat()` produces, and `date - timedelta(days = n)`. */
module Calendar {
  import opened Wrappers
  import opened Text

  datatype Date = Date(year: int, month: int, day: int)

  predicate IsLeapYear(y: int) {
    y % 4 == 0 && (y % 100 != 0 || y % 400 == 0)
  }

  function DaysInMonth(y: int, m: int): (n: int)
    requires 1 <= m <= 12
    ensures 28 <= n <= 31
    ensures n == 29 <==> m == 2 && IsLeapYear(y)
  {
    if m == 2 then (if IsLeapYear(y) then 29 else 28)
    else if m == 4 || m == 6 || m == 9 || m == 11 then 30
    else 31
  }

  /** A date `datetime.date` accepts: year 1 to 9999, a month, a day of it. */
  predicate IsValid(d: Date) {
    1 <= d.year <= 9999 && 1 <= d.month <= 12 && 1 <= d.day <= DaysInMonth(d.year, d.month)
  }

  /** The full English month names, lower case, January first. */
  const MonthNames: seq<string> :=
    ["january", "february", "march", "april", "may", "june", "july",
     "august", "september", "october", "november", "december"]

  /** The month `%B` recognises in `name`: a full English month name in any
      mix of upper and lower case. */
  function MonthNumber(name: string): (m: Option<int>)
    ensures m.Some? ==> 1 <= m.value <= 12 && Lower(name) == MonthNames[m.value - 1]
    ensures m.None? <==> forall i :: 0 <= i < 12 ==> Lower(name) != MonthNames[i]
  {
    var l := Lower(name);
    if l == "january" then Some(1)
    else if l == "february" then Some(2)
    else if l == "march" then Some(3)
    else if l == "april" then Some(4)
    else if l == "may" then Some(5)
    else if l == "june" then Some(6)
    else if l == "july" then Some(7)
    else if l == "august" then Some(8)
    else if l == "september" then Some(9)
    else if l == "october" then Some(10)
    else if l == "november" then Some(11)
    else if l == "december" then Some(12)
    else None
  }

  /** `%B` ignores case: a name and its lowered spelling name the same
      month. */
  lemma MonthNumberLower(name: string)
    ensures MonthNumber(Lower(name)) == MonthNumber(name)
  {
    LowerIdempotent(name);
  }

  /** `d.isoformat()`: four-digit year, two-digit month, two-digit day. The
      three fields read back from their positions in the text. */
  function IsoDate(d: Date): (s: string)
    requires IsValid(d)
    ensures |s| == 10 && s[4] == '-' && s[7] == '-'
    ensures AllDigits(s[..4]) && AllDigits(s[5..7]) && AllDigits(s[8..])
    ensures DigitsValue(s[..4]) == d.year
    ensures DigitsValue(s[5..7]) == d.month && DigitsValue(s[8..]) == d.day
  {
    var s := Pad(4, d.year) + "-" + Pad(2, d.month) + "-" + Pad(2, d.day);
    assert s[..4] == Pad(4, d.year) && s[5..7] == Pad(2, d.month) && s[8..] == Pad(2, d.day);
    DigitsValuePad(4, d.year);
    DigitsValuePad(2, d.month);
    DigitsValuePad(2, d.day);
    s
  }

  /** Reads `YYYY-MM-DD` text back into the date it names; `None` for any
      other text, or for fields that name no date. */
  function ParseIso(s: string): (r: Option<Date>)
    ensures r.Some? ==> IsValid(r.value) && IsoDate(r.value) == s
  {
    if |s| == 10 && s[4] == '-' && s[7] == '-'
       && AllDigits(s[..4]) && AllDigits(s[5..7]) && AllDigits(s[8..])
    then
      var d := Date(DigitsValue(s[..4]), DigitsValue(s[5..7]), DigitsValue(s[8..]));
      if IsValid(d) then
        IsoText(s, d);
        Some(d)
      else None
    else None
  }

  lemma IsoText(s: string, d: Date)
    requires |s| == 10 && s[4] == '-' && s[7] == '-'
    requires AllDigits(s[..4]) && AllDigits(s[5..7]) && AllDigits(s[8..])
    requires IsValid(d)
    requires d == Date(DigitsValue(s[..4]), DigitsValue(s[5..7]), DigitsValue(s[8..]))
    ensures IsoDate(d) == s
  {
    PadDigits(s[..4]);
    PadDigits(s[5..7]);
    PadDigits(s[8..]);
    IsoPieces(s);
  }

  /** Text shaped like `YYYY-MM-DD` is its three fields joined by dashes. */
  lemma IsoPieces(s: string)
    requires |s| == 10 && s[4] == '-' && s[7] == '-'
    ensures s == s[..4] + "-" + s[5..7] + "-" + s[8..]
  {
  }

  /** Every date's ISO text parses back to it. */
  lemma ParseIsoRoundTrip(d: Date)
    requires IsValid(d)
    ensures ParseIso(IsoDate(d)) == Some(d)
  {
  }

  /** Chronological order: by year, then month, then day. */
  predicate Before(a: Date, b: Date) {
    a.year < b.year
    || (a.year == b.year && (a.month < b.month || (a.month == b.month && a.day < b.day)))
  }

  /** Two zero-padded numbers of one width are the same text only when they
      are the same number. */
  lemma PadInjective(w: nat, m: nat, n: nat)
    requires m < Pow10(w) && n < Pow10(w)
    ensures Pad(w, m) == Pad(w, n) <==> m == n
  {
    DigitsValuePad(w, m);
    DigitsValuePad(w, n);
  }

  /** A common one-character prefix does not change the comparison. */
  lemma DashLess(x: string, y: string)
    ensures Less("-" + x, "-" + y) <==> Less(x, y)
    ensures "-" + x == "-" + y <==> x == y
  {
    LessConcat("-", x, "-", y);
    LessIrreflexive("-");
    assert ("-" + x)[1..] == x && ("-" + y)[1..] == y;
  }

  /** Comparing a zero-padded first field, then the rest only on a tie. */
  lemma FieldThenRest(w: nat, m: nat, n: nat, x: string, y: string)
    requires m < Pow10(w) && n < Pow10(w)
    ensures Less(Pad(w, m) + ("-" + x), Pad(w, n) + ("-" + y))
            <==> m < n || (m == n && Less(x, y))
    ensures Pad(w, m) + ("-" + x) == Pad(w, n) + ("-" + y) <==> m == n && x == y
  {
    LessConcat(Pad(w, m), "-" + x, Pad(w, n), "-" + y);
    PadLess(w, m, n);
    PadInjective(w, m, n);
    DashLess(x, y);
    var a, b := Pad(w, m) + ("-" + x), Pad(w, n) + ("-" + y);
    if a == b {
      assert a[..w] == Pad(w, m) && b[..w] == Pad(w, n);
      assert a[w..] == "-" + x && b[w..] == "-" + y;
    }
  }

  /** The ISO text of dates sorts as the dates do, so SQLite's text comparison
      of `judgment_date` values is a comparison of calendar dates. */
  lemma IsoOrderIsChronological(a: Date, b: Date)
    requires IsValid(a) && IsValid(b)
    ensures Less(IsoDate(a), IsoDate(b)) <==> Before(a, b)
    ensures IsoDate(a) == IsoDate(b) <==> a == b
  {
    IsoFields(a);
    IsoFields(b);
    PadLess(2, a.day, b.day);
    PadInjective(2, a.day, b.day);
    FieldThenRest(2, a.month, b.month, Pad(2, a.day), Pad(2, b.day));
    FieldThenRest(4, a.year, b.year, MonthDay(a), MonthDay(b));
  }

  /** The `MM-DD` part of the ISO text. */
  function MonthDay(d: Date): string
    requires IsValid(d)
  {
    Pad(2, d.month) + ("-" + Pad(2, d.day))
  }

  lemma IsoFields(d: Date)
    requires IsValid(d)
    ensures IsoDate(d) == Pad(4, d.year) + ("-" + MonthDay(d))
  {
  }

  function YearLength(y: int): (n: nat)
    ensures n == 365 || n == 366
  {
    if IsLeapYear(y) then 366 else 365
  }

  /** Days in the years before `y`, counting from year 1. */
  function DaysBeforeYear(y: int): nat
    requires y >= 1
  {
    if y == 1 then 0 else DaysBeforeYear(y - 1) + YearLength(y - 1)
  }

  /** Days in the months of year `y` before month `m`. */
  function DaysBeforeMonth(y: int, m: int): nat
    requires 1 <= m <= 12
  {
    if m == 1 then 0 else DaysBeforeMonth(y, m - 1) + DaysInMonth(y, m - 1)
  }

  /** `d.toordinal()`: the number of the day counting 0001-01-01 as day 1. */
  function Ordinal(d: Date): (n: int)
    requires IsValid(d)
    ensures n >= 1
    ensures n == 1 <==> d == Date(1, 1, 1)
  {
    DaysBeforeYear(d.year) + DaysBeforeMonth(d.year, d.month) + d.day
  }

  /** December ends the year. */
  lemma YearEnd(y: int)
    ensures DaysBeforeMonth(y, 12) + 31 == YearLength(y)
  {
    var feb := DaysInMonth(y, 2);
    assert DaysBeforeMonth(y, 2) == 31;
    assert DaysBeforeMonth(y, 3) == 31 + feb;
    assert DaysBeforeMonth(y, 4) == 62 + feb;
    assert DaysBeforeMonth(y, 5) == 92 + feb;
    assert DaysBeforeMonth(y, 6) == 123 + feb;
    assert DaysBeforeMonth(y, 7) == 153 + feb;
    assert DaysBeforeMonth(y, 8) == 184 + feb;
    assert DaysBeforeMonth(y, 9) == 215 + feb;
    assert DaysBeforeMonth(y, 10) == 245 + feb;
    assert DaysBeforeMonth(y, 11) == 276 + feb;
  }

  /** A date's month and day lie within its year. */
  lemma {:induction false} WithinYear(y: int, m: int, day: int)
    requires 1 <= m <= 12 && day <= DaysInMonth(y, m)
    ensures DaysBeforeMonth(y, m) + day <= YearLength(y)
    decreases 12 - m
  {
    if m == 12 {
      YearEnd(y);
    } else {
      WithinYear(y, m + 1, DaysInMonth(y, m + 1));
    }
  }

  /** Earlier months start earlier. */
  lemma {:induction false} MonthsIncrease(y: int, m: int, m': int)
    requires 1 <= m < m' <= 12
    ensures DaysBeforeMonth(y, m) + DaysInMonth(y, m) <= DaysBeforeMonth(y, m')
    decreases m' - m
  {
    if m + 1 < m' {
      MonthsIncrease(y, m, m' - 1);
    }
  }

  /** Earlier years start earlier. */
  lemma {:induction false} YearsIncrease(y: int, y': int)
    requires 1 <= y < y'
    ensures DaysBeforeYear(y) + YearLength(y) <= DaysBeforeYear(y')
    decreases y' - y
  {
    if y + 1 < y' {
      YearsIncrease(y, y' - 1);
    }
  }

  /** Day numbers order dates as the calendar does, so a date is fixed by
      its day number. */
  lemma OrdinalOrder(a: Date, b: Date)
    requires IsValid(a) && IsValid(b)
    ensures Ordinal(a) < Ordinal(b) <==> Before(a, b)
    ensures Ordinal(a) == Ordinal(b) <==> a == b
  {
    if a.year < b.year {
      WithinYear(a.year, a.month, a.day);
      YearsIncrease(a.year, b.year);
    } else if b.year < a.year {
      WithinYear(b.year, b.month, b.day);
      YearsIncrease(b.year, a.year);
    } else if a.month < b.month {
      MonthsIncrease(a.year, a.month, b.month);
    } else if b.month < a.month {
      MonthsIncrease(b.year, b.month, a.month);
    }
  }

  /** The day before `d`: the latest valid date that precedes it, or `None`
      when `d` is 0001-01-01, the first date `datetime.date` represents. */
  function PrevDay(d: Date): (r: Option<Date>)
    requires IsValid(d)
    ensures r.None? <==> d == Date(1, 1, 1)
    ensures r.None? ==> forall x :: IsValid(x) ==> !Before(x, d)
    ensures r.Some? ==> IsValid(r.value) && Before(r.value, d)
    ensures r.Some? ==> forall x :: IsValid(x) && Before(x, d) ==> !Before(r.value, x)
    ensures r.Some? ==> Ordinal(r.value) == Ordinal(d) - 1
  {
    if d == Date(1, 1, 1) then None
    else
      var p := DayBefore(d);
      LatestBefore(p, d);
      Some(p)
  }

  /** The calendar step back one day: within the month, to the end of the
      previous month, or to the end of the previous year. */
  function DayBefore(d: Date): (p: Date)
    requires IsValid(d) && d != Date(1, 1, 1)
    ensures IsValid(p) && Ordinal(p) == Ordinal(d) - 1
  {
    if d.day > 1 then
      DayStep(d);
      Date(d.year, d.month, d.day - 1)
    else if d.month > 1 then
      MonthEndStep(d.year, d.month);
      Date(d.year, d.month - 1, DaysInMonth(d.year, d.month - 1))
    else
      YearEndStep(d.year);
      Date(d.year - 1, 12, 31)
  }

  /** The day before, within one month, is numbered one less. */
  lemma DayStep(d: Date)
    requires IsValid(d) && d.day > 1
    ensures IsValid(Date(d.year, d.month, d.day - 1))
    ensures Ordinal(Date(d.year, d.month, d.day - 1)) + 1 == Ordinal(d)
  {
  }

  /** The last day of a month is numbered just before the first of the next. */
  lemma MonthEndStep(y: int, m: int)
    requires 1 <= y <= 9999 && 2 <= m <= 12
    ensures IsValid(Date(y, m - 1, DaysInMonth(y, m - 1)))
    ensures Ordinal(Date(y, m - 1, DaysInMonth(y, m - 1))) + 1 == Ordinal(Date(y, m, 1))
  {
  }

  /** New Year's Eve is numbered just before the next New Year's Day. */
  lemma YearEndStep(y: int)
    requires 2 <= y <= 9999
    ensures IsValid(Date(y - 1, 12, 31))
    ensures Ordinal(Date(y - 1, 12, 31)) + 1 == Ordinal(Date(y, 1, 1))
  {
    YearEnd(y - 1);
  }

  /** The day numbered one less than `d` is the latest day before `d`. */
  lemma LatestBefore(p: Date, d: Date)
    requires IsValid(p) && IsValid(d) && Ordinal(p) == Ordinal(d) - 1
    ensures Before(p, d)
    ensures forall x :: IsValid(x) && Before(x, d) ==> !Before(p, x)
  {
    OrdinalOrder(p, d);
    forall x | IsValid(x) && Before(x, d)
      ensures !Before(p, x)
    {
      OrdinalOrder(x, d);
      OrdinalOrder(p, x);
    }
  }

  /** `d - timedelta(days = n)`: the date whose day number is `n` less, or
      `None` where Python raises OverflowError because that day would come
      before 0001-01-01. */
  function DaysBefore(d: Date, n: nat): (r: Option<Date>)
    requires IsValid(d)
    ensures r.Some? ==> IsValid(r.value) && Ordinal(r.value) == Ordinal(d) - n
    ensures r.None? <==> n >= Ordinal(d)
    ensures r.Some? && n > 0 ==> Before(r.value, d)
    decreases n
  {
    if n == 0 then Some(d)
    else
      var p := PrevDay(d);
      if p.None? then None
      else
        var r := DaysBefore(p.value, n - 1);
        assert r.Some? && n > 1 ==> Before(r.value, p.value);
        r
  }
}

/** ASCII character classes, trimming, case folding, decimal digits, and the
    code-point order on strings that Python's `<` and SQLite's BINARY
    collation both use. */
module Text {

  /** The ASCII characters that `str.strip()` removes and that the regex class
      `\s` matches: space, tab, line feed, vertical tab, form feed, carriage
      return, and the four separators 0x1C to 0x1F. */
  predicate IsSpace(c: char) {
    var n := c as int;
    n == 32 || 9 <= n <= 13 || 28 <= n <= 31
  }

  /** The regex class `\d`, restricted to ASCII. */
  predicate IsDigit(c: char) {
    '0' <= c <= '9'
  }

  /** The regex class `[A-Za-z]`. */
  predicate IsLetter(c: char) {
    'A' <= c <= 'Z' || 'a' <= c <= 'z'
  }

  predicate AllSpace(s: string) {
    forall i :: 0 <= i < |s| ==> IsSpace(s[i])
  }

  predicate AllDigits(s: string) {
    forall i :: 0 <= i < |s| ==> IsDigit(s[i])
  }

  predicate AllLetters(s: string) {
    forall i :: 0 <= i < |s| ==> IsLetter(s[i])
  }

  predicate StartsWith(s: string, prefix: string) {
    |prefix| <= |s| && s[..|prefix|] == prefix
  }

  /** End of the longest run of characters satisfying `p` that starts at `i`
      (what a greedy `p+` or `p*` consumes). */
  function RunEnd(s: string, i: nat, p: char -> bool): (j: nat)
    requires i <= |s|
    ensures i <= j <= |s|
    ensures forall k :: i <= k < j ==> p(s[k])
    ensures j < |s| ==> !p(s[j])
    decreases |s| - i
  {
    if i == |s| || !p(s[i]) then i else RunEnd(s, i + 1, p)
  }

  /** A run that is followed by a character outside `p` is the longest run. */
  lemma RunEndAt(s: string, i: nat, j: nat, p: char -> bool)
    requires i <= j <= |s|
    requires forall k :: i <= k < j ==> p(s[k])
    requires j < |s| ==> !p(s[j])
    ensures RunEnd(s, i, p) == j
  {
  }

  /** Start of the longest run of characters satisfying `p` that ends at `j`. */
  function RunStart(s: string, j: nat, p: char -> bool): (i: nat)
    requires j <= |s|
    ensures i <= j
    ensures forall k :: i <= k < j ==> p(s[k])
    ensures 0 < i ==> !p(s[i - 1])
  {
    if j == 0 || !p(s[j - 1]) then j else RunStart(s, j - 1, p)
  }

  /** Python's `str.strip()` over ASCII whitespace: the result is what is left
      of `s` once every leading and trailing space is removed. */
  function Strip(s: string): (r: string)
    ensures |r| <= |s|
    ensures r == [] <==> AllSpace(s)
    ensures r == [] || (!IsSpace(r[0]) && !IsSpace(r[|r| - 1]))
    ensures exists i :: 0 <= i <= |s| - |r| && r == s[i..i + |r|]
                        && AllSpace(s[..i]) && AllSpace(s[i + |r|..])
  {
    var a := RunEnd(s, 0, IsSpace);
    var b := RunStart(s, |s|, IsSpace);
    if b <= a then
      assert AllSpace(s[..a]) && AllSpace(s[a..]);
      []
    else
      assert s[b - 1] == s[a..b][b - 1 - a];
      assert AllSpace(s[..a]) && AllSpace(s[b..]);
      s[a..b]
  }

  /** Text that neither starts nor ends with a space is left as it is. */
  lemma StripUnchanged(s: string)
    requires s == [] || (!IsSpace(s[0]) && !IsSpace(s[|s| - 1]))
    ensures Strip(s) == s
  {
    if s != [] {
      assert RunEnd(s, 0, IsSpace) == 0;
      assert RunStart(s, |s|, IsSpace) == |s|;
      assert s[0..|s|] == s;
    }
  }

  /** Stripping twice strips nothing more. */
  lemma StripIdempotent(s: string)
    ensures Strip(Strip(s)) == Strip(s)
  {
    StripUnchanged(Strip(s));
  }

  function LowerChar(c: char): char {
    if 'A' <= c <= 'Z' then (c as int + 32) as char else c
  }

  /** Python's `str.lower()` over ASCII. */
  function Lower(s: string): (r: string)
    ensures |r| == |s|
    ensures forall i :: 0 <= i < |s| ==> r[i] == LowerChar(s[i])
  {
    seq(|s|, i requires 0 <= i < |s| => LowerChar(s[i]))
  }

  /** Lowering twice lowers nothing more. */
  lemma LowerIdempotent(s: string)
    ensures Lower(Lower(s)) == Lower(s)
  {
    forall i | 0 <= i < |s| ensures Lower(Lower(s))[i] == Lower(s)[i] {
      assert Lower(s)[i] == LowerChar(s[i]);
    }
  }

  /** Text that differs only in the case of its letters lowers alike. */
  lemma LowerIgnoresCase(s: string, t: string)
    requires |s| == |t|
    requires forall i :: 0 <= i < |s| ==> LowerChar(s[i]) == LowerChar(t[i])
    ensures Lower(s) == Lower(t)
  {
  }

  function DigitValue(c: char): nat
    requires IsDigit(c)
  {
    c as int - '0' as int
  }

  function DigitChar(n: nat): (c: char)
    requires n < 10
    ensures IsDigit(c) && DigitValue(c) == n
  {
    ('0' as int + n) as char
  }

  /** Python's `int()` on a string of decimal digits; a number written with
      `|s|` digits is below `10^|s|`. */
  function DigitsValue(s: string): (v: nat)
    requires AllDigits(s)
    ensures v < Pow10(|s|)
  {
    if s == [] then 0 else 10 * DigitsValue(s[..|s| - 1]) + DigitValue(s[|s| - 1])
  }

  /** Python's `str(n)`: decimal digits that read back as `n`, with a leading
      zero only in "0" itself. */
  function NumberText(n: nat): (r: string)
    ensures r != [] && AllDigits(r)
    ensures DigitsValue(r) == n
    ensures r[0] == '0' <==> n == 0
  {
    if n < 10 then [DigitChar(n)]
    else
      var r := NumberText(n / 10) + [DigitChar(n % 10)];
      assert r[..|r| - 1] == NumberText(n / 10);
      r
  }

  /** `str(n)` has at most `w` digits exactly when `n < 10^w`. */
  lemma {:induction false} NumberTextLength(n: nat, w: nat)
    requires w >= 1
    ensures |NumberText(n)| <= w <==> n < Pow10(w)
  {
    if n >= 10 && w > 1 {
      NumberTextLength(n / 10, w - 1);
    }
  }

  function Pow10(w: nat): (p: nat)
    ensures p >= 1
  {
    if w == 0 then 1 else 10 * Pow10(w - 1)
  }

  /** `n` written in decimal with exactly `w` digits, zero-padded on the left
      (the `%0wd` conversion; meaningful when `n < Pow10(w)`). */
  function Pad(w: nat, n: nat): (r: string)
    ensures |r| == w && AllDigits(r)
  {
    if w == 0 then [] else Pad(w - 1, n / 10) + [DigitChar(n % 10)]
  }

  /** Reading a zero-padded number back gives the number. */
  lemma {:induction false} DigitsValuePad(w: nat, n: nat)
    requires n < Pow10(w)
    ensures DigitsValue(Pad(w, n)) == n
  {
    if w > 0 {
      var p := Pad(w, n);
      assert p[..|p| - 1] == Pad(w - 1, n / 10);
      DigitsValuePad(w - 1, n / 10);
    }
  }

  /** Digits written back with their own width are the digits themselves. */
  lemma {:induction false} PadDigits(t: string)
    requires AllDigits(t)
    ensures Pad(|t|, DigitsValue(t)) == t
    decreases |t|
  {
    if t != [] {
      var n := |t| - 1;
      PadDigits(t[..n]);
      var v := DigitsValue(t);
      assert v / 10 == DigitsValue(t[..n]) && v % 10 == DigitValue(t[n]);
      assert DigitChar(DigitValue(t[n])) == t[n];
      assert t == t[..n] + [t[n]];
    }
  }

  /** Lexicographic order by code point, as Python compares `str` values and
      SQLite compares TEXT under the BINARY collation: a proper prefix comes
      first. */
  predicate Less(a: string, b: string)
    decreases |a|
  {
    if a == [] then b != []
    else b != [] && (a[0] < b[0] || (a[0] == b[0] && Less(a[1..], b[1..])))
  }

  /** `a <= b` in the same order. */
  predicate LessEq(a: string, b: string) {
    a == b || Less(a, b)
  }

  lemma {:induction false} LessIrreflexive(a: string)
    ensures !Less(a, a)
    decreases |a|
  {
    if a != [] {
      LessIrreflexive(a[1..]);
    }
  }

  lemma {:induction false} LessAsymmetric(a: string, b: string)
    requires Less(a, b)
    ensures !Less(b, a)
    decreases |a|
  {
    if a != [] && a[0] == b[0] {
      LessAsymmetric(a[1..], b[1..]);
    }
  }

  lemma {:induction false} LessTransitive(a: string, b: string, c: string)
    requires Less(a, b) && Less(b, c)
    ensures Less(a, c)
    decreases |a|
  {
    if a != [] && a[0] == b[0] && b[0] == c[0] {
      LessTransitive(a[1..], b[1..], c[1..]);
    }
  }

  lemma {:induction false} LessTotal(a: string, b: string)
    ensures a == b || Less(a, b) || Less(b, a)
    decreases |a|
  {
    if a != [] && b != [] && a[0] == b[0] {
      LessTotal(a[1..], b[1..]);
      if a[1..] == b[1..] {
        assert a == [a[0]] + a[1..] && b == [b[0]] + b[1..];
      }
    }
  }

  /** Comparing two strings whose first parts have the same length compares the
      first parts, and the rest only when the first parts are equal. */
  lemma {:induction false} LessConcat(a: string, b: string, c: string, d: string)
    requires |a| == |c|
    ensures Less(a + b, c + d) <==> Less(a, c) || (a == c && Less(b, d))
    decreases |a|
  {
    if a == [] {
      assert a + b == b && c + d == d;
    } else {
      assert (a + b)[1..] == a[1..] + b && (c + d)[1..] == c[1..] + d;
      LessConcat(a[1..], b, c[1..], d);
      assert a == c <==> a[0] == c[0] && a[1..] == c[1..] by {
        if a[0] == c[0] && a[1..] == c[1..] {
          assert a == [a[0]] + a[1..] && c == [c[0]] + c[1..];
        }
      }
    }
  }

  /** Zero-padded numbers of one width compare as text exactly as they compare
      as numbers. */
  lemma {:induction false} PadLess(w: nat, m: nat, n: nat)
    requires m < Pow10(w) && n < Pow10(w)
    ensures Less(Pad(w, m), Pad(w, n)) <==> m < n
  {
    if w > 0 {
      PadLess(w - 1, m / 10, n / 10);
      LessConcat(Pad(w - 1, m / 10), [DigitChar(m % 10)], Pad(w - 1, n / 10), [DigitChar(n % 10)]);
      DigitsValuePad(w - 1, m / 10);
      DigitsValuePad(w - 1, n / 10);
    }
  }
}

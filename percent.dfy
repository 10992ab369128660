/** `urllib.parse.quote` with its default safe character `/`: the text is
    encoded as UTF-8 and every byte outside the unreserved set of section 2.3
    of RFC 3986 and `/` becomes a `%XX` triple with upper-case hex digits
    (section 2.1 of RFC 3986). */
module PercentEncoding {
  import opened Wrappers

  type Byte = x: int | 0 <= x < 256

  /** UTF-8 encoding of one Unicode scalar value. */
  function Utf8Char(c: char): (bs: seq<Byte>)
    ensures 1 <= |bs| <= 4
    ensures c as int < 128 <==> |bs| == 1
    ensures c as int < 128 ==> bs[0] == c as int
    ensures c as int >= 128 ==> forall i :: 0 <= i < |bs| ==> bs[i] >= 128
  {
    var n := c as int;
    if n < 0x80 then [n]
    else if n < 0x800 then [0xC0 + n / 64, 0x80 + n % 64]
    else if n < 0x10000 then [0xE0 + n / 4096, 0x80 + (n / 64) % 64, 0x80 + n % 64]
    else [0xF0 + n / 262144, 0x80 + (n / 4096) % 64, 0x80 + (n / 64) % 64, 0x80 + n % 64]
  }

  /** `s.encode("utf-8")`. */
  function Utf8(s: string): seq<Byte> {
    if s == [] then [] else Utf8Char(s[0]) + Utf8(s[1..])
  }

  /** The characters `quote` never encodes: ASCII letters and digits, `_.-~`,
      and the safe character `/`. */
  predicate IsKept(c: char) {
    'A' <= c <= 'Z' || 'a' <= c <= 'z' || '0' <= c <= '9'
    || c == '_' || c == '.' || c == '-' || c == '~' || c == '/'
  }

  predicate IsHexDigit(c: char) {
    '0' <= c <= '9' || 'A' <= c <= 'F'
  }

  function HexDigit(n: int): (c: char)
    requires 0 <= n < 16
    ensures IsHexDigit(c) && HexValue(c) == n
  {
    if n < 10 then ('0' as int + n) as char else ('A' as int + n - 10) as char
  }

  function HexValue(c: char): int
    requires IsHexDigit(c)
  {
    if c <= '9' then c as int - '0' as int else c as int - 'A' as int + 10
  }

  /** One byte as `quote` writes it. */
  function QuoteByte(b: Byte): string {
    if b < 128 && IsKept(b as char) then [b as char]
    else ['%', HexDigit(b / 16), HexDigit(b % 16)]
  }

  function QuoteBytes(bs: seq<Byte>): string {
    if bs == [] then [] else QuoteByte(bs[0]) + QuoteBytes(bs[1..])
  }

  /** Text made only of kept characters and `%XX` triples. */
  predicate WellEncoded(s: string)
    decreases |s|
  {
    s == []
    || (IsKept(s[0]) && WellEncoded(s[1..]))
    || (|s| >= 3 && s[0] == '%' && IsHexDigit(s[1]) && IsHexDigit(s[2]) && WellEncoded(s[3..]))
  }

  /** A byte `quote` writes as itself. */
  predicate IsKeptByte(b: int) {
    0 <= b < 128 && IsKept(b as char)
  }

  /** Well-encoded text in which no `%XX` triple stands for a byte that
      `quote` would have left as itself: the one spelling `quote` uses. */
  predicate Canonical(s: string)
    decreases |s|
  {
    s == []
    || (IsKept(s[0]) && Canonical(s[1..]))
    || (|s| >= 3 && s[0] == '%' && IsHexDigit(s[1]) && IsHexDigit(s[2])
        && !IsKeptByte(HexValue(s[1]) * 16 + HexValue(s[2])) && Canonical(s[3..]))
  }

  /** Percent-decoding to bytes; `None` for text `quote` cannot produce. */
  function Unquote(s: string): (r: Option<seq<Byte>>)
    decreases |s|
  {
    if s == [] then Some([])
    else if s[0] == '%' then
      if |s| >= 3 && IsHexDigit(s[1]) && IsHexDigit(s[2]) then
        match Unquote(s[3..])
        case None => None
        case Some(rest) => Some([HexValue(s[1]) * 16 + HexValue(s[2])] + rest)
      else None
    else if IsKept(s[0]) then
      match Unquote(s[1..])
      case None => None
      case Some(rest) => Some([s[0] as int] + rest)
    else None
  }

  /** `urllib.parse.quote(s)`. Its output uses only kept characters and `%XX`
      triples, and decoding it gives back the UTF-8 bytes of `s`. */
  function Quote(s: string): (r: string)
    ensures WellEncoded(r) && Canonical(r)
    ensures Unquote(r) == Some(Utf8(s))
  {
    QuoteBytesWellEncoded(Utf8(s));
    QuoteBytesCanonical(Utf8(s));
    QuoteBytesRoundTrip(Utf8(s));
    QuoteBytes(Utf8(s))
  }

  lemma {:induction false} QuoteBytesWellEncoded(bs: seq<Byte>)
    ensures WellEncoded(QuoteBytes(bs))
  {
    if bs != [] {
      QuoteBytesWellEncoded(bs[1..]);
      var q, rest := QuoteByte(bs[0]), QuoteBytes(bs[1..]);
      if |q| == 1 {
        assert (q + rest)[1..] == rest;
      } else {
        assert (q + rest)[3..] == rest;
      }
    }
  }

  /** Decoding what `quote` wrote gives back the bytes it was given. */
  lemma {:induction false} QuoteBytesRoundTrip(bs: seq<Byte>)
    ensures Unquote(QuoteBytes(bs)) == Some(bs)
  {
    if bs != [] {
      QuoteBytesRoundTrip(bs[1..]);
      var b, q, rest := bs[0], QuoteByte(bs[0]), QuoteBytes(bs[1..]);
      assert bs == [b] + bs[1..];
      if |q| == 1 {
        assert (q + rest)[1..] == rest;
      } else {
        assert (q + rest)[3..] == rest;
        assert HexValue(q[1]) * 16 + HexValue(q[2]) == b;
      }
    }
  }

  /** `quote` escapes only bytes outside the kept set. */
  lemma {:induction false} QuoteBytesCanonical(bs: seq<Byte>)
    ensures Canonical(QuoteBytes(bs))
  {
    if bs != [] {
      QuoteBytesCanonical(bs[1..]);
      var b, q, rest := bs[0], QuoteByte(bs[0]), QuoteBytes(bs[1..]);
      if |q| == 1 {
        assert (q + rest)[1..] == rest;
      } else {
        assert (q + rest)[3..] == rest;
        assert HexValue(q[1]) * 16 + HexValue(q[2]) == b;
      }
    }
  }

  lemma HexRoundTrip(c: char)
    requires IsHexDigit(c)
    ensures HexDigit(HexValue(c)) == c
  {
  }

  lemma QuoteBytesCons(b: Byte, rest: seq<Byte>)
    ensures QuoteBytes([b] + rest) == QuoteByte(b) + QuoteBytes(rest)
  {
    assert ([b] + rest)[1..] == rest;
  }

  /** A canonical `%XX` triple is how `quote` writes its byte. */
  lemma EscapedHead(s: string)
    requires |s| >= 3 && s[0] == '%' && IsHexDigit(s[1]) && IsHexDigit(s[2])
    requires !IsKeptByte(HexValue(s[1]) * 16 + HexValue(s[2]))
    ensures QuoteByte(HexValue(s[1]) * 16 + HexValue(s[2])) == s[..3]
  {
    HexRoundTrip(s[1]);
    HexRoundTrip(s[2]);
  }

  /** Canonical text that decodes to `bs` is exactly what `quote` writes for
      `bs`: with the round trip, this fixes `quote`'s output. */
  lemma {:induction false} CanonicalUnique(s: string, bs: seq<Byte>)
    requires Canonical(s) && Unquote(s) == Some(bs)
    ensures QuoteBytes(bs) == s
    decreases |s|
  {
    if s != [] {
      if s[0] == '%' {
        var v := HexValue(s[1]) * 16 + HexValue(s[2]);
        var rest := Unquote(s[3..]).value;
        assert bs == [v] + rest;
        CanonicalUnique(s[3..], rest);
        EscapedHead(s);
        QuoteBytesCons(v, rest);
        assert s == s[..3] + s[3..];
      } else {
        var rest := Unquote(s[1..]).value;
        assert bs == [s[0] as int] + rest;
        CanonicalUnique(s[1..], rest);
        QuoteBytesCons(s[0] as int, rest);
        assert s == [s[0]] + s[1..];
      }
    }
  }
}

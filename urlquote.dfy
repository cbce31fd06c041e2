/** `urllib.parse.quote(s)` with its default `safe='/'`: the string is
    encoded as UTF-8, and every byte outside the unreserved set of section
    2.3 of RFC 3986 (ASCII letters, digits, "-", ".", "_", "~") and other
    than "/" becomes a percent-encoded octet as in section 2.1 of RFC 3986,
    written with upper-case hexadecimal digits. */
module UrlQuote {
  import opened Maybe

  type Byte = b: int | 0 <= b < 256

  /** The UTF-8 encoding of one Unicode scalar value. */
  function Utf8Char(c: char): (r: seq<Byte>)
    ensures 1 <= |r| <= 4
    ensures (c as int < 0x80) <==> (|r| == 1)
    ensures |r| == 1 ==> r[0] == c as int
    ensures |r| > 1 ==> r[0] >= 0xC0 && forall k :: 1 <= k < |r| ==> 0x80 <= r[k] < 0xC0
  {
    var cp := c as int;
    if cp < 0x80 then [cp]
    else if cp < 0x800 then [0xC0 + cp / 64, 0x80 + cp % 64]
    else if cp < 0x10000 then [0xE0 + cp / 4096, 0x80 + cp / 64 % 64, 0x80 + cp % 64]
    else [0xF0 + cp / 262144, 0x80 + cp / 4096 % 64, 0x80 + cp / 64 % 64, 0x80 + cp % 64]
  }

  /** `s.encode("utf-8")`. */
  function Utf8(s: string): seq<Byte> {
    if s == [] then [] else Utf8Char(s[0]) + Utf8(s[1..])
  }

  /** Bytes `quote` never encodes with `safe='/'`. */
  predicate IsSafe(b: Byte) {
    || ('A' as int <= b <= 'Z' as int)
    || ('a' as int <= b <= 'z' as int)
    || ('0' as int <= b <= '9' as int)
    || b == '_' as int || b == '.' as int || b == '-' as int || b == '~' as int
    || b == '/' as int
  }

  function HexDigit(d: nat): (c: char)
    requires d < 16
  {
    "0123456789ABCDEF"[d]
  }

  predicate IsHexDigit(c: char) {
    ('0' <= c <= '9') || ('A' <= c <= 'F')
  }

  function HexValue(c: char): (d: nat)
    requires IsHexDigit(c)
    ensures d < 16
  {
    if c <= '9' then c as int - '0' as int else c as int - 'A' as int + 10
  }

  lemma HexRoundTrip(d: nat)
    requires d < 16
    ensures IsHexDigit(HexDigit(d)) && HexValue(HexDigit(d)) == d
  {
  }

  /** One byte as `quote` writes it: itself, or "%XX". */
  function Escape(b: Byte): (r: string)
    ensures |r| == 1 || |r| == 3
  {
    if IsSafe(b) then [b as char] else ['%', HexDigit(b / 16), HexDigit(b % 16)]
  }

  function QuoteBytes(bs: seq<Byte>): string {
    if bs == [] then [] else Escape(bs[0]) + QuoteBytes(bs[1..])
  }

  /** `urllib.parse.quote(s)`. */
  function Quote(s: string): string {
    QuoteBytes(Utf8(s))
  }

  /** The inverse direction: "%XX" gives the byte XX, any other character
      below 256 gives itself; anything else is not a quoted string. */
  function Unquote(s: string): Option<seq<Byte>> {
    if s == [] then Some([])
    else if s[0] == '%' && |s| >= 3 && IsHexDigit(s[1]) && IsHexDigit(s[2]) then
      match Unquote(s[3..])
      case None => None
      case Some(rest) => Some([HexValue(s[1]) * 16 + HexValue(s[2])] + rest)
    else if s[0] as int < 256 then
      match Unquote(s[1..])
      case None => None
      case Some(rest) => Some([s[0] as int] + rest)
    else None
  }

  lemma UnquoteEscape(b: Byte, t: string)
    ensures Unquote(Escape(b) + t) == match Unquote(t) case None => None case Some(rest) => Some([b] + rest)
  {
    var e := Escape(b) + t;
    if IsSafe(b) {
      assert e[1..] == t;
    } else {
      HexRoundTrip(b / 16);
      HexRoundTrip(b % 16);
      assert e[3..] == t;
    }
  }

  /** Decoding what `quote` wrote gives back the bytes it was given. */
  lemma {:induction false} UnquoteQuoteBytes(bs: seq<Byte>)
    ensures Unquote(QuoteBytes(bs)) == Some(bs)
  {
    if bs != [] {
      UnquoteQuoteBytes(bs[1..]);
      UnquoteEscape(bs[0], QuoteBytes(bs[1..]));
      assert [bs[0]] + bs[1..] == bs;
    }
  }

  /** Hence the quoted form of a string decodes to its UTF-8 bytes. */
  lemma UnquoteQuote(s: string)
    ensures Unquote(Quote(s)) == Some(Utf8(s))
  {
    UnquoteQuoteBytes(Utf8(s));
  }

  /** Characters that can appear in `quote`'s output. */
  predicate IsQuotedChar(c: char) {
    c == '%' || (c as int < 256 && IsSafe(c as int))
  }

  lemma EscapeChars(b: Byte)
    ensures forall k :: 0 <= k < |Escape(b)| ==> IsQuotedChar(Escape(b)[k])
  {
    if !IsSafe(b) {
      HexRoundTrip(b / 16);
      HexRoundTrip(b % 16);
    }
  }

  /** The output holds only safe characters and '%' escapes. */
  lemma {:induction false} QuoteBytesChars(bs: seq<Byte>)
    ensures forall k :: 0 <= k < |QuoteBytes(bs)| ==> IsQuotedChar(QuoteBytes(bs)[k])
  {
    if bs != [] {
      QuoteBytesChars(bs[1..]);
      EscapeChars(bs[0]);
      var e, t := Escape(bs[0]), QuoteBytes(bs[1..]);
      assert QuoteBytes(bs) == e + t;
      forall k | 0 <= k < |e + t| ensures IsQuotedChar((e + t)[k]) {
        if k >= |e| {
          assert (e + t)[k] == t[k - |e|];
        } else {
          assert (e + t)[k] == e[k];
        }
      }
    }
  }

  lemma {:induction false} Utf8Concat(a: string, b: string)
    ensures Utf8(a + b) == Utf8(a) + Utf8(b)
  {
    if a == [] {
      assert a + b == b;
    } else {
      assert (a + b)[1..] == a[1..] + b;
      Utf8Concat(a[1..], b);
    }
  }

  lemma {:induction false} QuoteBytesConcat(a: seq<Byte>, b: seq<Byte>)
    ensures QuoteBytes(a + b) == QuoteBytes(a) + QuoteBytes(b)
  {
    if a == [] {
      assert a + b == b;
    } else {
      assert (a + b)[1..] == a[1..] + b;
      QuoteBytesConcat(a[1..], b);
    }
  }

  /** Quoting works character by character. */
  lemma QuoteConcat(a: string, b: string)
    ensures Quote(a + b) == Quote(a) + Quote(b)
  {
    Utf8Concat(a, b);
    QuoteBytesConcat(Utf8(a), Utf8(b));
  }

  /** A string made only of safe ASCII characters is left as it is. */
  lemma {:induction false} QuoteSafe(s: string)
    requires forall k :: 0 <= k < |s| ==> s[k] as int < 0x80 && IsSafe(s[k] as int)
    ensures Quote(s) == s
  {
    if s != [] {
      QuoteSafe(s[1..]);
      assert Utf8(s) == [s[0] as int] + Utf8(s[1..]);
      assert ([s[0] as int] + Utf8(s[1..]))[1..] == Utf8(s[1..]);
    }
  }

  /** The scheme separator is escaped and the slashes are kept. */
  lemma QuoteColon()
    ensures Quote(":") == "%3A"
  {
    assert Utf8(":") == [58];
    assert QuoteBytes([58]) == Escape(58);
  }

  lemma QuoteExampleHost()
    ensures Quote("//shop-a.com/product/123") == "//shop-a.com/product/123"
  {
    QuoteSafe("//shop-a.com/product/123");
  }

  lemma QuoteExampleScheme()
    ensures Quote("https" + ":") == "https" + "%3A"
  {
    QuoteSafe("https");
    QuoteColon();
    QuoteConcat("https", ":");
  }

  lemma QuoteExampleParts()
    ensures Quote("https" + ":" + "//shop-a.com/product/123") == "https" + "%3A" + "//shop-a.com/product/123"
  {
    QuoteExampleScheme();
    QuoteExampleHost();
    QuoteConcat("https" + ":", "//shop-a.com/product/123");
  }

  /** The product url of the affiliate tests, "https://shop-a.com/product/123".
      It is written in two pieces so that the verifier works from the lemmas
      above instead of evaluating `Quote` on the whole literal. */
  const ExampleUrl: string := "https" + ":" + "//shop-a.com/product/123"

  lemma QuoteExample()
    ensures Quote(ExampleUrl) == "https" + "%3A" + "//shop-a.com/product/123"
  {
    QuoteExampleParts();
  }
}

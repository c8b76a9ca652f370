/**
 * core/urls.py: the e-mail verification link, the request's base URL with
 * its trailing slashes removed, the verification path, and a query holding
 * one `token` parameter encoded as `urllib.parse.urlencode` does (UTF-8
 * bytes, `quote_plus` with no extra safe characters).
 */
module Urls {
  import opened Wrappers
  import opened Text

  /** An octet of the UTF-8 encoding. */
  type Byte = b: int | 0 <= b < 256

  /** The characters `quote` never escapes: ASCII letters and digits and `_.-~`. */
  predicate IsUnreserved(c: char) {
    IsAsciiUpper(c) || IsAsciiLower(c) || IsAsciiDigit(c) || c == '_' || c == '.' || c == '-' || c == '~'
  }

  /** The UTF-8 encoding of one code point, as `str.encode("utf-8")` gives it. */
  function Utf8(c: char): (bs: seq<Byte>)
    ensures 1 <= |bs| <= 4
    ensures c as int < 0x80 <==> |bs| == 1
    ensures c as int < 0x80 ==> bs[0] == c as int
    ensures c as int >= 0x80 ==> bs[0] >= 0xC0 && forall i :: 1 <= i < |bs| ==> 0x80 <= bs[i] < 0xC0
  {
    var cp := c as int;
    if cp < 0x80 then [cp]
    else if cp < 0x800 then [0xC0 + cp / 64, 0x80 + cp % 64]
    else if cp < 0x10000 then [0xE0 + cp / 4096, 0x80 + (cp / 64) % 64, 0x80 + cp % 64]
    else [0xF0 + cp / 262144, 0x80 + (cp / 4096) % 64, 0x80 + (cp / 64) % 64, 0x80 + cp % 64]
  }

  /** The UTF-8 encoding of a string. */
  function Utf8String(s: string): (bs: seq<Byte>)
    ensures |bs| >= |s|
  {
    if |s| == 0 then [] else Utf8(s[0]) + Utf8String(s[1..])
  }

  /** The upper-case hexadecimal digit `quote` writes for `n`. */
  function HexDigit(n: nat): (c: char)
    requires n < 16
    ensures IsAsciiDigit(c) || 'A' <= c <= 'F'
  {
    if n < 10 then ('0' as int + n) as char else ('A' as int + n - 10) as char
  }

  /** The value of a hexadecimal digit, either case; None for any other character. */
  function HexValue(c: char): (v: Option<nat>)
    ensures v.Some? ==> v.value < 16
  {
    if IsAsciiDigit(c) then Some(c as int - '0' as int)
    else if 'A' <= c <= 'F' then Some(c as int - 'A' as int + 10)
    else if 'a' <= c <= 'f' then Some(c as int - 'a' as int + 10)
    else None
  }

  /** `quote_plus` on one octet: kept when unreserved, '+' for a space, `%XX` otherwise. */
  function QuoteByte(b: Byte): (r: string)
    ensures b < 0x80 && IsUnreserved(b as char) ==> r == [b as char]
    ensures b == 0x20 ==> r == "+"
    ensures forall i :: 0 <= i < |r| ==> IsQueryValueChar(r[i])
  {
    if b < 0x80 && IsUnreserved(b as char) then [b as char]
    else if b == 0x20 then "+"
    else ['%', HexDigit(b / 16), HexDigit(b % 16)]
  }

  /** What an encoded value may hold: unreserved characters, '+', '%' and hexadecimal digits. */
  predicate IsQueryValueChar(c: char) {
    IsUnreserved(c) || c == '+' || c == '%'
  }

  function QuoteBytes(bs: seq<Byte>): (r: string)
    ensures forall i :: 0 <= i < |r| ==> IsQueryValueChar(r[i])
  {
    if |bs| == 0 then [] else QuoteByte(bs[0]) + QuoteBytes(bs[1..])
  }

  /** `quote_plus(s)`: the UTF-8 octets of `s`, each escaped by `QuoteByte`. */
  function QuotePlus(s: string): (r: string)
    ensures forall i :: 0 <= i < |r| ==> IsQueryValueChar(r[i])
    ensures '&' !in r && '=' !in r
  {
    var r := QuoteBytes(Utf8String(s));
    assert forall c :: c in r ==> IsQueryValueChar(c);
    r
  }

  /**
   * The reverse of `QuoteBytes` (what `unquote_plus` does before UTF-8
   * decoding): '+' is a space, `%XX` an octet, any other ASCII character
   * itself; anything else is malformed.
   */
  function PercentDecode(s: string): (r: Option<seq<Byte>>)
    decreases |s|
  {
    if |s| == 0 then Some([])
    else if s[0] == '%' then
      if |s| < 3 || HexValue(s[1]).None? || HexValue(s[2]).None? then None
      else
        match PercentDecode(s[3..])
        case None => None
        case Some(rest) => Some([HexValue(s[1]).value * 16 + HexValue(s[2]).value] + rest)
    else if s[0] == '+' then
      match PercentDecode(s[1..])
      case None => None
      case Some(rest) => Some([0x20] + rest)
    else if s[0] as int < 0x80 then
      match PercentDecode(s[1..])
      case None => None
      case Some(rest) => Some([s[0] as int] + rest)
    else None
  }

  lemma HexRoundTrip(n: nat)
    requires n < 16
    ensures HexValue(HexDigit(n)) == Some(n)
  {
  }

  /** Decoding an escaped octet followed by anything decodes the octet, then the rest. */
  lemma DecodeQuoteByte(b: Byte, rest: string)
    ensures PercentDecode(QuoteByte(b) + rest) ==
      match PercentDecode(rest)
      case None => None
      case Some(bs) => Some([b] + bs)
  {
    var q := QuoteByte(b);
    if b < 0x80 && IsUnreserved(b as char) {
      assert (q + rest)[1..] == rest;
    } else if b == 0x20 {
      assert (q + rest)[1..] == rest;
    } else {
      HexRoundTrip(b / 16);
      HexRoundTrip(b % 16);
      assert (q + rest)[3..] == rest;
    }
  }

  /** Decoding the encoding of any octets gives them back. */
  lemma {:induction false} QuoteBytesRoundTrip(bs: seq<Byte>)
    ensures PercentDecode(QuoteBytes(bs)) == Some(bs)
  {
    if |bs| > 0 {
      QuoteBytesRoundTrip(bs[1..]);
      DecodeQuoteByte(bs[0], QuoteBytes(bs[1..]));
      assert [bs[0]] + bs[1..] == bs;
    }
  }

  /** A string of unreserved characters is left as it is. */
  lemma {:induction false} QuotePlusKeepsUnreserved(s: string)
    requires forall i :: 0 <= i < |s| ==> IsUnreserved(s[i])
    ensures QuotePlus(s) == s
  {
    if |s| > 0 {
      QuotePlusKeepsUnreserved(s[1..]);
      assert IsUnreserved(s[0]);
      assert QuoteBytes(Utf8String(s)) == QuoteByte(s[0] as int) + QuoteBytes(Utf8String(s[1..]));
      assert s == [s[0]] + s[1..];
    }
  }

  /** Each space becomes '+', and the string around it is encoded piece by piece. */
  lemma QuotePlusSpace(a: string, b: string)
    ensures QuotePlus(a + " " + b) == QuotePlus(a) + "+" + QuotePlus(b)
  {
    var sb := " " + b;
    assert sb[0] == ' ' && sb[1..] == b;
    assert Utf8String(sb) == [0x20] + Utf8String(b);
    Utf8StringAppend(a, sb);
    assert a + " " + b == a + sb;
    QuoteBytesAppend(Utf8String(a), [0x20] + Utf8String(b));
    var t := [0x20] + Utf8String(b);
    assert t[0] == 0x20 && t[1..] == Utf8String(b);
    assert QuoteBytes(t) == "+" + QuoteBytes(Utf8String(b));
  }

  lemma {:induction false} Utf8StringAppend(a: string, b: string)
    ensures Utf8String(a + b) == Utf8String(a) + Utf8String(b)
  {
    if |a| > 0 {
      assert (a + b)[0] == a[0] && (a + b)[1..] == a[1..] + b;
      Utf8StringAppend(a[1..], b);
    } else {
      assert a + b == b;
    }
  }

  lemma {:induction false} QuoteBytesAppend(a: seq<Byte>, b: seq<Byte>)
    ensures QuoteBytes(a + b) == QuoteBytes(a) + QuoteBytes(b)
  {
    if |a| > 0 {
      assert (a + b)[0] == a[0] && (a + b)[1..] == a[1..] + b;
      QuoteBytesAppend(a[1..], b);
    } else {
      assert a + b == b;
    }
  }

  predicate IsSlash(c: char) {
    c == '/'
  }

  /** The path and query appended to the base. */
  const VerifyPath: string := "/auth/verify?"

  /** `token=` and an encoded value: one parameter, no separator inside the value. */
  lemma QueryShape(value: string)
    requires forall i :: 0 <= i < |value| ==> IsQueryValueChar(value[i])
    ensures var query := "token=" + value;
      query[..6] == "token=" && query[6..] == value && '&' !in query && '=' !in value
  {
    var query := "token=" + value;
    assert query[..6] == "token=" && query[6..] == value;
    forall i | 0 <= i < |query| ensures query[i] != '&' {
      if i >= 6 { assert query[i] == value[i - 6]; }
    }
  }

  /** The three pieces of a concatenation, sliced back out. */
  lemma Concat3(a: string, b: string, c: string)
    ensures var s := a + b + c;
      s[..|a|] == a && s[|a|..|a| + |b|] == b && s[|a| + |b|..] == c
  {
  }

  /**
   * `build_verify_link`: the base URL without its trailing slashes, the
   * verification path, and a query whose only parameter is `token`, whose
   * value decodes to the token's UTF-8 octets.
   */
  function BuildVerifyLink(baseUrl: string, token: string): (link: string)
    ensures var base := TrimEnd(baseUrl, IsSlash);
      && baseUrl[..|base|] == base && (|base| > 0 ==> base[|base| - 1] != '/')
      && (forall i :: |base| <= i < |baseUrl| ==> baseUrl[i] == '/')
      && |link| >= |base| + |VerifyPath| + 6
      && link[..|base|] == base
      && link[|base|..|base| + |VerifyPath|] == VerifyPath
      && var query := link[|base| + |VerifyPath|..];
        && query[..6] == "token="
        && '&' !in query && '=' !in query[6..]
        && PercentDecode(query[6..]) == Some(Utf8String(token))
  {
    var base := TrimEnd(baseUrl, IsSlash);
    var value := QuotePlus(token);
    QuoteBytesRoundTrip(Utf8String(token));
    var query := "token=" + value;
    QueryShape(value);
    var link := base + VerifyPath + query;
    Concat3(base, VerifyPath, query);
    link
  }
}

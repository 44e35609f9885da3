/**
 * Python 2's `urllib.quote(s.encode('utf-8'), safe='@')` as `client.py` applies it: the text is encoded as
 * UTF-8 (RFC 3629) and every byte outside the unreserved set is percent-encoded as `%XX` with upper-case
 * hexadecimal digits (section 2.1 of RFC 3986). Python 2 keeps ASCII letters, digits and `_.-` unescaped;
 * `@` is added to them.
 */
module UrlQuote {
  import opened Wrappers

  type Byte = b: int | 0 <= b < 256

  /** The code points a `char` can hold: the Unicode scalar values. */
  predicate IsScalar(n: int) {
    (0 <= n < 0xD800) || (0xE000 <= n < 0x110000)
  }

  /** The UTF-8 encoding of one character: one to four bytes. */
  function EncodeChar(c: char): (r: seq<Byte>)
    ensures 1 <= |r| <= 4
  {
    var n := c as int;
    var n1 := n / 64;
    var n2 := n1 / 64;
    var n3 := n2 / 64;
    if n < 0x80 then [n]
    else if n < 0x800 then [0xC0 + n1, 0x80 + n % 64]
    else if n < 0x10000 then [0xE0 + n2, 0x80 + n1 % 64, 0x80 + n % 64]
    else [0xF0 + n3, 0x80 + n2 % 64, 0x80 + n1 % 64, 0x80 + n % 64]
  }

  /** `s.encode('utf-8')` */
  function Encode(s: string): seq<Byte> {
    if s == [] then [] else EncodeChar(s[0]) + Encode(s[1..])
  }

  /** A continuation byte `10xxxxxx`. */
  predicate IsCont(b: Byte) {
    0x80 <= b < 0xC0
  }

  /** The length of the sequence a lead byte starts, or 0 for a byte that cannot start one. */
  function LeadLength(b: Byte): int {
    if b < 0x80 then 1 else if b < 0xC0 then 0 else if b < 0xE0 then 2
    else if b < 0xF0 then 3 else if b < 0xF8 then 4 else 0
  }

  /** UTF-8 decoding; `None` for a malformed sequence. */
  function Decode(b: seq<Byte>): Option<string>
    decreases |b|
  {
    if b == [] then Some([])
    else
      var len := LeadLength(b[0]);
      if len == 0 || |b| < len || exists k :: 1 <= k < len && !IsCont(b[k]) then None
      else
        var n := CodePoint(b[..len]);
        match Decode(b[len..])
        case None => None
        case Some(rest) => if IsScalar(n) then Some([n as char] + rest) else None
  }

  /** The code point a one- to four-byte sequence carries (continuation bits appended to the lead bits). */
  function CodePoint(b: seq<Byte>): int
    requires 1 <= |b| <= 4
  {
    var b0, b1, b2, b3 := b[0] as int, if |b| > 1 then b[1] as int else 0,
      if |b| > 2 then b[2] as int else 0, if |b| > 3 then b[3] as int else 0;
    if |b| == 1 then b0
    else if |b| == 2 then (b0 - 0xC0) * 64 + (b1 - 0x80)
    else if |b| == 3 then ((b0 - 0xE0) * 64 + (b1 - 0x80)) * 64 + (b2 - 0x80)
    else (((b0 - 0xF0) * 64 + (b1 - 0x80)) * 64 + (b2 - 0x80)) * 64 + (b3 - 0x80)
  }

  /** The encoding of a character starts with a lead byte announcing its length, continues with continuation
   *  bytes, and carries the character's code point. */
  lemma EncodeCharSpec(c: char)
    ensures var e := EncodeChar(c);
      && LeadLength(e[0]) == |e|
      && (forall k :: 1 <= k < |e| ==> IsCont(e[k]))
      && CodePoint(e) == c as int
  {
    var n := c as int;
    var n1 := n / 64;
    var n2 := n1 / 64;
    var n3 := n2 / 64;
    assert n == n1 * 64 + n % 64;
    assert n1 == n2 * 64 + n1 % 64;
    assert n2 == n3 * 64 + n2 % 64;
  }

  /** The encoding of one character is read back as that character, whatever follows it. */
  lemma DecodeChar(c: char, rest: seq<Byte>)
    ensures Decode(EncodeChar(c) + rest) ==
      match Decode(rest) case None => None case Some(t) => Some([c] + t)
  {
    var e := EncodeChar(c);
    var b := e + rest;
    EncodeCharSpec(c);
    assert b[0] == e[0] && b[..|e|] == e && b[|e|..] == rest;
    assert forall k :: 1 <= k < |e| ==> b[k] == e[k];
  }

  /** UTF-8 encoding loses nothing: decoding gives the text back. */
  lemma {:induction false} DecodeEncode(s: string)
    ensures Decode(Encode(s)) == Some(s)
  {
    if s != [] {
      DecodeEncode(s[1..]);
      DecodeChar(s[0], Encode(s[1..]));
      assert s == [s[0]] + s[1..];
    }
  }

  /** ASCII text is its own encoding, byte for character. */
  lemma {:induction false} EncodeAscii(s: string)
    requires forall k :: 0 <= k < |s| ==> s[k] as int < 0x80
    ensures |Encode(s)| == |s| && forall k :: 0 <= k < |s| ==> Encode(s)[k] == s[k] as int
  {
    if s != [] {
      EncodeAscii(s[1..]);
    }
  }

  /** The bytes `quote(..., safe='@')` leaves as they are: ASCII letters, digits, `_`, `.`, `-` and `@`. */
  predicate IsSafe(b: int) {
    ('A' as int <= b <= 'Z' as int) || ('a' as int <= b <= 'z' as int) || ('0' as int <= b <= '9' as int)
    || b == '_' as int || b == '.' as int || b == '-' as int || b == '@' as int
  }

  /** The upper-case hexadecimal digit for `d`. */
  function HexDigit(d: int): char
    requires 0 <= d < 16
  {
    if d < 10 then ('0' as int + d) as char else ('A' as int + d - 10) as char
  }

  predicate IsHexDigit(c: char) {
    ('0' <= c <= '9') || ('A' <= c <= 'F')
  }

  /** One byte as `quote` writes it: itself when safe, else `%` and two upper-case hex digits. */
  function QuoteByte(b: Byte): (r: string)
    ensures IsSafe(b) ==> r == [b as char]
    ensures !IsSafe(b) ==> |r| == 3 && r[0] == '%'
  {
    if IsSafe(b) then [b as char] else ['%', HexDigit(b / 16), HexDigit(b % 16)]
  }

  function QuoteBytes(b: seq<Byte>): string {
    if b == [] then "" else QuoteByte(b[0]) + QuoteBytes(b[1..])
  }

  /** `quote(s.encode('utf-8'), safe='@')` */
  function Quote(s: string): string {
    QuoteBytes(Encode(s))
  }

  /** The value of a hex digit, or -1. */
  function HexValue(c: char): (v: int)
    ensures -1 <= v < 16
    ensures v == -1 <==> !IsHexDigit(c)
    ensures 0 <= v ==> HexDigit(v) == c
  {
    if '0' <= c <= '9' then c as int - '0' as int
    else if 'A' <= c <= 'F' then c as int - 'A' as int + 10
    else -1
  }

  /** `unquote` back to bytes: each `%XX` is one byte, every other character one byte of its own. */
  function UnquoteBytes(q: string): Option<seq<Byte>>
    decreases |q|
  {
    if q == [] then Some([])
    else if q[0] == '%' then
      if |q| < 3 || HexValue(q[1]) < 0 || HexValue(q[2]) < 0 then None
      else
        match UnquoteBytes(q[3..])
        case None => None
        case Some(rest) => Some([HexValue(q[1]) * 16 + HexValue(q[2])] + rest)
    else if q[0] as int < 256 then
      match UnquoteBytes(q[1..])
      case None => None
      case Some(rest) => Some([q[0] as int] + rest)
    else None
  }

  /** Unquoting a quoted byte sequence gives the bytes back. */
  lemma {:induction false} UnquoteQuoteBytes(b: seq<Byte>)
    ensures UnquoteBytes(QuoteBytes(b)) == Some(b)
  {
    if b != [] {
      UnquoteQuoteBytes(b[1..]);
      var q := QuoteBytes(b);
      var h := QuoteByte(b[0]);
      assert q == h + QuoteBytes(b[1..]);
      if IsSafe(b[0]) {
        assert q[1..] == QuoteBytes(b[1..]);
      } else {
        assert q[3..] == QuoteBytes(b[1..]);
        assert HexValue(q[1]) == b[0] / 16 && HexValue(q[2]) == b[0] % 16;
      }
      assert b == [b[0]] + b[1..];
    }
  }

  /** `unquote(...).decode('utf-8')` */
  function Unquote(q: string): Option<string> {
    match UnquoteBytes(q)
    case None => None
    case Some(b) => Decode(b)
  }

  /** Percent-encoding is reversible: the recipients can be read back from the URL. */
  lemma QuoteRoundTrip(s: string)
    ensures Unquote(Quote(s)) == Some(s)
  {
    UnquoteQuoteBytes(Encode(s));
    DecodeEncode(s);
  }

  /** Every character of a quoted text is ASCII: a safe character, `%`, or a hex digit. */
  lemma {:induction false} QuoteBytesAscii(b: seq<Byte>)
    ensures forall k :: 0 <= k < |QuoteBytes(b)| ==>
      var c := QuoteBytes(b)[k]; IsSafe(c as int) || c == '%' || IsHexDigit(c)
  {
    if b != [] {
      QuoteBytesAscii(b[1..]);
      var h := QuoteByte(b[0]);
      assert QuoteBytes(b) == h + QuoteBytes(b[1..]);
      assert forall k :: 0 <= k < |h| ==> IsSafe(h[k] as int) || h[k] == '%' || IsHexDigit(h[k]);
    }
  }

  /** Text made only of safe characters is left unchanged. */
  lemma {:induction false} QuoteSafe(s: string)
    requires forall k :: 0 <= k < |s| ==> IsSafe(s[k] as int)
    ensures Quote(s) == s
  {
    if s != [] {
      QuoteSafe(s[1..]);
      assert Encode(s) == [s[0] as int] + Encode(s[1..]);
      assert Encode(s)[1..] == Encode(s[1..]);
      assert s == [s[0]] + s[1..];
    }
  }
}

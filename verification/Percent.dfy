/** UTF-8 and percent-encoding as urllib.parse.quote and unquote use them (sections 2.1 and 2.3 of RFC 3986). */
module Percent {
  import opened Common

  type Byte = b: int | 0 <= b < 256

  // ---------------------------------------------------------------- UTF-8

  function EncodeChar(c: char): (bs: seq<Byte>)
    ensures bs != []
  {
    var n := c as int;
    if n < 0x80 then [n]
    else if n < 0x800 then [0xC0 + n / 64, 0x80 + n % 64]
    else if n < 0x10000 then [0xE0 + n / 4096, 0x80 + n / 64 % 64, 0x80 + n % 64]
    else [0xF0 + n / 262144, 0x80 + n / 4096 % 64, 0x80 + n / 64 % 64, 0x80 + n % 64]
  }

  function Encode(s: string): seq<Byte> {
    if s == "" then [] else EncodeChar(s[0]) + Encode(s[1..])
  }

  predicate Continues(b: Byte) { 0x80 <= b < 0xC0 }

  predicate IsScalar(n: int) { 0 <= n < 0xD800 || 0xE000 <= n < 0x11_0000 }

  /** The character at the front and its length; invalid input yields U+FFFD, as errors='replace' does. */
  function DecodeOne(bs: seq<Byte>): (r: (char, nat))
    requires bs != []
    ensures 0 < r.1 <= |bs|
  {
    var b: int := bs[0];
    var b1: int := if |bs| > 1 && Continues(bs[1]) then bs[1] - 0x80 else -1;
    var b2: int := if |bs| > 2 && Continues(bs[2]) then bs[2] - 0x80 else -1;
    var b3: int := if |bs| > 3 && Continues(bs[3]) then bs[3] - 0x80 else -1;
    if b < 0x80 then (b as char, 1)
    else if 0xC2 <= b < 0xE0 && b1 >= 0 then (((b - 0xC0) * 64 + b1) as char, 2)
    else if 0xE0 <= b < 0xF0 && b1 >= 0 && b2 >= 0 then
      var n: int := (b - 0xE0) * 4096 + b1 * 64 + b2;
      if n >= 0x800 && IsScalar(n) then (n as char, 3) else (0xFFFD as char, 1)
    else if 0xF0 <= b < 0xF5 && b1 >= 0 && b2 >= 0 && b3 >= 0 then
      var n: int := (b - 0xF0) * 262144 + b1 * 4096 + b2 * 64 + b3;
      if n >= 0x10000 && IsScalar(n) then (n as char, 4) else (0xFFFD as char, 1)
    else (0xFFFD as char, 1)
  }

  function Decode(bs: seq<Byte>): string {
    if bs == [] then ""
    else
      var (c, k) := DecodeOne(bs);
      [c] + Decode(bs[k..])
  }

  lemma TwoBytes(n: int)
    requires 0x80 <= n < 0x800
    ensures 0xC2 <= 0xC0 + n / 64 < 0xE0 && 0 <= n % 64 < 64
    ensures n / 64 * 64 + n % 64 == n
  {
  }

  lemma ThreeBytes(n: int)
    requires 0x800 <= n < 0x10000
    ensures 0 <= n / 4096 < 16 && 0 <= n / 64 % 64 < 64 && 0 <= n % 64 < 64
    ensures n / 4096 * 4096 + n / 64 % 64 * 64 + n % 64 == n
  {
    assert n / 64 / 64 == n / 4096;
  }

  lemma FourBytes(n: int)
    requires 0x10000 <= n < 0x11_0000
    ensures 0 <= n / 262144 < 5 && 0 <= n / 4096 % 64 < 64 && 0 <= n / 64 % 64 < 64 && 0 <= n % 64 < 64
    ensures n / 262144 * 262144 + n / 4096 % 64 * 4096 + n / 64 % 64 * 64 + n % 64 == n
  {
    assert n / 64 / 64 == n / 4096 && n / 4096 / 64 == n / 262144;
  }

  lemma DecodeEncodedChar(c: char, rest: seq<Byte>)
    ensures DecodeOne(EncodeChar(c) + rest) == (c, |EncodeChar(c)|)
  {
    var n := c as int;
    var bs := EncodeChar(c) + rest;
    if n < 0x80 {
      assert bs[0] == n;
    } else if n < 0x800 {
      TwoBytes(n);
      assert bs[0] == 0xC0 + n / 64 && bs[1] == 0x80 + n % 64;
    } else if n < 0x10000 {
      ThreeBytes(n);
      assert bs[0] == 0xE0 + n / 4096 && bs[1] == 0x80 + n / 64 % 64 && bs[2] == 0x80 + n % 64;
    } else {
      FourBytes(n);
      assert bs[0] == 0xF0 + n / 262144 && bs[1] == 0x80 + n / 4096 % 64 && bs[2] == 0x80 + n / 64 % 64 && bs[3] == 0x80 + n % 64;
    }
  }

  /** Decoding undoes encoding on every string. */
  lemma {:induction false} DecodeUndoesEncode(s: string)
    ensures Decode(Encode(s)) == s
  {
    if s != "" {
      DecodeEncodedChar(s[0], Encode(s[1..]));
      DecodeUndoesEncode(s[1..]);
      assert Encode(s)[|EncodeChar(s[0])|..] == Encode(s[1..]);
    }
  }

  // ---------------------------------------------------------------- percent-encoding

  predicate IsUnreserved(b: Byte) {
    var c := b as char;
    'a' <= c <= 'z' || 'A' <= c <= 'Z' || '0' <= c <= '9' || c == '_' || c == '.' || c == '-' || c == '~'
  }

  function HexDigit(d: int): char
    requires 0 <= d < 16
  {
    if d < 10 then ('0' as int + d) as char else ('A' as int + d - 10) as char
  }

  function HexValue(c: char): (d: Option<int>)
    ensures d.Some? ==> 0 <= d.value < 16
  {
    if '0' <= c <= '9' then Some(c as int - '0' as int)
    else if 'A' <= c <= 'F' then Some(c as int - 'A' as int + 10)
    else if 'a' <= c <= 'f' then Some(c as int - 'a' as int + 10)
    else None
  }

  function QuoteByte(b: Byte): string {
    if IsUnreserved(b) then [b as char] else ['%', HexDigit(b / 16), HexDigit(b % 16)]
  }

  function QuoteBytes(bs: seq<Byte>): string {
    if bs == [] then "" else QuoteByte(bs[0]) + QuoteBytes(bs[1..])
  }

  /** quote(s, safe='') */
  function Quote(s: string): string {
    QuoteBytes(Encode(s))
  }

  predicate IsAscii(c: char) { c as int < 0x80 }

  /** unquote_to_bytes, on ASCII text. */
  function UnquoteBytes(s: string): seq<Byte>
    requires forall i :: 0 <= i < |s| ==> IsAscii(s[i])
  {
    if s == "" then []
    else if s[0] == '%' && |s| > 2 && HexValue(s[1]).Some? && HexValue(s[2]).Some? then
      var b: Byte := HexValue(s[1]).value * 16 + HexValue(s[2]).value;
      [b] + UnquoteBytes(s[3..])
    else
      assert IsAscii(s[0]);
      var b: Byte := s[0] as int;
      [b] + UnquoteBytes(s[1..])
  }

  function AsciiPrefix(s: string): (k: nat)
    ensures k <= |s| && forall i :: 0 <= i < k ==> IsAscii(s[i])
    ensures k < |s| ==> !IsAscii(s[k])
  {
    if s != "" && IsAscii(s[0]) then 1 + AsciiPrefix(s[1..]) else 0
  }

  /** unquote(s): runs of ASCII are unquoted and decoded, other characters stay. */
  function Unquote(s: string): string
    decreases |s|
  {
    if s == "" then ""
    else
      var k := AsciiPrefix(s);
      if k == 0 then [s[0]] + Unquote(s[1..]) else Decode(UnquoteBytes(s[..k])) + Unquote(s[k..])
  }

  lemma QuoteByteShape(b: Byte)
    ensures forall i :: 0 <= i < |QuoteByte(b)| ==> IsAscii(QuoteByte(b)[i]) && QuoteByte(b)[i] != '/'
    ensures QuoteByte(b)[0] == '%' ==> QuoteByte(b) == ['%', HexDigit(b / 16), HexDigit(b % 16)]
    ensures HexValue(HexDigit(b / 16)) == Some(b / 16) && HexValue(HexDigit(b % 16)) == Some(b % 16)
  {
  }

  lemma {:induction false} QuoteBytesAscii(bs: seq<Byte>)
    ensures forall i :: 0 <= i < |QuoteBytes(bs)| ==> IsAscii(QuoteBytes(bs)[i]) && QuoteBytes(bs)[i] != '/'
  {
    if bs != [] {
      QuoteByteShape(bs[0]);
      QuoteBytesAscii(bs[1..]);
    }
  }

  lemma {:induction false} UnquoteUndoesQuoteBytes(bs: seq<Byte>)
    ensures forall i :: 0 <= i < |QuoteBytes(bs)| ==> IsAscii(QuoteBytes(bs)[i])
    ensures UnquoteBytes(QuoteBytes(bs)) == bs
  {
    QuoteBytesAscii(bs);
    if bs != [] {
      var b, rest := bs[0], QuoteBytes(bs[1..]);
      var s := QuoteByte(b) + rest;
      QuoteByteShape(b);
      UnquoteUndoesQuoteBytes(bs[1..]);
      assert bs == [b] + bs[1..];
      if IsUnreserved(b) {
        assert s[0] == b as char && s[1..] == rest;
      } else {
        assert s[0] == '%' && s[1] == HexDigit(b / 16) && s[2] == HexDigit(b % 16) && s[3..] == rest;
      }
    }
  }

  /** Unquoting undoes quoting on every string. */
  lemma UnquoteUndoesQuote(s: string)
    ensures Unquote(Quote(s)) == s
  {
    var q := Quote(s);
    UnquoteUndoesQuoteBytes(Encode(s));
    DecodeUndoesEncode(s);
    if q == "" {
      assert Decode(UnquoteBytes("")) == "";
    } else {
      assert AsciiPrefix(q) == |q|;
      assert q[..|q|] == q && q[|q|..] == "";
    }
  }

  // ---------------------------------------------------------------- what quoted text looks like

  /** The unreserved characters of section 2.3 of RFC 3986. */
  predicate Unreserved(c: char) {
    'A' <= c <= 'Z' || 'a' <= c <= 'z' || '0' <= c <= '9' || c in {'-', '.', '_', '~'}
  }

  predicate UpperHex(c: char) {
    '0' <= c <= '9' || 'A' <= c <= 'F'
  }

  /** Unreserved characters and triplets of a percent sign with two upper-case hexadecimal digits, and nothing else. */
  predicate WellQuoted(q: string) {
    q == ""
    || (Unreserved(q[0]) && WellQuoted(q[1..]))
    || (|q| >= 3 && q[0] == '%' && UpperHex(q[1]) && UpperHex(q[2]) && WellQuoted(q[3..]))
  }

  lemma {:induction false} QuotedBytesAreWellQuoted(bs: seq<Byte>)
    ensures WellQuoted(QuoteBytes(bs))
  {
    if bs != [] {
      var first, rest := QuoteByte(bs[0]), QuoteBytes(bs[1..]);
      QuotedBytesAreWellQuoted(bs[1..]);
      if IsUnreserved(bs[0]) {
        assert (first + rest)[1..] == rest;
      } else {
        assert (first + rest)[3..] == rest;
      }
    }
  }

  /** Quoting leaves nothing that has a meaning in a URI. */
  lemma QuoteIsWellQuoted(s: string)
    ensures WellQuoted(Quote(s))
  {
    QuotedBytesAreWellQuoted(Encode(s));
  }

  lemma {:induction false} QuoteBytesAppends(a: seq<Byte>, b: seq<Byte>)
    ensures QuoteBytes(a + b) == QuoteBytes(a) + QuoteBytes(b)
  {
    hide QuoteByte;
    if a == [] {
      assert a + b == b;
    } else {
      QuoteBytesAppends(a[1..], b);
      assert (a + b)[1..] == a[1..] + b && (a + b)[0] == a[0];
      assert QuoteByte(a[0]) + (QuoteBytes(a[1..]) + QuoteBytes(b)) == (QuoteByte(a[0]) + QuoteBytes(a[1..])) + QuoteBytes(b);
    }
  }

  lemma {:induction false} QuoteGrows(bs: seq<Byte>)
    ensures |QuoteBytes(bs)| >= |bs|
  {
    if bs != [] { QuoteGrows(bs[1..]); }
  }

  lemma {:induction false} EncodeGrows(s: string)
    ensures |Encode(s)| >= |s|
  {
    if s != "" { EncodeGrows(s[1..]); }
  }

  lemma QuoteFirst(s: string)
    requires s != ""
    ensures Quote(s) == QuoteBytes(EncodeChar(s[0])) + Quote(s[1..])
    ensures Unreserved(s[0]) ==> QuoteBytes(EncodeChar(s[0])) == [s[0]]
    ensures !Unreserved(s[0]) ==> |QuoteBytes(EncodeChar(s[0]))| > 1
  {
    var bs := EncodeChar(s[0]);
    QuoteBytesAppends(bs, Encode(s[1..]));
    assert bs[1..] == [] ==> QuoteBytes(bs) == QuoteByte(bs[0]);
    if |bs| > 1 {
      QuoteGrows(bs);
    }
  }

  lemma QuoteNeverShrinks(s: string)
    ensures |Quote(s)| >= |s|
  {
    EncodeGrows(s);
    QuoteGrows(Encode(s));
  }

  /** Quoting leaves a text as it is exactly when all its characters are unreserved. */
  lemma {:induction false} QuoteIsIdentityExactlyWhen(s: string)
    ensures Quote(s) == s <==> forall i :: 0 <= i < |s| ==> Unreserved(s[i])
  {
    hide Quote, Unreserved, EncodeChar, QuoteBytes;
    if s == "" {
      NothingQuoted();
    } else {
      QuoteFirst(s);
      QuoteIsIdentityExactlyWhen(s[1..]);
      QuoteNeverShrinks(s[1..]);
      assert s == [s[0]] + s[1..];
      assert forall i :: 0 < i < |s| ==> s[i] == s[1..][i - 1];
      if forall i :: 0 <= i < |s| ==> Unreserved(s[i]) {
        assert forall i :: 0 <= i < |s[1..]| ==> s[1..][i] == s[i + 1];
      }
      if Quote(s) == s && Unreserved(s[0]) {
        assert Quote(s)[1..] == Quote(s[1..]);
      }
    }
  }

  lemma NothingQuoted()
    ensures Quote("") == ""
  {
  }

  // ---------------------------------------------------------------- unquoting other text

  lemma {:induction false} UnquotedAscii(s: string)
    requires '%' !in s && forall i :: 0 <= i < |s| ==> IsAscii(s[i])
    ensures Decode(UnquoteBytes(s)) == s
  {
    if s != "" {
      var bs := UnquoteBytes(s);
      UnquotedAscii(s[1..]);
      assert bs[0] == s[0] as int && bs[1..] == UnquoteBytes(s[1..]);
      assert s == [s[0]] + s[1..];
    }
  }

  /** Unquoting leaves a text without a percent sign as it is. */
  lemma {:induction false} UnquoteKeepsPlainText(s: string)
    requires '%' !in s
    ensures Unquote(s) == s
    decreases |s|
  {
    hide UnquoteBytes, Decode;
    if s != "" {
      var k := AsciiPrefix(s);
      if k == 0 {
        UnquoteKeepsPlainText(s[1..]);
        assert s == [s[0]] + s[1..];
      } else {
        UnquotedAscii(s[..k]);
        UnquoteKeepsPlainText(s[k..]);
        assert s == s[..k] + s[k..];
      }
    }
  }
}

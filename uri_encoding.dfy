/**
 * ECMAScript `encodeURI` (section 19.2.6.3 of ECMA-262, 2024 edition), on
 * strings of Unicode scalar values: every character outside the unescaped set
 * is replaced by the percent-encoding (section 2.1 of RFC 3986, upper-case hex
 * digits) of each byte of its UTF-8 form. `PercentDecode` is its partner: it
 * turns escapes back into bytes. DecodeEncode shows that decoding gives back
 * the UTF-8 bytes of the input, and with UTF-8 injective (Utf8StringInjective)
 * EncodeInjective shows that nothing is lost.
 */
module UriEncoding {

  newtype Byte = b: int | 0 <= b < 256

  predicate IsAlphaNum(c: char) {
    ('a' <= c <= 'z') || ('A' <= c <= 'Z') || ('0' <= c <= '9')
  }

  /** uriReserved, uriUnescaped (letters, digits, uriMark) and '#': what `encodeURI` keeps as is. */
  predicate IsUnescaped(c: char) {
    IsAlphaNum(c) || c in "-_.!~*'()" || c in ";/?:@&=+$," || c == '#'
  }

  predicate AllUnescaped(s: string) {
    forall i :: 0 <= i < |s| ==> IsUnescaped(s[i])
  }

  predicate IsHexDigit(c: char) {
    ('0' <= c <= '9') || ('A' <= c <= 'F') || ('a' <= c <= 'f')
  }

  function HexValue(c: char): (v: nat)
    requires IsHexDigit(c)
    ensures v < 16
  {
    if '0' <= c <= '9' then c as int - '0' as int
    else if 'A' <= c <= 'F' then c as int - 'A' as int + 10
    else c as int - 'a' as int + 10
  }

  /** The upper-case hexadecimal digit of `v`. */
  function HexDigit(v: nat): (c: char)
    requires v < 16
    ensures IsHexDigit(c) && HexValue(c) == v
    ensures !('a' <= c <= 'f')
  {
    if v < 10 then ('0' as int + v) as char else ('A' as int + v - 10) as char
  }

  /** "%XY": the escape of one byte. */
  function Escape(b: Byte): (e: string)
    ensures |e| == 3 && e[0] == '%' && IsHexDigit(e[1]) && IsHexDigit(e[2])
    ensures HexValue(e[1]) * 16 + HexValue(e[2]) == b as int
  {
    ['%', HexDigit(b as int / 16), HexDigit(b as int % 16)]
  }

  /** Only '%' and hexadecimal digits. */
  predicate IsEscapeText(e: string) {
    forall i :: 0 <= i < |e| ==> e[i] == '%' || IsHexDigit(e[i])
  }

  function EscapeAll(bs: seq<Byte>): (e: string)
    ensures |e| == 3 * |bs|
    ensures IsEscapeText(e)
  {
    if bs == [] then [] else Escape(bs[0]) + EscapeAll(bs[1..])
  }

  /** The UTF-8 encoding of one scalar value (section 3 of RFC 3629). */
  function Utf8(c: char): (bs: seq<Byte>)
    ensures 1 <= |bs| <= 4
    ensures |bs| == 1 <==> c as int < 0x80
    ensures |bs| == 1 ==> bs[0] as int == c as int
  {
    var cp := c as int;
    if cp < 0x80 then [cp as Byte]
    else if cp < 0x800 then [(0xC0 + cp / 64) as Byte, (0x80 + cp % 64) as Byte]
    else if cp < 0x10000 then
      [(0xE0 + cp / 4096) as Byte, (0x80 + cp / 64 % 64) as Byte, (0x80 + cp % 64) as Byte]
    else
      [(0xF0 + cp / 262144) as Byte, (0x80 + cp / 4096 % 64) as Byte,
       (0x80 + cp / 64 % 64) as Byte, (0x80 + cp % 64) as Byte]
  }

  function Utf8String(s: string): seq<Byte> {
    if s == [] then [] else Utf8(s[0]) + Utf8String(s[1..])
  }

  function EncodeChar(c: char): string {
    if IsUnescaped(c) then [c] else EscapeAll(Utf8(c))
  }

  /**
   * `encodeURI(s)`: the result holds only unescaped characters and '%', and it
   * equals `s` exactly when `s` needs no escaping.
   */
  function EncodeURI(s: string): (r: string)
    ensures forall i :: 0 <= i < |r| ==> IsUnescaped(r[i]) || r[i] == '%'
    ensures |r| >= |s|
    ensures r == s <==> AllUnescaped(s)
  {
    if s == [] then [] else EncodeChar(s[0]) + EncodeURI(s[1..])
  }

  /** The length of a UTF-8 sequence, read from its lead byte. */
  function LeadLength(b: Byte): nat {
    if b < 0x80 then 1 else if b < 0xE0 then 2 else if b < 0xF0 then 3 else 4
  }

  /** The lead byte of a character's UTF-8 form announces its length. */
  lemma Utf8Lead(c: char)
    ensures LeadLength(Utf8(c)[0]) == |Utf8(c)|
  {
    var cp := c as int;
    if 0x80 <= cp < 0x800 {
      assert 2 <= cp / 64 < 32;
    } else if 0x800 <= cp < 0x10000 {
      assert cp / 4096 < 16;
    }
  }

  /** Dividing by 64 twice is dividing by 4096. */
  lemma DivTwice(x: nat)
    ensures x / 64 / 64 == x / 4096
  {
    var q, r := x / 4096, x % 4096;
    assert x == 4096 * q + r && r / 64 < 64;
    assert x / 64 == 64 * q + r / 64;
  }

  /** Dividing by 64 and then by 4096 is dividing by 262144. */
  lemma DivNested(x: nat)
    ensures x / 262144 == x / 64 / 4096
  {
    var q, r := x / 262144, x % 262144;
    assert x == 262144 * q + r && r / 64 < 4096;
    assert x / 64 == 4096 * q + r / 64;
  }

  /** The six-bit groups of a code point determine it. */
  lemma SixBitGroups(x: nat, y: nat)
    requires x / 64 == y / 64 && x % 64 == y % 64
    ensures x == y
  {
  }

  /** Different characters have different UTF-8 forms. */
  lemma Utf8Injective(c: char, d: char)
    requires Utf8(c) == Utf8(d)
    ensures c == d
  {
    var x, y := c as int, d as int;
    var n := |Utf8(c)|;
    if n == 1 {
    } else if n == 2 {
      assert Utf8(c)[0] == Utf8(d)[0] && Utf8(c)[1] == Utf8(d)[1];
      SixBitGroups(x, y);
    } else if n == 3 {
      assert Utf8(c)[0] == Utf8(d)[0] && Utf8(c)[1] == Utf8(d)[1] && Utf8(c)[2] == Utf8(d)[2];
      DivTwice(x);
      DivTwice(y);
      SixBitGroups(x / 64, y / 64);
      SixBitGroups(x, y);
    } else {
      assert Utf8(c)[0] == Utf8(d)[0] && Utf8(c)[1] == Utf8(d)[1];
      assert Utf8(c)[2] == Utf8(d)[2] && Utf8(c)[3] == Utf8(d)[3];
      DivTwice(x);
      DivTwice(y);
      DivTwice(x / 64);
      DivTwice(y / 64);
      DivNested(x);
      DivNested(y);
      SixBitGroups(x / 4096, y / 4096);
      SixBitGroups(x / 64, y / 64);
      SixBitGroups(x, y);
    }
  }

  /** Different strings have different UTF-8 forms. */
  lemma {:induction false} Utf8StringInjective(s: string, t: string)
    requires Utf8String(s) == Utf8String(t)
    ensures s == t
  {
    if s != [] && t != [] {
      var bs := Utf8String(s);
      Utf8Lead(s[0]);
      Utf8Lead(t[0]);
      assert bs[0] == Utf8(s[0])[0] == Utf8(t[0])[0];
      var n := |Utf8(s[0])|;
      assert Utf8(s[0]) == bs[..n] == Utf8(t[0]);
      Utf8Injective(s[0], t[0]);
      assert Utf8String(s[1..]) == bs[n..] == Utf8String(t[1..]);
      Utf8StringInjective(s[1..], t[1..]);
      assert s == [s[0]] + s[1..] && t == [t[0]] + t[1..];
    }
  }

  /** Turns every "%XY" escape into its byte and every other character into its UTF-8 bytes. */
  function PercentDecode(s: string): seq<Byte> {
    if s == [] then []
    else if |s| >= 3 && s[0] == '%' && IsHexDigit(s[1]) && IsHexDigit(s[2]) then
      [(HexValue(s[1]) * 16 + HexValue(s[2])) as Byte] + PercentDecode(s[3..])
    else Utf8(s[0]) + PercentDecode(s[1..])
  }

  /** Encoding works character by character, so it distributes over concatenation. */
  lemma {:induction false} EncodeAppend(a: string, b: string)
    ensures EncodeURI(a + b) == EncodeURI(a) + EncodeURI(b)
  {
    if a != [] {
      assert (a + b)[1..] == a[1..] + b;
      EncodeAppend(a[1..], b);
    } else {
      assert a + b == b;
    }
  }

  /** A prefix that needs no escaping comes through unchanged. */
  lemma EncodeKeepsPrefix(p: string, s: string)
    requires AllUnescaped(p)
    ensures EncodeURI(p + s) == p + EncodeURI(s)
  {
    EncodeAppend(p, s);
  }

  lemma DecodeEscape(b: Byte, rest: string)
    ensures PercentDecode(Escape(b) + rest) == [b] + PercentDecode(rest)
  {
    var s := Escape(b) + rest;
    assert s[0] == '%' && s[1] == Escape(b)[1] && s[2] == Escape(b)[2];
    assert s[3..] == rest;
  }

  lemma {:induction false} DecodeEscapes(bs: seq<Byte>, rest: string)
    ensures PercentDecode(EscapeAll(bs) + rest) == bs + PercentDecode(rest)
  {
    if bs == [] {
      assert EscapeAll(bs) + rest == rest;
    } else {
      var b, tail := bs[0], bs[1..];
      var t := EscapeAll(tail) + rest;
      calc {
        PercentDecode(EscapeAll(bs) + rest);
        { assert EscapeAll(bs) == Escape(b) + EscapeAll(tail);
          assert EscapeAll(bs) + rest == Escape(b) + t; }
        PercentDecode(Escape(b) + t);
        { DecodeEscape(b, t); }
        [b] + PercentDecode(t);
        { DecodeEscapes(tail, rest); }
        [b] + (tail + PercentDecode(rest));
        { assert bs == [b] + tail; }
        bs + PercentDecode(rest);
      }
    }
  }

  /** Decoding the encoding gives back the UTF-8 bytes of the input. */
  lemma {:induction false} DecodeEncode(s: string)
    ensures PercentDecode(EncodeURI(s)) == Utf8String(s)
  {
    if s != [] {
      var c, rest := s[0], EncodeURI(s[1..]);
      calc {
        PercentDecode(EncodeURI(s));
        PercentDecode(EncodeChar(c) + rest);
        { DecodeChar(c, rest); }
        Utf8(c) + PercentDecode(rest);
        { DecodeEncode(s[1..]); }
        Utf8(c) + Utf8String(s[1..]);
      }
    }
  }

  /** `encodeURI` loses nothing: different inputs give different outputs. */
  lemma EncodeInjective(s: string, t: string)
    requires EncodeURI(s) == EncodeURI(t)
    ensures s == t
  {
    DecodeEncode(s);
    DecodeEncode(t);
    Utf8StringInjective(s, t);
  }

  lemma DecodeChar(c: char, rest: string)
    ensures PercentDecode(EncodeChar(c) + rest) == Utf8(c) + PercentDecode(rest)
  {
    if IsUnescaped(c) {
      assert c != '%';
      assert ([c] + rest)[0] == c && ([c] + rest)[1..] == rest;
    } else {
      DecodeEscapes(Utf8(c), rest);
    }
  }

  /** encodeURI(" ") == "%20". */
  lemma SpaceEncoding()
    ensures EncodeURI(" ") == "%20"
  {
    assert EncodeURI(" ") == EncodeChar(' ') + EncodeURI("");
  }

  /** An existing escape is escaped again: `encodeURI` is not idempotent on '%'. */
  lemma PercentIsReescaped()
    ensures EncodeURI("%20") == "%2520"
  {
    assert !IsUnescaped('%') && Utf8('%') == [0x25];
    assert EncodeChar('%') == Escape(0x25) == "%25";
    assert AllUnescaped("20");
    assert EncodeURI("%20") == EncodeChar('%') + EncodeURI("20");
  }
}

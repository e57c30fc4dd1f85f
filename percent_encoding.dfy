/**
 * Percent-encoding of query values, as the `urlencoding` crate's `encode`
 * performs it (section 2.1 of RFC 3986): every character is taken as its
 * UTF-8 bytes; a byte that is an unreserved character of section 2.3
 * (ALPHA / DIGIT / "-" / "." / "_" / "~") is kept, every other byte becomes
 * "%" followed by two upper-case hexadecimal digits.
 *
 * Decode is the inverse direction, used only to state what an encoded value
 * means: Decode(Encode(s)) gives back the UTF-8 bytes of s.
 */
module PercentEncoding {
  import opened Wrappers

  type byte = b: int | 0 <= b < 256

  /** The unreserved characters of section 2.3 of RFC 3986. */
  predicate IsUnreserved(c: char) {
    ('A' <= c <= 'Z') || ('a' <= c <= 'z') || ('0' <= c <= '9') ||
    c == '-' || c == '.' || c == '_' || c == '~'
  }

  /** A character that may appear in the output of Encode. */
  predicate IsEncodedChar(c: char) {
    IsUnreserved(c) || c == '%'
  }

  /** The UTF-8 encoding of one Unicode scalar value. */
  function Utf8Char(c: char): (bs: seq<byte>)
    ensures 1 <= |bs| <= 4
    ensures (c as int < 0x80) <==> |bs| == 1
    ensures c as int < 0x80 ==> bs == [c as int]
  {
    var cp := c as int;
    if cp < 0x80 then [cp]
    else if cp < 0x800 then [0xC0 + cp / 0x40, 0x80 + cp % 0x40]
    else if cp < 0x1_0000 then
      [0xE0 + cp / 0x1000, 0x80 + (cp / 0x40) % 0x40, 0x80 + cp % 0x40]
    else
      [0xF0 + cp / 0x4_0000, 0x80 + (cp / 0x1000) % 0x40,
       0x80 + (cp / 0x40) % 0x40, 0x80 + cp % 0x40]
  }

  /** The UTF-8 encoding of a string. */
  function Utf8(s: string): (bs: seq<byte>)
    ensures |bs| >= |s|
  {
    if s == [] then [] else Utf8Char(s[0]) + Utf8(s[1..])
  }

  /** The upper-case hexadecimal digit of a value below 16. */
  function HexDigit(d: nat): (c: char)
    requires d < 16
    ensures IsUnreserved(c)
    ensures IsUpperHexDigit(c)
    ensures IsHexDigit(c) && HexValue(c) == d
  {
    if d < 10 then ('0' as int + d) as char else ('A' as int + d - 10) as char
  }

  predicate IsHexDigit(c: char) {
    ('0' <= c <= '9') || ('A' <= c <= 'F') || ('a' <= c <= 'f')
  }

  /** The digits the encoder writes: decimal digits and upper-case 'A' to 'F'. */
  predicate IsUpperHexDigit(c: char) {
    ('0' <= c <= '9') || ('A' <= c <= 'F')
  }

  /** The value of a hexadecimal digit; decoders accept either case. */
  function HexValue(c: char): (d: nat)
    requires IsHexDigit(c)
    ensures d < 16
  {
    if '0' <= c <= '9' then c as int - '0' as int
    else if 'A' <= c <= 'F' then c as int - 'A' as int + 10
    else c as int - 'a' as int + 10
  }

  /** "%XX" for one byte. */
  function EncodeByte(b: byte): (r: string)
    ensures |r| == 3 && r[0] == '%'
    ensures IsHexDigit(r[1]) && IsHexDigit(r[2])
    ensures IsUpperHexDigit(r[1]) && IsUpperHexDigit(r[2])
    ensures HexValue(r[1]) * 16 + HexValue(r[2]) == b
  {
    ['%', HexDigit(b / 16), HexDigit(b % 16)]
  }

  /** An upper-case hex digit is determined by its value. */
  lemma UpperHexDigitUnique(c: char, d: char)
    requires IsUpperHexDigit(c) && IsUpperHexDigit(d) && HexValue(c) == HexValue(d)
    ensures c == d
  {
  }

  /** "%XX" with upper-case digits of value b is exactly what EncodeByte writes. */
  lemma EncodeByteUnique(b: byte, r: string)
    requires |r| == 3 && r[0] == '%' && IsUpperHexDigit(r[1]) && IsUpperHexDigit(r[2])
    requires HexValue(r[1]) * 16 + HexValue(r[2]) == b
    ensures r == EncodeByte(b)
  {
    var e := EncodeByte(b);
    var hi, lo := HexValue(r[1]), HexValue(r[2]);
    assert hi == b / 16 && lo == b % 16;
    UpperHexDigitUnique(r[1], e[1]);
    UpperHexDigitUnique(r[2], e[2]);
  }

  function EncodeBytes(bs: seq<byte>): (r: string)
    ensures |r| == 3 * |bs|
  {
    if bs == [] then [] else EncodeByte(bs[0]) + EncodeBytes(bs[1..])
  }

  /** One character: kept when unreserved, else each of its UTF-8 bytes as "%XX". */
  function EncodeChar(c: char): (r: string)
    ensures IsUnreserved(c) ==> r == [c]
    ensures !IsUnreserved(c) ==> |r| == 3 * |Utf8Char(c)| && r[0] == '%'
  {
    if IsUnreserved(c) then [c] else EncodeBytes(Utf8Char(c))
  }

  /** The model of `urlencoding::encode`. */
  function Encode(s: string): (r: string)
    ensures |r| >= |s|
  {
    if s == [] then [] else EncodeChar(s[0]) + Encode(s[1..])
  }

  /** Percent-decoding into bytes: "%XX" is one byte, any other character its UTF-8 bytes. */
  function Decode(s: string): (r: Option<seq<byte>>)
    decreases |s|
  {
    if s == [] then Some([])
    else if s[0] == '%' then
      if |s| >= 3 && IsHexDigit(s[1]) && IsHexDigit(s[2])
      then Prepend([HexValue(s[1]) * 16 + HexValue(s[2])], Decode(s[3..]))
      else None
    else Prepend(Utf8Char(s[0]), Decode(s[1..]))
  }

  function Prepend(prefix: seq<byte>, r: Option<seq<byte>>): Option<seq<byte>> {
    match r
    case None => None
    case Some(rest) => Some(prefix + rest)
  }

  lemma PrependPrepend(a: seq<byte>, b: seq<byte>, r: Option<seq<byte>>)
    ensures Prepend(a, Prepend(b, r)) == Prepend(a + b, r)
  {
    if r.Some? {
      assert a + (b + r.value) == (a + b) + r.value;
    }
  }

  /** Encoding distributes over concatenation. */
  lemma {:induction false} EncodeAppend(a: string, b: string)
    ensures Encode(a + b) == Encode(a) + Encode(b)
  {
    if a == [] {
      assert a + b == b;
    } else {
      assert (a + b)[0] == a[0];
      assert (a + b)[1..] == a[1..] + b;
      EncodeAppend(a[1..], b);
    }
  }

  /** A string made only of unreserved characters is left unchanged. */
  lemma {:induction false} EncodeUnreserved(s: string)
    requires forall i :: 0 <= i < |s| ==> IsUnreserved(s[i])
    ensures Encode(s) == s
  {
    if s != [] {
      EncodeUnreserved(s[1..]);
    }
  }

  lemma DecodeAfterEncodedByte(b: byte, t: string)
    ensures Decode(EncodeByte(b) + t) == Prepend([b], Decode(t))
  {
    var s := EncodeByte(b) + t;
    assert s[0] == '%' && s[1] == EncodeByte(b)[1] && s[2] == EncodeByte(b)[2];
    assert s[3..] == t;
  }

  lemma {:induction false} DecodeAfterEncodedBytes(bs: seq<byte>, t: string)
    ensures Decode(EncodeBytes(bs) + t) == Prepend(bs, Decode(t))
  {
    if bs == [] {
      assert EncodeBytes(bs) + t == t;
      if Decode(t).Some? {
        assert [] + Decode(t).value == Decode(t).value;
      }
    } else {
      var rest := EncodeBytes(bs[1..]) + t;
      assert EncodeBytes(bs) + t == EncodeByte(bs[0]) + rest;
      DecodeAfterEncodedByte(bs[0], rest);
      DecodeAfterEncodedBytes(bs[1..], t);
      PrependPrepend([bs[0]], bs[1..], Decode(t));
      assert [bs[0]] + bs[1..] == bs;
    }
  }

  lemma DecodeAfterEncodedChar(c: char, t: string)
    ensures Decode(EncodeChar(c) + t) == Prepend(Utf8Char(c), Decode(t))
  {
    if IsUnreserved(c) {
      assert ([c] + t)[1..] == t;
    } else {
      DecodeAfterEncodedBytes(Utf8Char(c), t);
    }
  }

  /** Round trip: decoding an encoded string gives back its UTF-8 bytes. */
  lemma {:induction false} DecodeEncode(s: string)
    ensures Decode(Encode(s)) == Some(Utf8(s))
  {
    if s != [] {
      DecodeAfterEncodedChar(s[0], Encode(s[1..]));
      DecodeEncode(s[1..]);
    }
  }

  lemma {:induction false} EncodeBytesSafe(bs: seq<byte>)
    ensures forall i :: 0 <= i < |EncodeBytes(bs)| ==> IsEncodedChar(EncodeBytes(bs)[i])
  {
    if bs != [] {
      EncodeBytesSafe(bs[1..]);
      var e, rest := EncodeByte(bs[0]), EncodeBytes(bs[1..]);
      forall i | 0 <= i < |e + rest| ensures IsEncodedChar((e + rest)[i]) {
        if i >= |e| { assert (e + rest)[i] == rest[i - |e|]; }
      }
    }
  }

  lemma EncodeCharSafe(c: char)
    ensures forall i :: 0 <= i < |EncodeChar(c)| ==> IsEncodedChar(EncodeChar(c)[i])
  {
    if !IsUnreserved(c) {
      EncodeBytesSafe(Utf8Char(c));
    }
  }

  /** Encode produces only unreserved characters and "%". */
  lemma {:induction false} EncodeSafe(s: string)
    ensures forall i :: 0 <= i < |Encode(s)| ==> IsEncodedChar(Encode(s)[i])
  {
    if s != [] {
      EncodeCharSafe(s[0]);
      EncodeSafe(s[1..]);
      var e, rest := EncodeChar(s[0]), Encode(s[1..]);
      forall i | 0 <= i < |e + rest| ensures IsEncodedChar((e + rest)[i]) {
        if i >= |e| { assert (e + rest)[i] == rest[i - |e|]; }
      }
    }
  }

  /** The delimiters of a query string never occur in an encoded value. */
  lemma EncodeHasNoDelimiters(s: string)
    ensures '&' !in Encode(s) && '=' !in Encode(s) && '?' !in Encode(s) && '#' !in Encode(s)
  {
    var r := Encode(s);
    EncodeSafe(s);
    forall i | 0 <= i < |r|
      ensures r[i] != '&' && r[i] != '=' && r[i] != '?' && r[i] != '#'
    {
      assert IsEncodedChar(r[i]);
    }
  }
}

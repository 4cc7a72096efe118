/**
 UTF-8 as defined by RFC 3629. Encoding follows the bit layout of section 3;
 decoding accepts exactly the byte sequences of the `UTF8-octets` grammar of
 section 4, so overlong forms, encoded surrogates and values above U+10FFFF
 are rejected.
 */
module Utf8 {
  import opened Wrappers
  import opened ByteStrings

  /** Unicode scalar values: code points up to U+10FFFF other than the surrogates. */
  type Scalar = c: int | 0 <= c <= 0x10FFFF && !(0xD800 <= c <= 0xDFFF)

  /** The number of bytes RFC 3629 uses for `c`. */
  function EncodedLength(c: Scalar): (n: nat)
    ensures 1 <= n <= 4
  {
    if c < 0x80 then 1
    else if c < 0x800 then 2
    else if c < 0x1_0000 then 3
    else 4
  }

  function EncodeScalar(c: Scalar): (bs: Bytes)
    ensures |bs| == EncodedLength(c)
  {
    if c < 0x80 then
      var b0: Byte := c; [b0]
    else if c < 0x800 then
      var b0: Byte := 0xC0 + c / 64;
      var b1: Byte := 0x80 + c % 64;
      [b0, b1]
    else if c < 0x1_0000 then
      var b0: Byte := 0xE0 + c / 4096;
      var b1: Byte := 0x80 + (c / 64) % 64;
      var b2: Byte := 0x80 + c % 64;
      [b0, b1, b2]
    else
      assert c / 262144 <= 4 by { Digits4(c); }
      var b0: Byte := 0xF0 + c / 262144;
      var b1: Byte := 0x80 + (c / 4096) % 64;
      var b2: Byte := 0x80 + (c / 64) % 64;
      var b3: Byte := 0x80 + c % 64;
      [b0, b1, b2, b3]
  }

  function Encode(cs: seq<Scalar>): Bytes
  {
    if |cs| == 0 then [] else EncodeScalar(cs[0]) + Encode(cs[1..])
  }

  /** The UTF-8 byte length of a whole text, summed code point by code point. */
  function EncodedSize(cs: seq<Scalar>): nat
  {
    if |cs| == 0 then 0 else EncodedLength(cs[0]) + EncodedSize(cs[1..])
  }

  /** `UTF8-tail = %x80-BF` */
  predicate IsTail(b: Byte) {
    0x80 <= b <= 0xBF
  }

  /** The length of the sequence a lead byte starts, or 0 when no sequence starts with it. */
  function LeadLength(b: Byte): nat {
    if b < 0x80 then 1
    else if 0xC2 <= b <= 0xDF then 2
    else if 0xE0 <= b <= 0xEF then 3
    else if 0xF0 <= b <= 0xF4 then 4
    else 0
  }

  /** The range the second byte of a multi-byte sequence must fall in, by its lead byte. */
  function SecondLow(b: Byte): Byte {
    if b == 0xE0 then 0xA0 else if b == 0xF0 then 0x90 else 0x80
  }

  function SecondHigh(b: Byte): Byte {
    if b == 0xED then 0x9F else if b == 0xF4 then 0x8F else 0xBF
  }

  /** Decodes the sequence at the head of `bs`: its scalar value and its length. */
  function DecodeFirst(bs: Bytes): (r: Option<(Scalar, nat)>)
    ensures r.Some? ==> 1 <= r.value.1 <= |bs|
  {
    if |bs| == 0 then None
    else
      var n := LeadLength(bs[0]);
      if n == 0 || |bs| < n then None
      else if n == 1 then Some((bs[0] as int, 1))
      else if !(SecondLow(bs[0]) <= bs[1] <= SecondHigh(bs[0])) then None
      else if n == 2 then Some((Combine2(bs[0] as int - 0xC0, bs[1] as int - 0x80), 2))
      else if !IsTail(bs[2]) then None
      else if n == 3 then
        Some((Combine3(bs[0] as int - 0xE0, bs[1] as int - 0x80, bs[2] as int - 0x80), 3))
      else if !IsTail(bs[3]) then None
      else
        Some((Combine4(bs[0] as int - 0xF0, bs[1] as int - 0x80, bs[2] as int - 0x80, bs[3] as int - 0x80), 4))
  }

  /** The value carried by a lead byte's payload followed by 6-bit tail payloads. */
  function Combine2(x: int, y: int): int { x * 64 + y }

  function Combine3(x: int, y: int, z: int): int { x * 4096 + y * 64 + z }

  function Combine4(w: int, x: int, y: int, z: int): int { w * 262144 + x * 4096 + y * 64 + z }

  function Decode(bs: Bytes): Option<seq<Scalar>>
    decreases |bs|
  {
    if |bs| == 0 then Some([])
    else match DecodeFirst(bs)
      case None => None
      case Some((c, n)) =>
        match Decode(bs[n..])
        case None => None
        case Some(cs) => Some([c] + cs)
  }

  /** `bs` matches the `UTF8-octets` rule of RFC 3629, section 4. */
  predicate IsValidUtf8(bs: Bytes) {
    Decode(bs).Some?
  }

  /** Splitting a value into its 6-bit groups and recombining them gives it back. */
  lemma Digits3(c: nat)
    ensures c == Combine3(c / 4096, (c / 64) % 64, c % 64)
  {
  }

  lemma Digits4(c: nat)
    ensures c == Combine4(c / 262144, (c / 4096) % 64, (c / 64) % 64, c % 64)
  {
    var q := c / 64;
    Digits3(q);
    assert q / 4096 == c / 262144;
    assert (q / 64) == c / 4096;
  }

  /** Recombined 6-bit groups split back into the same groups. */
  lemma Undigits3(x: nat, y: nat, z: nat)
    requires y < 64 && z < 64
    ensures var c := Combine3(x, y, z); c / 4096 == x && (c / 64) % 64 == y && c % 64 == z
  {
  }

  lemma Undigits4(w: nat, x: nat, y: nat, z: nat)
    requires x < 64 && y < 64 && z < 64
    ensures var c := Combine4(w, x, y, z);
      c / 262144 == w && (c / 4096) % 64 == x && (c / 64) % 64 == y && c % 64 == z
  {
    var c := Combine4(w, x, y, z);
    assert c / 64 == Combine3(w, x, y);
    Undigits3(w, x, y);
    assert c / 4096 == w * 64 + x;
  }

  /** Decoding reads back the scalar value an encoding starts with, whatever follows it. */
  lemma DecodeFirstOfEncoding(c: Scalar, rest: Bytes)
    ensures DecodeFirst(EncodeScalar(c) + rest) == Some((c, EncodedLength(c)))
  {
    if c < 0x80 {
    } else if c < 0x800 {
      DecodeFirstOfEncoding2(c, rest);
    } else if c < 0x1_0000 {
      DecodeFirstOfEncoding3(c, rest);
    } else {
      DecodeFirstOfEncoding4(c, rest);
    }
  }

  lemma DecodeFirstOfEncoding2(c: Scalar, rest: Bytes)
    requires 0x80 <= c < 0x800
    ensures DecodeFirst(EncodeScalar(c) + rest) == Some((c, 2))
  {
    var bs := EncodeScalar(c) + rest;
    assert bs[0] == 0xC0 + c / 64 && bs[1] == 0x80 + c % 64;
  }

  lemma DecodeFirstOfEncoding3(c: Scalar, rest: Bytes)
    requires 0x800 <= c < 0x1_0000
    ensures DecodeFirst(EncodeScalar(c) + rest) == Some((c, 3))
  {
    var bs := EncodeScalar(c) + rest;
    Digits3(c);
    assert bs[0] == 0xE0 + c / 4096 && bs[1] == 0x80 + (c / 64) % 64 && bs[2] == 0x80 + c % 64;
  }

  lemma DecodeFirstOfEncoding4(c: Scalar, rest: Bytes)
    requires 0x1_0000 <= c
    ensures DecodeFirst(EncodeScalar(c) + rest) == Some((c, 4))
  {
    var bs := EncodeScalar(c) + rest;
    Digits4(c);
    assert bs[0] == 0xF0 + c / 262144 && bs[1] == 0x80 + (c / 4096) % 64;
    assert bs[2] == 0x80 + (c / 64) % 64 && bs[3] == 0x80 + c % 64;
  }

  /** A decoded sequence is exactly the encoding of the scalar value it yields. */
  lemma EncodingOfDecodeFirst(bs: Bytes)
    requires DecodeFirst(bs).Some?
    ensures var (c, n) := DecodeFirst(bs).value; bs[..n] == EncodeScalar(c)
  {
    var n := LeadLength(bs[0]);
    if n == 2 {
      EncodingOfDecodeFirst2(bs);
    } else if n == 3 {
      EncodingOfDecodeFirst3(bs);
    } else if n == 4 {
      EncodingOfDecodeFirst4(bs);
    }
  }

  lemma EncodingOfDecodeFirst2(bs: Bytes)
    requires DecodeFirst(bs).Some? && LeadLength(bs[0]) == 2
    ensures bs[..2] == EncodeScalar(DecodeFirst(bs).value.0)
  {
    var c := DecodeFirst(bs).value.0;
    assert c / 64 == bs[0] - 0xC0 && c % 64 == bs[1] - 0x80;
  }

  lemma EncodingOfDecodeFirst3(bs: Bytes)
    requires DecodeFirst(bs).Some? && LeadLength(bs[0]) == 3
    ensures bs[..3] == EncodeScalar(DecodeFirst(bs).value.0)
  {
    Undigits3(bs[0] - 0xE0, bs[1] - 0x80, bs[2] - 0x80);
  }

  lemma EncodingOfDecodeFirst4(bs: Bytes)
    requires DecodeFirst(bs).Some? && LeadLength(bs[0]) == 4
    ensures bs[..4] == EncodeScalar(DecodeFirst(bs).value.0)
  {
    Undigits4(bs[0] - 0xF0, bs[1] - 0x80, bs[2] - 0x80, bs[3] - 0x80);
  }

  lemma {:induction false} DecodeEncode(cs: seq<Scalar>)
    ensures Decode(Encode(cs)) == Some(cs)
  {
    if |cs| > 0 {
      var bs := Encode(cs);
      DecodeFirstOfEncoding(cs[0], Encode(cs[1..]));
      assert bs[EncodedLength(cs[0])..] == Encode(cs[1..]);
      DecodeEncode(cs[1..]);
      assert [cs[0]] + cs[1..] == cs;
    }
  }

  /** A valid byte string decodes as one scalar value, encoded by its first bytes, followed by the decoding of the rest. */
  lemma DecodeCons(bs: Bytes, cs: seq<Scalar>) returns (n: nat, rest: seq<Scalar>)
    requires |bs| > 0 && Decode(bs) == Some(cs)
    ensures 0 < n <= |bs| && |cs| > 0
    ensures bs[..n] == EncodeScalar(cs[0])
    ensures Decode(bs[n..]) == Some(rest) && cs[1..] == rest
  {
    var first := DecodeFirst(bs).value;
    n := first.1;
    rest := Decode(bs[n..]).value;
    EncodingOfDecodeFirst(bs);
  }

  lemma SplitJoin(bs: Bytes, n: nat)
    requires n <= |bs|
    ensures bs[..n] + bs[n..] == bs
  {
  }

  lemma {:induction false} EncodeDecode(bs: Bytes, cs: seq<Scalar>)
    requires Decode(bs) == Some(cs)
    ensures Encode(cs) == bs
    decreases |bs|
  {
    if |bs| > 0 {
      var n, rest := DecodeCons(bs, cs);
      EncodeDecode(bs[n..], rest);
      SplitJoin(bs, n);
    }
  }

  /** The valid byte strings are exactly the encodings of texts. */
  lemma ValidUtf8IffEncoding(bs: Bytes)
    ensures IsValidUtf8(bs) <==> exists cs :: Encode(cs) == bs
  {
    if IsValidUtf8(bs) {
      EncodeDecode(bs, Decode(bs).value);
    }
    if cs :| Encode(cs) == bs {
      DecodeEncode(cs);
    }
  }

  lemma {:induction false} EncodedSizeIsLength(cs: seq<Scalar>)
    ensures |Encode(cs)| == EncodedSize(cs)
  {
    if |cs| > 0 {
      EncodedSizeIsLength(cs[1..]);
    }
  }

  /**
   An ASCII byte appears in a valid byte string exactly where its code point
   appears in the decoded text: every byte of a multi-byte sequence is at
   least 0x80.
   */
  lemma {:induction false} AsciiByteIffCodePoint(cs: seq<Scalar>, a: Byte)
    requires a < 0x80
    ensures a in Encode(cs) <==> a in cs
  {
    if |cs| > 0 {
      AsciiByteIffCodePoint(cs[1..], a);
      assert a in EncodeScalar(cs[0]) <==> a == cs[0];
      assert cs == [cs[0]] + cs[1..];
    }
  }
}

/**
 The rules an object name must satisfy when an object is created: non-empty,
 at most 1024 bytes, valid UTF-8, and free of the code points U+000A (line
 feed) and U+000D (carriage return).
 */
module ObjectNames {
  import opened ByteStrings
  import opened Utf8

  const MaxNameBytes: nat := 1024
  const LineFeed := 0x0A
  const CarriageReturn := 0x0D

  /** The name rules, stated on the name's bytes and on the code points they encode. */
  predicate IsValidName(name: Bytes) {
    && 0 < |name| <= MaxNameBytes
    && match Decode(name)
       case None => false
       case Some(cs) => LineFeed !in cs && CarriageReturn !in cs
  }

  /** The same rules for a name given as text, with its length counted in UTF-8 bytes. */
  predicate IsValidNameText(cs: seq<Scalar>) {
    0 < |cs| && EncodedSize(cs) <= MaxNameBytes && LineFeed !in cs && CarriageReturn !in cs
  }

  /** Checking the name rules needs no decoding beyond validity: the forbidden code points are single bytes. */
  lemma ValidNameBytewise(name: Bytes)
    ensures IsValidName(name) <==>
      0 < |name| <= MaxNameBytes && IsValidUtf8(name) && LineFeed !in name && CarriageReturn !in name
  {
    if IsValidUtf8(name) {
      var cs := Decode(name).value;
      EncodeDecode(name, cs);
      AsciiByteIffCodePoint(cs, LineFeed);
      AsciiByteIffCodePoint(cs, CarriageReturn);
    }
  }

  /** A text is an acceptable name exactly when its UTF-8 encoding is. */
  lemma ValidNameOfText(cs: seq<Scalar>)
    ensures IsValidName(Encode(cs)) <==> IsValidNameText(cs)
  {
    DecodeEncode(cs);
    EncodedSizeIsLength(cs);
    if |cs| > 0 {
      assert |EncodeScalar(cs[0])| > 0;
    }
  }
}

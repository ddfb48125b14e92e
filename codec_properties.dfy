/**
 * How the two halves of the codec fit together: the text the browser
 * decoder shows for a value, typed back into the form, is encoded into
 * the same bytes (with the exceptions the formats force), and what the
 * two programs' encoders do differently with the same text.
 */
module CodecProperties {
  import opened Wrappers
  import opened JipTypes
  import opened CNumber
  import Hex
  import BrowserEncoder
  import BrowserDecoder
  import SmartEncoder
  import CStrings

  // ---- bytes and values ----

  /** Splitting off the low byte of `b + 256 q`. */
  lemma LowByte(b: byte, q: nat)
    ensures (b + 256 * q) % 256 == b && (b + 256 * q) / 256 == q
  {
  }

  /** Storing the value the bytes hold gives back the bytes. */
  lemma {:induction false} LittleEndianValueOf(bs: seq<byte>)
    ensures LittleEndian(ValueOf(bs), |bs|) == bs
  {
    if bs != [] {
      LowByte(bs[0], ValueOf(bs[1..]));
      LittleEndianValueOf(bs[1..]);
    }
  }

  // ---- scalars: shown text back to bytes ----

  /** An integer text the conversion reads without ERANGE is encoded as the value reduced to the width. */
  lemma EncodingOfParsed(t: VarType, text: string, v: nat)
    requires IsInteger(t) && StrToUnsigned(text, 0, BrowserEncoder.ParseBits(t)) == Conversion(v, false)
    ensures BrowserEncoder.Encoding(t, text) == Ok(Encoded(Owned(LittleEndian(Truncate(v, 8 * Width(t)), Width(t))), 0))
  {
  }

  /** The `%u` digits of an 8-, 16- or unsigned 32-bit value are read back as that value. */
  lemma UnsignedTextParsed(t: VarType, bs: seq<byte>)
    requires IsInteger(t) && Width(t) <= 4 && t != Int32 && |bs| == Width(t)
    ensures StrToUnsigned(BrowserDecoder.ScalarText(t, bs), 0, LONG_BITS) == Conversion(ValueOf(bs), false)
  {
    ValueOfBound(bs);
    Pow2Monotone(8 * |bs|, LONG_BITS);
    assert BrowserDecoder.ScalarText(t, bs) == Decimal(ValueOf(bs));
    ParseDecimal(ValueOf(bs), LONG_BITS);
  }

  /** The signed `%d` digits of an INT32 are read back as the unsigned value of its bytes. */
  lemma SignedTextParsed(bs: seq<byte>)
    requires |bs| == 4
    ensures StrToUnsigned(BrowserDecoder.ScalarText(Int32, bs), 0, LONG_BITS) == Conversion(ValueOf(bs), false)
  {
    ValueOfBound(bs);
    var x := ToSigned(ValueOf(bs), 32);
    assert Pow2(32) == 2 * Pow2(31);
    ParseSignedDecimal(x, LONG_BITS);
  }

  /**
   * For the 8-, 16- and 32-bit types the text the decoder shows (the
   * `%u` or `%d` digits, without the newline) encodes into exactly the
   * bytes it was made from. INT32 is shown signed and a negative value is
   * taken back modulo 2^32; INT8 and INT16 are shown unsigned.
   */
  lemma ScalarRoundTrip(t: VarType, bs: seq<byte>)
    requires IsInteger(t) && Width(t) <= 4 && |bs| == Width(t)
    ensures BrowserEncoder.Encoding(t, BrowserDecoder.ScalarText(t, bs)) == Ok(Encoded(Owned(bs), 0))
  {
    var v := ValueOf(bs);
    if t == Int32 {
      SignedTextParsed(bs);
    } else {
      UnsignedTextParsed(t, bs);
    }
    EncodingOfParsed(t, BrowserDecoder.ScalarText(t, bs), v);
    ValueOfBound(bs);
    LittleEndianValueOf(bs);
  }

  /**
   * The other direction, from text to bytes and back: for the 8-, 16- and
   * unsigned 32-bit types, the `%u` digits of any value below 2^(8w) are
   * encoded, and the stored bytes are shown as the same digits.
   */
  lemma UnsignedTextRoundTrip(t: VarType, v: nat)
    requires IsInteger(t) && Width(t) <= 4 && t != Int32 && v < Pow2(8 * Width(t))
    ensures BrowserEncoder.Encoding(t, Decimal(v)) == Ok(Encoded(Owned(LittleEndian(v, Width(t))), 0))
    ensures BrowserDecoder.ScalarText(t, LittleEndian(v, Width(t))) == Decimal(v)
  {
    UnsignedDecimalStored(t, v);
    UnsignedShown(t, v);
  }

  /** The bytes of a value below 2^(8w) are shown by `%u` (or `%d` below INT32) as its digits. */
  lemma UnsignedShown(t: VarType, v: nat)
    requires IsInteger(t) && Width(t) <= 4 && t != Int32 && v < Pow2(8 * Width(t))
    ensures BrowserDecoder.ScalarText(t, LittleEndian(v, Width(t))) == Decimal(v)
  {
    var bs := LittleEndian(v, Width(t));
    ValueOfLittleEndian(v, Width(t));
    assert BrowserDecoder.ScalarText(t, bs) == Decimal(ValueOf(bs));
  }

  /** The `%u` digits of a value below 2^(8w) are stored as that value's own bytes. */
  lemma UnsignedDecimalStored(t: VarType, v: nat)
    requires IsInteger(t) && Width(t) <= 4 && v < Pow2(8 * Width(t))
    ensures BrowserEncoder.Encoding(t, Decimal(v)) == Ok(Encoded(Owned(LittleEndian(v, Width(t))), 0))
  {
    Pow2Monotone(8 * Width(t), LONG_BITS);
    ParseDecimal(v, LONG_BITS);
    EncodingOfParsed(t, Decimal(v), v);
  }

  /**
   * An INT32 in the signed range, typed as its `%d` digits, is stored and
   * shown as the same digits, the sign included.
   */
  lemma SignedTextRoundTrip(x: int)
    requires -(Pow2(31) as int) <= x < Pow2(31)
    ensures BrowserEncoder.Encoding(Int32, SignedDecimal(x)) == Ok(Encoded(Owned(LittleEndian(Truncate(x, 32), 4)), 0))
    ensures BrowserDecoder.ScalarText(Int32, LittleEndian(Truncate(x, 32), 4)) == SignedDecimal(x)
  {
    SignedDecimalStored(Int32, x);
    var u := Truncate(x, 32);
    var bs := LittleEndian(u, 4);
    assert ValueOf(bs) == u by {
      ValueOfLittleEndian(u, 4);
    }
    assert BrowserDecoder.ScalarText(Int32, bs) == SignedDecimal(ToSigned(u, 32));
    ToSignedOfTruncate(x, 32);
  }

  /** The `%d` digits of a value in the signed 32-bit range are stored as that value modulo 2^32. */
  lemma SignedDecimalStored(t: VarType, x: int)
    requires IsInteger(t) && Width(t) == 4 && -(Pow2(8 * Width(t) - 1) as int) <= x < Pow2(8 * Width(t) - 1)
    ensures BrowserEncoder.Encoding(t, SignedDecimal(x)) == Ok(Encoded(Owned(LittleEndian(Truncate(x, 8 * Width(t)), Width(t))), 0))
  {
    var bits := 8 * Width(t);
    Pow2Add(1, bits - 1);
    ParseSignedDecimal(x, bits);
    EncodingOfParsed(t, SignedDecimal(x), Truncate(x, bits));
  }

  /** A 64-bit value typed as `0x` and its hex digits is stored and shown as those digits. */
  lemma HexTextRoundTrip(t: VarType, v: nat)
    requires IsInteger(t) && Width(t) == 8 && v < Pow2(8 * Width(t))
    ensures BrowserEncoder.Encoding(t, "0x" + LowerHex(v)) == Ok(Encoded(Owned(LittleEndian(v, 8)), 0))
    ensures BrowserDecoder.ScalarText(t, LittleEndian(v, 8)) == LowerHex(v)
  {
    ParseHex(v, LONG_LONG_BITS);
    EncodingOfParsed(t, "0x" + LowerHex(v), v);
    ValueOfLittleEndian(v, 8);
  }

  /**
   * A negative INT8 or INT16 does not come back: `strtoul` takes "-1" as
   * 2^32 - 1 without ERANGE, the store keeps its low byte or bytes, and
   * `%d` of the unsigned value shows "255" or "65535".
   */
  lemma NegativeShortsDoNotRoundTrip()
    ensures var e := BrowserEncoder.Encoding(Int8, "-1");
      e == Ok(Encoded(Owned([255]), 0)) && BrowserDecoder.ScalarText(Int8, e.value.buf.bytes) == "255"
    ensures var e := BrowserEncoder.Encoding(Int16, "-1");
      e == Ok(Encoded(Owned([255, 255]), 0)) && BrowserDecoder.ScalarText(Int16, e.value.buf.bytes) == "65535"
  {
    NegativeInt8Stored();
    Int8Display();
    NegativeInt16Stored();
    Int16AllOnesDisplay();
  }

  /** `strtoul("-1")` on a 32-bit `unsigned long`. */
  lemma MinusOneParsed()
    ensures StrToUnsigned("-1", 0, LONG_BITS) == Conversion(0xFFFF_FFFF, false)
  {
    Pow2Of32();
    assert SignedDecimal(-1) == "-1";
    ParseSignedDecimal(-1, LONG_BITS);
  }

  lemma NegativeInt8Stored()
    ensures BrowserEncoder.Encoding(Int8, "-1") == Ok(Encoded(Owned([255]), 0))
  {
    MinusOneParsed();
    AllOnesStored8(Int8, "-1");
  }

  lemma AllOnesStored8(t: VarType, text: string)
    requires IsInteger(t) && Width(t) == 1
    requires StrToUnsigned(text, 0, BrowserEncoder.ParseBits(t)) == Conversion(0xFFFF_FFFF, false)
    ensures BrowserEncoder.Encoding(t, text) == Ok(Encoded(Owned([255]), 0))
  {
    var c := StrToUnsigned(text, 0, BrowserEncoder.ParseBits(t));
    EncodingOfParsed(t, text, c.value);
    AllOnes8Bytes(t, c.value);
  }

  lemma AllOnes8Bytes(t: VarType, v: nat)
    requires IsInteger(t) && Width(t) == 1 && v == 0xFFFF_FFFF
    ensures LittleEndian(Truncate(v, 8 * Width(t)), Width(t)) == [255]
  {
    assert Truncate(0xFFFF_FFFF, 8) == 255 by {
      Pow2Of8();
    }
    assert LittleEndian(255, 1) == [255];
  }

  lemma NegativeInt16Stored()
    ensures BrowserEncoder.Encoding(Int16, "-1") == Ok(Encoded(Owned([255, 255]), 0))
  {
    MinusOneParsed();
    AllOnesStored16(Int16, "-1");
  }

  /** A 16-bit integer read as 2^32 - 1 keeps its two low bytes, both 0xFF. */
  lemma AllOnesStored16(t: VarType, text: string)
    requires IsInteger(t) && Width(t) == 2
    requires StrToUnsigned(text, 0, BrowserEncoder.ParseBits(t)) == Conversion(0xFFFF_FFFF, false)
    ensures BrowserEncoder.Encoding(t, text) == Ok(Encoded(Owned([255, 255]), 0))
  {
    var c := StrToUnsigned(text, 0, BrowserEncoder.ParseBits(t));
    EncodingOfParsed(t, text, c.value);
    AllOnes16Bytes(t, c.value);
  }

  lemma AllOnes16Bytes(t: VarType, v: nat)
    requires IsInteger(t) && Width(t) == 2 && v == 0xFFFF_FFFF
    ensures LittleEndian(Truncate(v, 8 * Width(t)), Width(t)) == [255, 255]
  {
    assert Truncate(0xFFFF_FFFF, 16) == 0xFFFF by {
      Pow2Of16();
    }
    assert LittleEndian(0xFFFF, 2) == [255, 255];
  }

  lemma Int16AllOnesDisplay()
    ensures BrowserDecoder.ScalarText(Int16, [255, 255]) == "65535"
  {
    assert ValueOf([255, 255]) == 65535 by {
      assert [255, 255][1..] == [255] && [255][1..] == [];
    }
    assert NatText(6, 10) == "6";
    assert NatText(65, 10) == NatText(6, 10) + [Hex.HexDigit(5)];
    assert NatText(655, 10) == NatText(65, 10) + [Hex.HexDigit(5)];
    assert NatText(6553, 10) == NatText(655, 10) + [Hex.HexDigit(3)];
    assert NatText(65535, 10) == NatText(6553, 10) + [Hex.HexDigit(5)];
  }

  /**
   * The 64-bit types are shown in `%llx` hex without a prefix; with `0x`
   * in front the text encodes back into the same eight bytes.
   */
  lemma PrefixedHexRoundTrip(t: VarType, bs: seq<byte>)
    requires IsInteger(t) && Width(t) == 8 && |bs| == 8
    ensures BrowserEncoder.Encoding(t, "0x" + BrowserDecoder.ScalarText(t, bs)) == Ok(Encoded(Owned(bs), 0))
  {
    var v := ValueOf(bs);
    ValueOfBound(bs);
    assert BrowserDecoder.ScalarText(t, bs) == LowerHex(v);
    ParseHex(v, LONG_LONG_BITS);
    EncodingOfParsed(t, "0x" + LowerHex(v), v);
    LittleEndianValueOf(bs);
  }

  /** `%llx` of 255. */
  lemma LowerHex255()
    ensures LowerHex(255) == "ff"
  {
    assert LowerHex(255) == NatText(15, 16) + [Hex.HexDigit(15)];
  }

  /** `ff` read as a base-0 literal: no decimal digit at its head, so 0. */
  lemma HexLettersReadAsZero()
    ensures StrToUnsigned("ff", 0, LONG_LONG_BITS) == Conversion(0, false)
  {
    SkipSpaceNone("ff");
    assert DigitRun("ff", 10) == 0;
    assert Magnitude("ff", 0) == DigitsValue("ff"[..0], 10);
    assert "ff"[..0] == [];
  }

  /**
   * Without the prefix the shown hex is read as a base-0 literal: `ff`
   * (the value 255) has no decimal digit at its head and encodes as 0.
   */
  lemma UnprefixedHexIsNotRead()
    ensures BrowserDecoder.ScalarText(UInt64, LittleEndian(255, 8)) == "ff"
    ensures BrowserEncoder.Encoding(UInt64, "ff") == Ok(Encoded(Owned(LittleEndian(0, 8)), 0))
  {
    ShownHex255();
    HexLettersReadAsZero();
    ZeroEncoding(UInt64, "ff");
  }

  /** A text read as 0 is stored as zero bytes. */
  lemma ZeroEncoding(t: VarType, text: string)
    requires IsInteger(t) && StrToUnsigned(text, 0, BrowserEncoder.ParseBits(t)) == Conversion(0, false)
    ensures BrowserEncoder.Encoding(t, text) == Ok(Encoded(Owned(LittleEndian(0, Width(t))), 0))
  {
    EncodingOfParsed(t, text, 0);
  }

  lemma ShownHex255()
    ensures BrowserDecoder.ScalarText(UInt64, LittleEndian(255, 8)) == "ff"
  {
    assert ValueOf(LittleEndian(255, 8)) == 255 by {
      Pow2Of64();
      ValueOfLittleEndian(255, 8);
    }
    LowerHex255();
  }

  /**
   * The browser truncates an in-range number to the width without
   * complaint: any decimal below 2^32 is stored modulo 2^(8 w).
   */
  lemma DecimalTruncated(t: VarType, v: nat)
    requires IsInteger(t) && Width(t) <= 4 && v < Pow2(32)
    ensures BrowserEncoder.Encoding(t, Decimal(v)) == Ok(Encoded(Owned(LittleEndian(v % Pow2(8 * Width(t)), Width(t))), 0))
  {
    ParseDecimal(v, LONG_BITS);
  }

  /** "300" for an INT8 is stored as 44, the low byte of 300. */
  lemma Int8Overflow()
    ensures BrowserEncoder.Encoding(Int8, "300") == Ok(Encoded(Owned([44]), 0))
  {
    Decimal300();
    DecimalTruncated(Int8, 300);
    LowByteOf300();
  }

  lemma LowByteOf300()
    ensures LittleEndian(300 % Pow2(8 * Width(Int8)), Width(Int8)) == [44]
  {
    Pow2Values();
    assert LittleEndian(44, 1) == [44 % 256] + LittleEndian(44 / 256, 0);
  }

  lemma Decimal300()
    ensures Decimal(300) == "300"
  {
    assert NatText(3, 10) == "3";
    assert NatText(30, 10) == NatText(3, 10) + [Hex.HexDigit(0)];
    assert NatText(300, 10) == NatText(30, 10) + [Hex.HexDigit(0)];
  }

  /** INT8 is shown through an unsigned pointer and INT32 through a signed one. */
  lemma SignednessOfDisplay()
    ensures BrowserDecoder.ScalarText(Int8, [255]) == "255"
    ensures BrowserDecoder.ScalarText(Int32, [255, 255, 255, 255]) == "-1"
  {
    Int8Display();
    Int32Display();
  }

  lemma Int8Display()
    ensures BrowserDecoder.ScalarText(Int8, [255]) == "255"
  {
    assert ValueOf([255]) == 255 by {
      assert [255][1..] == [];
    }
    Decimal255();
  }

  lemma Decimal255()
    ensures Decimal(255) == "255"
  {
    assert Decimal(255) == NatText(25, 10) + [Hex.HexDigit(5)];
    assert NatText(25, 10) == NatText(2, 10) + [Hex.HexDigit(5)];
  }

  lemma Int32Display()
    ensures BrowserDecoder.ScalarText(Int32, [255, 255, 255, 255]) == "-1"
  {
    ValueOfAllOnes32();
    MinusOne32();
    assert SignedDecimal(-1) == "-1";
  }

  lemma ValueOfAllOnes32()
    ensures ValueOf([255, 255, 255, 255]) == Pow2(32) - 1
  {
    AllOnes32();
    ValueOfLittleEndian(Pow2(32) - 1, 4);
  }

  lemma AllOnes32()
    ensures LittleEndian(Pow2(32) - 1, 4) == [255, 255, 255, 255]
  {
    Pow2Of32();
    assert LittleEndian(0xFFFF_FFFF, 4) == [255, 255, 255, 255];
  }

  lemma MinusOne32()
    ensures ToSigned(Pow2(32) - 1, 32) == -1
  {
    assert Pow2(32) == 2 * Pow2(31);
  }

  // ---- the two encoders ----

  /**
   * The Smart Devices encoder reads every integer with `strtol`: a 32-bit
   * value between 2^31 and 2^32 - 1 that the browser stores as typed is
   * saturated to 0x7FFFFFFF, with the overflow not reported. This holds
   * for UINT32 and INT32 alike.
   */
  lemma UnsignedEncodersDiffer(t: VarType, v: nat)
    requires IsInteger(t) && Width(t) == 4 && 0x8000_0000 <= v < 0x1_0000_0000
    ensures BrowserEncoder.Encoding(t, Decimal(v)) == Ok(Encoded(Owned(LittleEndian(v, 4)), 0))
    ensures SmartEncoder.Encoding(t, Decimal(v)) == Ok(Encoded(Owned([0xFF, 0xFF, 0xFF, 0x7F]), 0))
  {
    Pow2Of31();
    BrowserKeepsUnsigned(t, v);
    SmartSaturates(t, v);
  }

  lemma BrowserKeepsUnsigned(t: VarType, v: nat)
    requires IsInteger(t) && Width(t) == 4 && v < Pow2(32)
    ensures BrowserEncoder.Encoding(t, Decimal(v)) == Ok(Encoded(Owned(LittleEndian(v, 4)), 0))
  {
    ParseDecimal(v, LONG_BITS);
    EncodingOfParsed(t, Decimal(v), v);
  }

  lemma SmartSaturates(t: VarType, v: nat)
    requires IsInteger(t) && Width(t) == 4 && Pow2(31) <= v
    ensures SmartEncoder.Encoding(t, Decimal(v)) == Ok(Encoded(Owned([0xFF, 0xFF, 0xFF, 0x7F]), 0))
  {
    SaturatedDecimal(v, SmartEncoder.ParseBits(t));
    SmartEncodingSaturated(t, Decimal(v));
  }

  /** A text `strtol` saturates to the largest signed value is stored as 0x7FFFFFFF. */
  lemma SmartEncodingSaturated(t: VarType, text: string)
    requires IsInteger(t) && Width(t) == 4
    requires StrToSigned(text, 0, SmartEncoder.ParseBits(t)) == Conversion(Pow2(SmartEncoder.ParseBits(t) - 1) - 1, true)
    ensures SmartEncoder.Encoding(t, text) == Ok(Encoded(Owned([0xFF, 0xFF, 0xFF, 0x7F]), 0))
  {
    var c := StrToSigned(text, 0, SmartEncoder.ParseBits(t));
    SmartEncodingOfParsed(t, text, c);
    MaxSigned32Bytes(t, c.value);
  }

  /** The largest signed value of a width is kept by truncation to that width. */
  lemma TruncateBelowHalf(bits: nat)
    requires bits >= 1
    ensures Truncate(Pow2(bits - 1) - 1, bits) == Pow2(bits - 1) - 1
  {
    Pow2Add(1, bits - 1);
  }

  /** The largest 32-bit signed value, truncated to 32 bits, in little-endian order. */
  lemma MaxSigned32Bytes(t: VarType, v: int)
    requires IsInteger(t) && Width(t) == 4 && v == Pow2(SmartEncoder.ParseBits(t) - 1) - 1
    ensures LittleEndian(Truncate(v, 8 * Width(t)), Width(t)) == [0xFF, 0xFF, 0xFF, 0x7F]
  {
    TruncateBelowHalf(32);
    Pow2Of31();
    assert LittleEndian(0x7FFF_FFFF, 4) == [0xFF, 0xFF, 0xFF, 0x7F];
  }

  /** `strtol` of the digits of a value beyond the signed range saturates to the largest value. */
  lemma SaturatedDecimal(v: nat, bits: nat)
    requires bits >= 1 && Pow2(bits - 1) <= v
    ensures StrToSigned(Decimal(v), 0, bits) == Conversion(Pow2(bits - 1) - 1, true)
  {
    ScanDecimal(v);
    SignedSaturates(v, bits);
  }

  /** A magnitude beyond the signed range of a positive literal saturates to the largest value. */
  lemma SignedSaturates(v: nat, bits: nat)
    requires bits >= 1 && Pow2(bits - 1) <= v
    ensures SignedOf(Scan(false, v), bits) == Conversion(Pow2(bits - 1) - 1, true)
  {
  }

  /** The Smart Devices encoder stores whatever `strtol` returns, reduced to the width. */
  lemma SmartEncodingOfParsed(t: VarType, text: string, c: Conversion)
    requires IsInteger(t) && StrToSigned(text, 0, SmartEncoder.ParseBits(t)) == c
    ensures SmartEncoder.Encoding(t, text) == Ok(Encoded(Owned(LittleEndian(Truncate(c.value, 8 * Width(t)), Width(t))), 0))
  {
  }

  /** Both encoders agree on every decimal below 2^31 for the 8-, 16- and 32-bit types. */
  lemma EncodersAgreeBelowHalf(t: VarType, v: nat)
    requires IsInteger(t) && Width(t) <= 4 && v < Pow2(31)
    ensures BrowserEncoder.Encoding(t, Decimal(v)) == SmartEncoder.Encoding(t, Decimal(v))
  {
    assert Pow2(32) == 2 * Pow2(31);
    ParseDecimal(v, LONG_BITS);
    assert BrowserEncoder.ParseBits(t) == LONG_BITS;
    EncodingOfParsed(t, Decimal(v), v);
    ScanDecimal(v);
    assert SmartEncoder.ParseBits(t) == LONG_BITS;
    SmartEncodingOfParsed(t, Decimal(v), Conversion(v, false));
  }

  // ---- Blob: shown text back to bytes ----

  /** The nibble of the lowercase digit `printf` writes is the value written. */
  lemma NibbleOfShownDigit(n: nat)
    requires n < 16
    ensures BrowserEncoder.Nibble(Hex.HexDigit(n)) == n
  {
    Hex.NibbleOfHexDigit(n);
  }

  /** Packing the `%02x` digits of some bytes gives back those bytes. */
  lemma PackBytesHex(bs: seq<byte>)
    ensures BrowserEncoder.AllHex(Hex.BytesHex(bs))
    ensures BrowserEncoder.Pack(Hex.BytesHex(bs)) == bs
  {
    var s := Hex.BytesHex(bs);
    Hex.BytesHexIsLowercase(bs);
    Hex.BytesHexLength(bs);
    var p := BrowserEncoder.Pack(s);
    assert |p| == |bs|;
    forall k | 0 <= k < |bs|
      ensures p[k] == bs[k]
    {
      Hex.BytesHexAt(bs, k);
      NibbleOfShownDigit(bs[k] / 16);
      NibbleOfShownDigit(bs[k] % 16);
    }
  }

  /**
   * A Blob shown as `0x` and its `%02x` digits (2 + 2n characters) is
   * encoded back into the same n bytes, sent with size n.
   */
  lemma BlobRoundTrip(bs: seq<byte>, showFloat: seq<byte> -> string, failure: Option<nat>)
    requires |bs| < 256
    ensures var text := BrowserDecoder.ValueText(VarValue(Blob, Some(Raw(bs))), showFloat, failure);
      |text| == 2 + 2 * |bs|
      && BrowserEncoder.Encoding(Blob, text) == Ok(Encoded(Owned(bs), |bs|))
  {
    var h := Hex.BytesHex(bs);
    Hex.BytesHexLength(bs);
    PackBytesHex(bs);
    var text := "0x" + h;
    Hex.BytesHexIsLowercase(bs);
    assert CStrings.NoNul(text);
    assert text[..CStrings.StrLen(text)] == text;
    assert text[..2] == "0x" && text[2..] == h;
  }

  /** The lowercase digit of the nibble a lowercase hex digit stands for is that digit. */
  lemma HexDigitOfNibble(c: char)
    requires Hex.IsHexDigit(c) && !('A' <= c <= 'F')
    ensures Hex.HexDigit(BrowserEncoder.Nibble(c)) == c
  {
  }

  /**
   * The other direction: an even number of lowercase hex digits, packed
   * and shown again, is the same digits.
   */
  lemma BytesHexPack(d: string)
    requires BrowserEncoder.AllHex(d) && |d| % 2 == 0
    requires forall i :: 0 <= i < |d| ==> !('A' <= d[i] <= 'F')
    ensures Hex.BytesHex(BrowserEncoder.Pack(d)) == d
  {
    var p := BrowserEncoder.Pack(d);
    Hex.BytesHexLength(p);
    forall i | 0 <= i < |d|
      ensures Hex.BytesHex(p)[i] == d[i]
    {
      var k := i / 2;
      Hex.BytesHexAt(p, k);
      BrowserEncoder.PackLayout(d);
      HexDigitOfNibble(d[2 * k]);
      HexDigitOfNibble(d[2 * k + 1]);
      assert i == 2 * k || i == 2 * k + 1;
    }
  }

  lemma BlobExamples()
    ensures BrowserEncoder.Encoding(Blob, "0xAB12") == Ok(Encoded(Owned([0xAB, 0x12]), 2))
    ensures BrowserEncoder.Encoding(Blob, "ABC") == Ok(Encoded(Owned([0xAB, 0xC0]), 2))
    ensures BrowserEncoder.Encoding(Blob, "12G4") == Err(NonHexCharacter)
  {
    PrefixedBlobExample();
    OddBlobExample();
    NonHexBlobExample();
  }

  lemma NonHexBlobExample()
    ensures BrowserEncoder.Encoding(Blob, "12G4") == Err(NonHexCharacter)
  {
    assert !Hex.IsHexDigit("12G4"[2]);
  }

  lemma PrefixedBlobExample()
    ensures BrowserEncoder.Encoding(Blob, "0xAB12") == Ok(Encoded(Owned([0xAB, 0x12]), 2))
  {
    PrefixedBlobDigits();
    HexBlob("0xAB12", "AB12");
    assert BrowserEncoder.Pack("AB12") == [0xAB, 0x12] by {
      BrowserEncoder.PackLayout("AB12");
    }
  }

  /** Text whose digits are all hex is sent as their packing. */
  lemma HexBlob(text: string, d: string)
    requires BrowserEncoder.BlobDigits(text) == d && BrowserEncoder.AllHex(d)
    ensures BrowserEncoder.Encoding(Blob, text) == Ok(Encoded(Owned(BrowserEncoder.Pack(d)), |BrowserEncoder.Pack(d)|))
  {
  }

  lemma PrefixedBlobDigits()
    ensures BrowserEncoder.BlobDigits("0xAB12") == "AB12"
  {
    var text := "0xAB12";
    assert CStrings.NoNul(text);
    assert text[..CStrings.StrLen(text)] == text;
  }

  lemma OddBlobExample()
    ensures BrowserEncoder.Encoding(Blob, "ABC") == Ok(Encoded(Owned([0xAB, 0xC0]), 2))
  {
    assert "ABC"[0] == 'A';
    assert BrowserEncoder.BlobDigits("ABC") == "ABC";
    assert BrowserEncoder.AllHex("ABC");
    assert BrowserEncoder.Pack("ABC") == [0xAB, 0xC0] by {
      BrowserEncoder.PackLayout("ABC");
    }
  }

  lemma BlobDisplayExample(showFloat: seq<byte> -> string, failure: Option<nat>)
    ensures BrowserDecoder.ValueText(VarValue(Blob, Some(Raw([0xDE, 0xAD, 0xBE, 0xEF]))), showFloat, failure) == "0xdeadbeef"
  {
    DeadBeefHex();
  }

  lemma DeadBeefHex()
    ensures Hex.BytesHex([0xDE, 0xAD, 0xBE, 0xEF]) == "deadbeef"
  {
    var bs: seq<byte> := [0xDE, 0xAD, 0xBE, 0xEF];
    assert Hex.BytesHex(bs[2..]) == "beef" by {
      assert Hex.ByteHex(0xBE) == "be" && Hex.ByteHex(0xEF) == "ef";
      assert bs[2..][1..] == [0xEF] && [0xEF][1..] == [];
    }
    assert Hex.ByteHex(0xDE) == "de" && Hex.ByteHex(0xAD) == "ad";
    assert bs[1..] == [0xAD] + bs[2..] && bs[1..][1..] == bs[2..];
  }

  // ---- tables ----

  /** The lines of the first k rows are a prefix of the lines of all rows. */
  lemma {:induction false} RowsTextPrefix(rows: seq<Row>, k: nat)
    requires k <= |rows|
    ensures BrowserDecoder.RowsText(rows[..k]) <= BrowserDecoder.RowsText(rows)
    decreases |rows|
  {
    if k < |rows| {
      var init := rows[..|rows| - 1];
      assert rows[..k] == init[..k];
      RowsTextPrefix(init, k);
    } else {
      assert rows[..k] == rows;
    }
  }

  /**
   * When a `realloc` fails part-way through a table, what is shown is a
   * prefix of the full table (the rows up to and including the failing
   * one); an empty table is shown as "Empty table" whatever happens.
   */
  lemma PartialTableIsPrefix(rows: seq<Row>, failure: Option<nat>)
    ensures rows == [] ==> BrowserDecoder.TableText(rows, failure) == "Empty table\n"
    ensures rows != [] ==> BrowserDecoder.TableText(rows, failure) <= BrowserDecoder.TableText(rows, None)
    ensures BrowserDecoder.TableFails(rows, failure) ==>
      BrowserDecoder.TableText(rows, failure) == BrowserDecoder.RowsText(rows[..failure.value + 1])
  {
    if rows != [] {
      RowsTextPrefix(rows, BrowserDecoder.Shown(rows, failure));
      assert rows[..|rows|] == rows;
    }
  }

  /** `%03d` of 0 and 1. */
  lemma ZeroPadExamples()
    ensures ZeroPad3(0) == "000" && ZeroPad3(1) == "001"
  {
    assert Decimal(0) == "0" && Decimal(1) == "1";
  }

  lemma EmptyRowLine()
    ensures BrowserDecoder.RowText(0, EmptyRow) == BrowserDecoder.ROW_OPEN + "000 { Empty Row }</P>\n"
  {
    ZeroPadExamples();
  }

  lemma PresentRowLine()
    ensures BrowserDecoder.RowText(1, Present([0x01, 0x02])) == BrowserDecoder.ROW_OPEN + "001 { 0x0102 }</P>\n"
  {
    ZeroPadExamples();
    assert Hex.BytesHex([0x01, 0x02]) == "0102" by {
      Hex.BytesHexAppend([], 0x01);
      Hex.BytesHexAppend([0x01], 0x02);
    }
  }

  /** The lines of two rows are the first row's line and then the second's. */
  lemma TwoRowsText(rows: seq<Row>)
    requires |rows| == 2
    ensures BrowserDecoder.RowsText(rows) == BrowserDecoder.RowText(0, rows[0]) + BrowserDecoder.RowText(1, rows[1])
  {
    assert BrowserDecoder.RowsText(rows[..1]) == BrowserDecoder.RowText(0, rows[0]) by {
      BrowserDecoder.RowsTextSnoc(rows, 0);
      assert rows[..0] == [];
    }
    assert BrowserDecoder.RowsText(rows[..2]) == BrowserDecoder.RowsText(rows[..1]) + BrowserDecoder.RowText(1, rows[1]) by {
      BrowserDecoder.RowsTextSnoc(rows, 1);
    }
    assert rows[..2] == rows;
  }

  /** A table of an empty row and a row of two bytes: two lines, numbered 000 and 001, each in its paragraph markup. */
  lemma TableExample(failure: Option<nat>)
    requires failure.None? || failure.value >= 2
    ensures BrowserDecoder.TableText([EmptyRow, Present([0x01, 0x02])], failure)
      == BrowserDecoder.ROW_OPEN + "000 { Empty Row }</P>\n" + BrowserDecoder.ROW_OPEN + "001 { 0x0102 }</P>\n"
  {
    var rows := [EmptyRow, Present([0x01, 0x02])];
    assert rows[..2] == rows;
    TwoRowsText(rows);
    EmptyRowLine();
    PresentRowLine();
  }

  /**
   * A String is shown as its bytes up to the first zero byte and a
   * newline: bytes without a zero byte are shown one character each,
   * nothing added but the newline.
   */
  lemma StringDisplay(bs: seq<byte>, showFloat: seq<byte> -> string, failure: Option<nat>)
    requires forall i :: 0 <= i < |bs| ==> bs[i] != 0
    ensures var text := BrowserDecoder.ValueText(VarValue(Str, Some(Raw(bs))), showFloat, failure);
      |text| == |bs| + 1 && text[|bs|] == '\n'
      && forall i :: 0 <= i < |bs| ==> text[i] == bs[i] as char
  {
    var s := BrowserDecoder.CString(bs);
    assert |s| == |bs|;
  }
}

/**
 * The value-encoding switch of the generic browser program: form text to
 * the buffer and size handed to the transmit call, for each JIP type.
 * Integers go through `strtoul`/`strtoull` with base 0 and are truncated
 * to the type's width; a String is passed on as the form text itself; a
 * Blob is hex text packed two digits per byte.
 */
module BrowserEncoder {
  import opened Wrappers
  import opened JipTypes
  import opened CNumber
  import Hex
  import opened Transmit
  import opened CStrings

  /** The width in bits of the `strto*` call used for an integer type: `strtoull` for 64-bit types, else `strtoul`. */
  function ParseBits(t: VarType): nat
    requires IsInteger(t)
  {
    if Width(t) == 8 then LONG_LONG_BITS else LONG_BITS
  }

  // ---- Blob text ----

  /**
   * The digits the Blob packer reads: the C string, up to its first NUL,
   * with only a lowercase `0x` prefix skipped.
   */
  function BlobDigits(text: string): (d: string)
    ensures NoNul(d) && |d| <= StrLen(text)
  {
    var s := text[..StrLen(text)];
    if |s| >= 2 && s[..2] == "0x" then s[2..] else s
  }

  predicate AllHex(s: string)
  {
    forall i :: 0 <= i < |s| ==> Hex.IsHexDigit(s[i])
  }

  function Nibble(c: char): (n: nat)
    requires Hex.IsHexDigit(c)
    ensures n < 16
  {
    Hex.NibbleOf(c).value
  }

  /**
   * Byte k of the packed value: digit 2k as the high nibble and digit
   * 2k + 1, when there is one, as the low nibble.
   */
  function PackedByte(s: string, k: nat): byte
    requires AllHex(s) && 2 * k < |s|
  {
    Nibble(s[2 * k]) * 16 + (if 2 * k + 1 < |s| then Nibble(s[2 * k + 1]) else 0)
  }

  /** All hex digits packed two per byte, high nibble first; an odd count leaves the last low nibble 0. */
  function Pack(s: string): (bs: seq<byte>)
    requires AllHex(s)
  {
    seq((|s| + 1) / 2, k requires 0 <= k < (|s| + 1) / 2 => PackedByte(s, k))
  }

  /**
   * The Blob packer of the form handler. It allocates `strlen(text)` zeroed
   * bytes, skips a lowercase `0x`, packs the digits before the first NUL,
   * and keeps the first half of the digit count, rounded up, of the bytes.
   */
  method PackBlob(text: string) returns (r: Option<seq<byte>>)
    ensures r.Some? <==> AllHex(BlobDigits(text))
    ensures r.Some? ==> r.value == Pack(BlobDigits(text))
    ensures r.Some? ==> |r.value| == (|BlobDigits(text)| + 1) / 2 <= StrLen(text)
  {
    var buf := new byte[StrLen(text)](_ => 0);
    var s := BlobDigits(text);
    var supported, size := PackDigits(buf, s);
    size := if size % 2 == 1 then size / 2 + 1 else size / 2;
    if supported {
      r := Some(buf[..size]);
    } else {
      r := None;
    }
  }

  /**
   * The digit loop: one digit per step; an even step stores the nibble as
   * the high half of byte j, an odd step ORs it into the low half and
   * moves j on. A non-hex character stops the loop and the value is not
   * supported.
   */
  method PackDigits(buf: array<byte>, s: string) returns (supported: bool, size: nat)
    requires |s| <= buf.Length
    requires forall k :: 0 <= k < buf.Length ==> buf[k] == 0
    modifies buf
    ensures supported <==> AllHex(s)
    ensures supported ==> size == |s|
    ensures supported ==> forall k :: 0 <= k < (|s| + 1) / 2 ==> buf[k] == PackedByte(s, k)
  {
    supported := true;
    var i, j := 0, 0;
    size := 0;
    while i < |s| && supported
      invariant 0 <= i <= |s| <= buf.Length
      invariant supported ==> size == i && (i == 2 * j || i == 2 * j + 1)
      invariant supported ==> forall m :: 0 <= m < i ==> Hex.IsHexDigit(s[m])
      invariant !supported ==> !AllHex(s)
      invariant supported ==> forall k :: 0 <= k < j ==> buf[k] == Nibble(s[2 * k]) * 16 + Nibble(s[2 * k + 1])
      invariant supported && i == 2 * j + 1 ==> buf[j] == Nibble(s[i - 1]) * 16
      invariant supported && i == 2 * j && j < buf.Length ==> buf[j] == 0
      invariant supported ==> forall k :: j < k < buf.Length ==> buf[k] == 0
    {
      var nibble := Hex.NibbleOf(s[i]);
      if nibble.None? {
        supported := false;
        break;
      }
      if size % 2 == 0 {
        // even digit: the high nibble of a fresh byte
        buf[j] := nibble.value * 16;
      } else {
        // odd digit: the low nibble is still zero, so OR-ing it in adds it
        buf[j] := buf[j] + nibble.value;
        j := j + 1;
      }
      size := size + 1;
      i := i + 1;
    }
  }

  // ---- the encoding switch ----

  /** The bytes stored for an integer type: the parsed value truncated to the width, in host order. */
  function IntegerBytes(t: VarType, c: Conversion): seq<byte>
    requires IsInteger(t)
  {
    LittleEndian(Truncate(c.value, 8 * Width(t)), Width(t))
  }

  /**
   * What the switch hands to the transmit call for form text `text` and
   * a variable of type `t`, or why nothing is sent. Integer encodings keep
   * `u32Size` at 0, as the switch never sets it for them.
   */
  function Encoding(t: VarType, text: string): Result<Encoded, EncodeError>
  {
    if IsInteger(t) then
      var c := StrToUnsigned(text, 0, ParseBits(t));
      if c.erange then Err(InvalidValue) else Ok(Encoded(Owned(IntegerBytes(t, c)), 0))
    else if t == Flt then Ok(Encoded(FloatImage(text, 4), 0))
    else if t == Dbl then Ok(Encoded(FloatImage(text, 8), 0))
    else if t == Str then Ok(Encoded(Borrowed(text), StrLen(text)))
    else if t == Blob then
      var d := BlobDigits(text);
      if AllHex(d) then Ok(Encoded(Owned(Pack(d)), |Pack(d)|)) else Err(NonHexCharacter)
    else Err(UnsupportedType)
  }

  /** The switch itself, with the Blob case run by the in-place packer. */
  method Encode(t: VarType, text: string) returns (r: Result<Encoded, EncodeError>)
    ensures r == Encoding(t, text)
  {
    match t
    case Int8 | UInt8 | Int16 | UInt16 | Int32 | UInt32 | Int64 | UInt64 =>
      var c := StrToUnsigned(text, 0, ParseBits(t));
      if c.erange {
        r := Err(InvalidValue);
      } else {
        r := Ok(Encoded(Owned(IntegerBytes(t, c)), 0));
      }
    case Flt =>
      r := Ok(Encoded(FloatImage(text, 4), 0));
    case Dbl =>
      r := Ok(Encoded(FloatImage(text, 8), 0));
    case Str =>
      r := Ok(Encoded(Borrowed(text), StrLen(text)));
    case Blob =>
      var packed := PackBlob(text);
      if packed.Some? {
        r := Ok(Encoded(Owned(packed.value), |packed.value|));
      } else {
        r := Err(NonHexCharacter);
      }
    case TableBlob | Other =>
      r := Err(UnsupportedType);
  }

  /**
   * One update: encode, send on the multicast or unicast path when the
   * type is supported, and report whether the buffer is released with
   * `free`. An integer parse error returns before the `free`; only the
   * one-byte types have allocated their buffer by then, and it leaks.
   */
  method Update(sink: Sink, multicast: bool, t: VarType, text: string) returns (r: Result<Encoded, EncodeError>, released: bool, leaked: bool)
    modifies sink
    ensures r == Encoding(t, text)
    ensures r.Ok? ==> sink.sent == old(sink.sent) + [Transmission(multicast, r.value.buf, r.value.size)]
    ensures r.Err? ==> sink.sent == old(sink.sent)
    ensures released <==> t != Str && r != Err(InvalidValue)
    ensures leaked <==> r == Err(InvalidValue) && (t == Int8 || t == UInt8)
  {
    r := Encode(t, text);
    leaked := false;
    if r == Err(InvalidValue) {
      released := false;
      leaked := t == Int8 || t == UInt8;
      return;
    }
    if r.Ok? {
      sink.Send(Transmission(multicast, r.value.buf, r.value.size));
    }
    released := t != Str;
  }

  // ---- properties of the encoding ----

  /**
   * An integer is rejected exactly when the conversion sets ERANGE;
   * otherwise it is stored in `Width(t)` bytes that read back as the
   * parsed value reduced modulo 2^(8 * Width(t)).
   */
  lemma IntegerEncoding(t: VarType, text: string)
    requires IsInteger(t)
    ensures Encoding(t, text).Err? <==> StrToUnsigned(text, 0, ParseBits(t)).erange
    ensures Encoding(t, text).Ok? ==>
      var e := Encoding(t, text).value;
      e.size == 0 && e.buf.Owned? && e.buf.Freeable() && |e.buf.bytes| == Width(t)
      && ValueOf(e.buf.bytes) == StrToUnsigned(text, 0, ParseBits(t)).value % Pow2(8 * Width(t))
  {
    var c := StrToUnsigned(text, 0, ParseBits(t));
    if !c.erange {
      var v := Truncate(c.value, 8 * Width(t));
      ValueOfLittleEndian(v, Width(t));
    }
  }

  /**
   * Digits packed by `Pack`: byte k's high nibble is digit 2k and its low
   * nibble digit 2k + 1, or 0 past the last digit; the length is half the
   * digit count rounded up.
   */
  lemma PackLayout(s: string)
    requires AllHex(s)
    ensures |Pack(s)| == (|s| + 1) / 2 <= |s| + 1
    ensures forall k :: 0 <= k < |Pack(s)| ==>
      Pack(s)[k] / 16 == Nibble(s[2 * k]) &&
      Pack(s)[k] % 16 == (if 2 * k + 1 < |s| then Nibble(s[2 * k + 1]) else 0)
  {
  }

  /**
   * A Blob is sent exactly when every character after an optional
   * lowercase `0x` and before the first NUL is a hex digit; its size is
   * then the number of packed bytes, which never exceeds `strlen` of the
   * form text.
   */
  lemma BlobEncoding(text: string)
    ensures Encoding(Blob, text).Ok? <==> AllHex(BlobDigits(text))
    ensures Encoding(Blob, text).Err? ==> Encoding(Blob, text) == Err(NonHexCharacter)
    ensures Encoding(Blob, text).Ok? ==>
      var e := Encoding(Blob, text).value;
      e.buf.Owned? && e.buf.Freeable() && e.size == |e.buf.bytes| == (|BlobDigits(text)| + 1) / 2 <= StrLen(text) <= |text|
  {
  }

  /** The packer stops at an embedded NUL: "A", NUL, "B" is sent as the one byte 0xA0. */
  lemma EmbeddedNulEndsBlob()
    ensures Encoding(Blob, "A\0B") == Ok(Encoded(Owned([0xA0]), 1))
  {
    assert StrLen("A\0B") == 1;
    assert BlobDigits("A\0B") == "A";
    assert Pack("A") == [0xA0];
  }

  /** Only a lowercase prefix is skipped: with `0X` the `X` is a non-hex character. */
  lemma UppercasePrefixRejected()
    ensures Encoding(Blob, "0X12") == Err(NonHexCharacter)
  {
    assert !Hex.IsHexDigit("0X12"[1]);
  }

  /**
   * A String is sent as the form text itself, with its `strlen` (the whole
   * text when it holds no NUL), and is not freed.
   */
  lemma StringEncoding(text: string)
    ensures Encoding(Str, text).Ok?
    ensures Encoding(Str, text).value.buf == Borrowed(text) && !Encoding(Str, text).value.buf.Freeable()
    ensures Encoding(Str, text).value.size == StrLen(text) <= |text|
    ensures NoNul(text) ==> Encoding(Str, text).value.size == |text|
  {
  }

  /**
   * Only a String borrows its buffer, and only TableBlob and unknown
   * types are unsupported.
   */
  lemma EncodingOwnership(t: VarType, text: string)
    ensures Encoding(t, text) == Err(UnsupportedType) <==> t == TableBlob || t == Other
    ensures Encoding(t, text).Ok? ==> (Encoding(t, text).value.buf.Freeable() <==> t != Str)
  {
  }
}

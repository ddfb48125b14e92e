/**
 * Hex digits in both directions: the character classification the Blob
 * encoder applies to each form character, and the `%02x` rendering the
 * Blob and table decoders apply to each byte.
 */
module Hex {
  import opened Wrappers
  import opened JipTypes

  predicate IsHexDigit(c: char)
  {
    ('0' <= c <= '9') || ('a' <= c <= 'f') || ('A' <= c <= 'F')
  }

  /**
   * The nibble a character stands for, tested in the encoder's order
   * (`0-9`, then `a-f`, then `A-F`); None for any other character.
   */
  function NibbleOf(c: char): (r: Option<nat>)
    ensures r.Some? <==> IsHexDigit(c)
    ensures r.Some? ==> r.value < 16
    ensures r.Some? && '0' <= c <= '9' ==> r.value == c as int - '0' as int
    ensures r.Some? && !('0' <= c <= '9') ==> r.value >= 10
  {
    if '0' <= c <= '9' then Some(c as int - '0' as int)
    else if 'a' <= c <= 'f' then Some(c as int - 'a' as int + 0x0A)
    else if 'A' <= c <= 'F' then Some(c as int - 'A' as int + 0x0A)
    else None
  }

  /** The lowercase digit `printf` uses for a value below 16. */
  function HexDigit(n: nat): (c: char)
    requires n < 16
    ensures IsHexDigit(c) && !('A' <= c <= 'F')
  {
    if n < 10 then ('0' as int + n) as char else ('a' as int + n - 10) as char
  }

  lemma NibbleOfHexDigit(n: nat)
    requires n < 16
    ensures NibbleOf(HexDigit(n)) == Some(n)
  {
  }

  /** `%02x` of one byte: two lowercase digits, high nibble first, zero-padded. */
  function ByteHex(b: byte): (s: string)
    ensures |s| == 2
  {
    [HexDigit(b / 16), HexDigit(b % 16)]
  }

  /** The bytes rendered one `%02x` after another. */
  function BytesHex(bs: seq<byte>): (s: string)
  {
    if bs == [] then [] else ByteHex(bs[0]) + BytesHex(bs[1..])
  }

  lemma {:induction false} BytesHexLength(bs: seq<byte>)
    ensures |BytesHex(bs)| == 2 * |bs|
  {
    if bs != [] {
      BytesHexLength(bs[1..]);
    }
  }

  /** Byte k of the input becomes characters 2k and 2k+1 of the output. */
  lemma {:induction false} BytesHexAt(bs: seq<byte>, k: nat)
    requires k < |bs|
    ensures |BytesHex(bs)| == 2 * |bs|
    ensures BytesHex(bs)[2 * k] == HexDigit(bs[k] / 16)
    ensures BytesHex(bs)[2 * k + 1] == HexDigit(bs[k] % 16)
  {
    BytesHexLength(bs);
    if k > 0 {
      BytesHexAt(bs[1..], k - 1);
    }
  }

  lemma {:induction false} BytesHexAppend(bs: seq<byte>, b: byte)
    ensures BytesHex(bs + [b]) == BytesHex(bs) + ByteHex(b)
  {
    if bs != [] {
      assert (bs + [b])[1..] == bs[1..] + [b];
      BytesHexAppend(bs[1..], b);
    } else {
      assert bs + [b] == [b];
    }
  }

  /** Rendering one more byte of a sequence adds its two digits. */
  lemma BytesHexSnoc(bs: seq<byte>, i: nat)
    requires i < |bs|
    ensures BytesHex(bs[..i + 1]) == BytesHex(bs[..i]) + ByteHex(bs[i])
  {
    assert bs[..i + 1] == bs[..i] + [bs[i]];
    BytesHexAppend(bs[..i], bs[i]);
  }

  /** Every character of a rendering is a lowercase hex digit. */
  lemma {:induction false} BytesHexIsLowercase(bs: seq<byte>)
    ensures forall i :: 0 <= i < |BytesHex(bs)| ==> IsHexDigit(BytesHex(bs)[i]) && !('A' <= BytesHex(bs)[i] <= 'F')
  {
    BytesHexLength(bs);
    forall i | 0 <= i < |BytesHex(bs)|
      ensures IsHexDigit(BytesHex(bs)[i]) && !('A' <= BytesHex(bs)[i] <= 'F')
    {
      BytesHexAt(bs, i / 2);
      assert i == 2 * (i / 2) || i == 2 * (i / 2) + 1;
    }
  }
}

/**
 * The value handling of the Smart Devices program: its encoding switch for
 * an update (a reduced copy of the browser's, with `strtol` and no error
 * check, and no Blob case), the multicast test on the update address, and
 * the text shown for a device's DescriptiveName.
 */
module SmartEncoder {
  import opened Wrappers
  import opened JipTypes
  import opened CNumber
  import opened Transmit
  import BrowserEncoder
  import BrowserDecoder
  import opened CStrings

  /** The width in bits of the `strto*` call used for an integer type: `strtoll` for 64-bit types, else `strtol`. */
  function ParseBits(t: VarType): (bits: nat)
    requires IsInteger(t)
    ensures bits >= 1
  {
    if Width(t) == 8 then LONG_LONG_BITS else LONG_BITS
  }

  /**
   * What the switch hands to the transmit call. Integers are parsed as
   * signed and never rejected (a saturated value is stored like any
   * other); Blob, TableBlob and unknown types are not supported.
   */
  function Encoding(t: VarType, text: string): Result<Encoded, EncodeError>
  {
    if IsInteger(t) then
      Ok(Encoded(Owned(BrowserEncoder.IntegerBytes(t, StrToSigned(text, 0, ParseBits(t)))), 0))
    else if t == Flt then Ok(Encoded(FloatImage(text, 4), 0))
    else if t == Dbl then Ok(Encoded(FloatImage(text, 8), 0))
    else if t == Str then Ok(Encoded(Borrowed(text), StrLen(text)))
    else Err(UnsupportedType)
  }

  // ---- the multicast test ----

  /** The character `strncmp` sees at position i of a C string: NUL past its end. */
  function CharAt(s: string, i: nat): char
  {
    if i < |s| then s[i] else NUL
  }

  /** `strncmp(s1, s2, n) == 0`: the first n characters agree, or both strings end together before that. */
  predicate StrNEqual(s1: string, s2: string, n: nat)
    decreases n
  {
    n == 0 || (CharAt(s1, 0) == CharAt(s2, 0) && (CharAt(s1, 0) == NUL || StrNEqual(s1[1..], s2[1..], n - 1)))
  }

  /** An update address is multicast when it starts with `FF` or `ff`, as the two `strncmp` calls test. */
  predicate IsMulticast(address: string)
  {
    StrNEqual("FF", address, 2) || StrNEqual("ff", address, 2)
  }

  /**
   * For a C string the test is exactly a two-character prefix check:
   * `FF` or `ff`, and nothing else (`Ff` or a one-character address is
   * not multicast).
   */
  lemma MulticastPrefix(address: string)
    requires NoNul(address)
    ensures IsMulticast(address) <==> |address| >= 2 && (address[..2] == "FF" || address[..2] == "ff")
  {
    if |address| >= 2 {
      assert address[1..][1..] == address[2..];
      assert CharAt(address[1..], 0) == address[1];
      assert address[..2] == [address[0], address[1]];
    } else if |address| == 1 {
      assert CharAt(address[1..], 0) == NUL;
    }
  }

  lemma MulticastExamples()
    ensures IsMulticast("FF02::1") && IsMulticast("ff05::2")
    ensures !IsMulticast("Ff02::1") && !IsMulticast("fe80::1") && !IsMulticast("F")
  {
    MulticastPrefix("FF02::1");
    MulticastPrefix("ff05::2");
    MulticastPrefix("Ff02::1");
    MulticastPrefix("fe80::1");
    MulticastPrefix("F");
  }

  // ---- the update ----

  /**
   * One update: encode, send on the multicast path when the address is
   * multicast and on the unicast path otherwise, and free the buffer
   * exactly when `freeable` is still set, that is for every type but String.
   */
  method Update(sink: Sink, address: string, t: VarType, text: string) returns (r: Result<Encoded, EncodeError>, released: bool)
    modifies sink
    ensures r == Encoding(t, text)
    ensures r.Ok? ==> sink.sent == old(sink.sent) + [Transmission(IsMulticast(address), r.value.buf, r.value.size)]
    ensures r.Err? ==> sink.sent == old(sink.sent)
    ensures released <==> t != Str
  {
    var multicast := IsMulticast(address);
    r := Encoding(t, text);
    if r.Ok? {
      sink.Send(Transmission(multicast, r.value.buf, r.value.size));
    }
    released := t != Str;
  }

  // ---- properties of the encoding ----

  /**
   * Integers are never rejected: the bytes always hold the `strtol`
   * value, saturated or not, reduced to the width.
   */
  lemma IntegerEncoding(t: VarType, text: string)
    requires IsInteger(t)
    ensures Encoding(t, text).Ok?
    ensures var e := Encoding(t, text).value;
      e.size == 0 && e.buf.Owned? && |e.buf.bytes| == Width(t)
      && ValueOf(e.buf.bytes) == StrToSigned(text, 0, ParseBits(t)).value % Pow2(8 * Width(t))
  {
    var c := StrToSigned(text, 0, ParseBits(t));
    ValueOfLittleEndian(Truncate(c.value, 8 * Width(t)), Width(t));
  }

  /**
   * String is borrowed and sent with its `strlen`, the whole form text
   * when it holds no NUL; Blob, TableBlob and unknown types are not supported.
   */
  lemma StringAndUnsupported(t: VarType, text: string)
    ensures Encoding(t, text) == Err(UnsupportedType) <==> t == Blob || t == TableBlob || t == Other
    ensures t == Str ==> Encoding(t, text) == Ok(Encoded(Borrowed(text), StrLen(text)))
    ensures t == Str && NoNul(text) ==> Encoding(t, text).value.size == |text|
    ensures Encoding(t, text).Ok? ==> (Encoding(t, text).value.buf.Freeable() <==> t != Str)
  {
  }

  // ---- the DescriptiveName label ----

  /**
   * The label shown for a device's DescriptiveName: the string and a
   * newline, "Unknown Type" for any other type, "?" without data. (A
   * String always holds raw bytes; the label does not depend on that.)
   */
  function DescriptiveLabel(v: VarValue): string
  {
    match v.data
    case None => "?\n"
    case Some(p) => if v.varType == Str && p.Raw? then BrowserDecoder.CString(p.bytes) + "\n" else "Unknown Type\n"
  }

  /**
   * The label is the browser's display restricted to strings: it agrees
   * with the browser's text for a String or a missing value, and is
   * "Unknown Type" for every other type.
   */
  lemma DescriptiveLabelAgrees(v: VarValue, showFloat: seq<byte> -> string, failure: Option<nat>)
    requires WellTyped(v)
    ensures v.varType == Str || v.data.None? ==> DescriptiveLabel(v) == BrowserDecoder.ValueText(v, showFloat, failure)
    ensures v.varType != Str && v.data.Some? ==> DescriptiveLabel(v) == "Unknown Type\n"
  {
  }
}

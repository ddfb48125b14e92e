/**
 * The JIP variable types and the value shapes the codec works on: the
 * type tag that drives both dispatches, the bytes a variable holds, the
 * rows of a table, and the outcome of reading a variable.
 */
module JipTypes {
  import opened Wrappers

  /** An 8-bit C `uint8_t`/`char`. */
  type byte = x: int | 0 <= x < 256

  /** The `eVarType` tag of a JIP variable; `Other` is any tag no case names. */
  datatype VarType =
    | Int8 | UInt8 | Int16 | UInt16 | Int32 | UInt32 | Int64 | UInt64
    | Flt | Dbl | Str | Blob | TableBlob | Other

  predicate IsInteger(t: VarType)
  {
    t.Int8? || t.UInt8? || t.Int16? || t.UInt16? || t.Int32? || t.UInt32? || t.Int64? || t.UInt64?
  }

  /** Width in bytes of a fixed-width integer type (its `sizeof`). */
  function Width(t: VarType): (w: nat)
    requires IsInteger(t)
    ensures w == 1 || w == 2 || w == 4 || w == 8
  {
    match t
    case Int8 | UInt8 => 1
    case Int16 | UInt16 => 2
    case Int32 | UInt32 => 4
    case _ => 8
  }

  function Pow2(k: nat): (p: nat)
    ensures p >= 1
  {
    if k == 0 then 1 else 2 * Pow2(k - 1)
  }

  lemma {:induction false} Pow2Add(a: nat, b: nat)
    ensures Pow2(a + b) == Pow2(a) * Pow2(b)
  {
    if a > 0 {
      Pow2Add(a - 1, b);
    }
  }

  lemma {:induction false} Pow2Monotone(a: nat, b: nat)
    requires a <= b
    ensures Pow2(a) <= Pow2(b)
    decreases b
  {
    if a < b {
      Pow2Monotone(a, b - 1);
    }
  }

  /** The four moduli the codec truncates to, as literals. */
  lemma Pow2Values()
    ensures Pow2(8) == 0x100 && Pow2(16) == 0x1_0000
    ensures Pow2(32) == 0x1_0000_0000 && Pow2(64) == 0x1_0000_0000_0000_0000
  {
    Pow2Of64();
  }

  lemma Pow2Of8()
    ensures Pow2(8) == 0x100
  {
    assert Pow2(4) == 16;
  }

  lemma Pow2Of16()
    ensures Pow2(8) == 0x100 && Pow2(16) == 0x1_0000
  {
    Pow2Of8();
    Pow2Add(8, 8);
  }

  lemma Pow2Of32()
    ensures Pow2(8) == 0x100 && Pow2(16) == 0x1_0000 && Pow2(32) == 0x1_0000_0000
  {
    Pow2Of16();
    Pow2Add(16, 16);
  }

  lemma Pow2Of31()
    ensures Pow2(31) == 0x8000_0000 && Pow2(32) == 0x1_0000_0000
  {
    Pow2Of16();
    Pow2Add(16, 15);
    Pow2Add(1, 31);
  }

  lemma Pow2Of64()
    ensures Pow2(8) == 0x100 && Pow2(16) == 0x1_0000 && Pow2(32) == 0x1_0000_0000
    ensures Pow2(64) == 0x1_0000_0000_0000_0000
  {
    Pow2Of32();
    Pow2Add(32, 32);
  }

  /**
   * The `w` bytes of the memory image of `v mod 256^w` in host byte order
   * (taken as little-endian): what `memcpy(buf, &uNVar, w)` stores.
   */
  function LittleEndian(v: nat, w: nat): (bs: seq<byte>)
    ensures |bs| == w
  {
    if w == 0 then [] else [v % 256] + LittleEndian(v / 256, w - 1)
  }

  /** The unsigned value `*((uintN_t *)p)` reads from the bytes `bs`. */
  function ValueOf(bs: seq<byte>): nat
  {
    if bs == [] then 0 else bs[0] + 256 * ValueOf(bs[1..])
  }

  lemma {:induction false} ValueOfLittleEndian(v: nat, w: nat)
    requires v < Pow2(8 * w)
    ensures ValueOf(LittleEndian(v, w)) == v
  {
    if w > 0 {
      Pow2Add(8, 8 * (w - 1));
      Pow2Of8();
      assert 8 * w == 8 + 8 * (w - 1);
      assert v / 256 < Pow2(8 * (w - 1));
      ValueOfLittleEndian(v / 256, w - 1);
      assert LittleEndian(v, w)[1..] == LittleEndian(v / 256, w - 1);
    }
  }

  /** The bytes of a `uintN_t` hold a value below 2^N. */
  lemma {:induction false} ValueOfBound(bs: seq<byte>)
    ensures ValueOf(bs) < Pow2(8 * |bs|)
  {
    if bs != [] {
      ValueOfBound(bs[1..]);
      Pow2Add(8, 8 * (|bs| - 1));
      Pow2Of8();
      assert 8 * |bs| == 8 + 8 * (|bs| - 1);
    }
  }

  /** A table row: a row without data, or its bytes (`pvData`, `u32Length`). */
  datatype Row = EmptyRow | Present(bytes: seq<byte>)

  /** What `pvData` points at: raw bytes, or a parsed table of rows. */
  datatype Payload = Raw(bytes: seq<byte>) | Rows(rows: seq<Row>)

  /** A variable after a successful read: its type and `pvData` (None when NULL). */
  datatype VarValue = VarValue(varType: VarType, data: Option<Payload>)

  /** The outcome of `eJIP_GetVar`. */
  datatype ReadResult = ReadFailed | ReadOk(value: VarValue)

  /**
   * A payload has the shape its type promises: scalars hold exactly their
   * width, a Blob at most 255 bytes (its size is a `uint8_t`), a table is a
   * table, other types hold bytes.
   */
  predicate WellTyped(v: VarValue)
  {
    match v.data
    case None => true
    case Some(p) =>
      if IsInteger(v.varType) then p.Raw? && |p.bytes| == Width(v.varType)
      else if v.varType == Flt then p.Raw? && |p.bytes| == 4
      else if v.varType == Dbl then p.Raw? && |p.bytes| == 8
      else if v.varType == Blob then p.Raw? && |p.bytes| < 256
      else if v.varType == TableBlob then p.Rows?
      else p.Raw?
  }

  /**
   * The buffer handed to the transmit call. `Owned` is freshly allocated
   * and `free`d afterwards (`freeable = 1`); `Borrowed` aliases the form
   * text (`freeable = 0`); `FloatImage` is an owned buffer of `width` bytes
   * holding the IEEE-754 image of `strtof`/`strtod` applied to `literal`.
   */
  datatype Buffer = Owned(bytes: seq<byte>) | Borrowed(text: string) | FloatImage(literal: string, width: nat)
  {
    predicate Freeable() { !Borrowed? }
  }

  /** A value ready to transmit: the buffer and the `u32Size` passed with it. */
  datatype Encoded = Encoded(buf: Buffer, size: nat)

  /** Why an update is not sent. */
  datatype EncodeError = InvalidValue | NonHexCharacter | UnsupportedType
}

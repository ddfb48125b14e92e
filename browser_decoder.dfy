/**
 * The value-decoding switch of the generic browser program: the text
 * shown for a variable after `eJIP_GetVar`, built with `sprintf` into the
 * 255-character block `acCurrentValue`. The table case grows that block
 * with `realloc` after every row.
 */
module BrowserDecoder {
  import opened Wrappers
  import opened JipTypes
  import opened CNumber
  import opened Hex
  import opened CStrings

  /** `malloc(255)` for `acCurrentValue`. */
  const VALUE_BUFFER: nat := 255

  /** The characters `%s` prints from a byte string: those before the first 0 byte. */
  function CString(bs: seq<byte>): (s: string)
    ensures |s| <= |bs|
    ensures forall i :: 0 <= i < |s| ==> s[i] != NUL && s[i] == bs[i] as char
    ensures |s| < |bs| ==> bs[|s|] == 0
  {
    if bs == [] || bs[0] == 0 then [] else [bs[0] as char] + CString(bs[1..])
  }

  /**
   * `%d`/`%u`/`%llx` of the integer the bytes hold, read through the
   * unsigned pointer type the switch names: INT8 and INT16 as unsigned,
   * INT32 as the signed reading of its 32 bits, the 64-bit types in hex.
   */
  function ScalarText(t: VarType, bs: seq<byte>): string
    requires IsInteger(t) && |bs| == Width(t)
  {
    match t
    case Int32 =>
      ValueOfBound(bs);
      SignedDecimal(ToSigned(ValueOf(bs), 32))
    case Int64 | UInt64 => LowerHex(ValueOf(bs))
    case _ => Decimal(ValueOf(bs))
  }

  const ROW_OPEN: string := "<P style=\"margin-left: 50px; \"> "

  function RowClose(): string { " }</P>\n" }

  /** The opening `sprintf` of a row with data: the markup, `%03d` of the index and ` { 0x`. */
  function PresentHead(i: nat): string
  {
    ROW_OPEN + ZeroPad3(i) + " { 0x"
  }

  /** The single `sprintf` of a row without data. */
  function EmptyRowText(i: nat): string
  {
    ROW_OPEN + ZeroPad3(i) + " { Empty Row }</P>\n"
  }

  /** The line a table row prints with its index: `%03d { 0x<hex> }` or `%03d { Empty Row }`, in paragraph markup. */
  function RowText(i: nat, row: Row): string
  {
    match row
    case Present(bs) => PresentHead(i) + BytesHex(bs) + RowClose()
    case EmptyRow => EmptyRowText(i)
  }

  /** The lines of the rows of `rows`, each with its position. */
  function RowsText(rows: seq<Row>): string
  {
    if rows == [] then [] else RowsText(rows[..|rows| - 1]) + RowText(|rows| - 1, rows[|rows| - 1])
  }

  /** Whether the `realloc` after row `failure` fails, for a row that exists. */
  predicate TableFails(rows: seq<Row>, failure: Option<nat>)
  {
    failure.Some? && failure.value < |rows|
  }

  /** How many rows are printed: all, or up to and including the row whose `realloc` fails. */
  function Shown(rows: seq<Row>, failure: Option<nat>): (n: nat)
    ensures n <= |rows|
  {
    if TableFails(rows, failure) then failure.value + 1 else |rows|
  }

  function TableText(rows: seq<Row>, failure: Option<nat>): string
  {
    if rows == [] then "Empty table\n" else RowsText(rows[..Shown(rows, failure)])
  }

  /**
   * The text shown for a variable that was read: "?" without data, the
   * per-type format otherwise. Floating-point formatting (`%f`) is the
   * caller's `showFloat`. `failure` is the first table row whose `realloc`
   * fails, if any.
   */
  function ValueText(v: VarValue, showFloat: seq<byte> -> string, failure: Option<nat>): string
    requires WellTyped(v)
  {
    match v.data
    case None => "?\n"
    case Some(p) =>
      if IsInteger(v.varType) then ScalarText(v.varType, p.bytes) + "\n"
      else if v.varType == Flt || v.varType == Dbl then showFloat(p.bytes) + "\n"
      else if v.varType == Str then CString(p.bytes) + "\n"
      else if v.varType == Blob then "0x" + BytesHex(p.bytes)
      else if v.varType == TableBlob then TableText(p.rows, failure)
      else "Unknown Type\n"
  }

  /** The text shown for the outcome of a read. */
  function Display(r: ReadResult, showFloat: seq<byte> -> string, failure: Option<nat>): string
    requires r.ReadOk? ==> WellTyped(r.value)
  {
    match r
    case ReadFailed => "Error reading variable\n"
    case ReadOk(v) => ValueText(v, showFloat, failure)
  }

  /**
   * Every `sprintf` stays inside its block: a string, float or blob text
   * and its NUL fit in 255 characters, and each table row fits in the 255
   * characters of slack the block has when the row starts.
   */
  predicate Fits(v: VarValue, showFloat: seq<byte> -> string)
    requires WellTyped(v)
  {
    match v.data
    case None => true
    case Some(p) =>
      if v.varType == Flt || v.varType == Dbl then |showFloat(p.bytes)| + 2 <= VALUE_BUFFER
      else if v.varType == Str then |CString(p.bytes)| + 2 <= VALUE_BUFFER
      else if v.varType == Blob then 2 + 2 * |p.bytes| + 1 <= VALUE_BUFFER
      else if v.varType == TableBlob then RowsFit(p.rows)
      else true
  }

  predicate RowsFit(rows: seq<Row>)
  {
    forall i :: 0 <= i < |rows| ==> |RowText(i, rows[i])| < VALUE_BUFFER
  }

  // ---- the rendering ----

  /** The `%02x` loop: the bytes in hex at `at`, NUL-terminated. */
  method WriteHex(a: array<char>, at: nat, bs: seq<byte>) returns (n: nat)
    requires at + 2 * |bs| < a.Length
    modifies a
    ensures n == 2 * |bs| == |BytesHex(bs)|
    ensures a[..at + n] == old(a[..at]) + BytesHex(bs)
    ensures a[at + n] == NUL
  {
    ghost var before := a[..at];
    a[at] := NUL;
    assert a[..at] == before;
    n := 0;
    var i := 0;
    while i < |bs|
      invariant 0 <= i <= |bs| && n == 2 * i
      invariant a[..at + n] == before + BytesHex(bs[..i])
      invariant a[at + n] == NUL
    {
      BytesHexSnoc(bs, i);
      var m := Sprintf(a, at + n, ByteHex(bs[i]));
      n := n + m;
      i := i + 1;
    }
    assert bs[..i] == bs;
    BytesHexLength(bs);
  }

  /** A row with data: its opening, the bytes in hex and its closing, one `sprintf` after another. */
  method WriteFramed(a: array<char>, at: nat, head: string, bs: seq<byte>, close: string) returns (n: nat)
    requires at + |head| + 2 * |bs| + |close| < a.Length
    modifies a
    ensures n == |head| + 2 * |bs| + |close|
    ensures a[..at + n] == old(a[..at]) + (head + BytesHex(bs) + close)
    ensures a[at + n] == NUL
  {
    var n1 := Sprintf(a, at, head);
    var n2 := WriteHex(a, at + n1, bs);
    var n3 := Sprintf(a, at + n1 + n2, close);
    n := n1 + n2 + n3;
  }

  /** One table row at `at`: the opening with the index, the bytes or "Empty Row", the closing. */
  method WriteRow(a: array<char>, at: nat, i: nat, row: Row) returns (n: nat)
    requires at + |RowText(i, row)| < a.Length
    modifies a
    ensures n == |RowText(i, row)|
    ensures a[..at + n] == old(a[..at]) + RowText(i, row)
    ensures a[at + n] == NUL
  {
    match row
    case EmptyRow =>
      n := Sprintf(a, at, EmptyRowText(i));
    case Present(bs) =>
      BytesHexLength(bs);
      assert RowText(i, row) == PresentHead(i) + BytesHex(bs) + RowClose();
      n := WriteFramed(a, at, PresentHead(i), bs, RowClose());
  }

  /**
   * One iteration of the table loop: the row is printed at `pos`, then the
   * block is resized to the new position plus 255 (`fails` when `realloc`
   * refuses, leaving the block as it was).
   */
  method PrintRow(a: array<char>, pos: nat, i: nat, row: Row, fails: bool) returns (b: array<char>, next: nat, ok: bool)
    requires pos + VALUE_BUFFER == a.Length && |RowText(i, row)| < VALUE_BUFFER
    modifies a
    ensures next == pos + |RowText(i, row)| && next < b.Length
    ensures b[..next] == old(a[..pos]) + RowText(i, row) && b[next] == NUL
    ensures ok <==> !fails
    ensures ok ==> fresh(b) && b.Length == next + VALUE_BUFFER
    ensures !ok ==> b == a
  {
    var n := WriteRow(a, pos, i, row);
    next := pos + n;
    b, ok := Realloc(a, next + VALUE_BUFFER, fails);
    if ok {
      KeptPrefix(b[..], a[..], Min(a.Length, next + VALUE_BUFFER), next);
    }
  }

  /**
   * The table case. Zero rows print "Empty table". Otherwise each row is
   * printed at the current position and the block is then resized to the
   * position plus 255; when that `realloc` fails the loop stops with the
   * text printed so far. `complete` is false exactly then.
   */
  method RenderTable(a0: array<char>, rows: seq<Row>, failure: Option<nat>) returns (a: array<char>, pos: nat, complete: bool)
    requires a0.Length == VALUE_BUFFER
    requires RowsFit(rows)
    modifies a0
    ensures pos < a.Length && a[..pos] == TableText(rows, failure) && a[pos] == NUL
    ensures complete <==> !TableFails(rows, failure)
  {
    if |rows| == 0 {
      a, complete := a0, true;
      pos := Sprintf(a, 0, "Empty table\n");
    } else {
      a, pos, complete := RenderRows(a0, rows, failure);
      TableTextShown(rows, failure);
    }
  }

  /** The row loop of the table case, for a table with rows. */
  method RenderRows(a0: array<char>, rows: seq<Row>, failure: Option<nat>) returns (a: array<char>, pos: nat, complete: bool)
    requires a0.Length == VALUE_BUFFER
    requires RowsFit(rows) && rows != []
    modifies a0
    ensures pos < a.Length && a[..pos] == RowsText(rows[..Shown(rows, failure)]) && a[pos] == NUL
    ensures complete <==> !TableFails(rows, failure)
  {
    ghost var stop := Shown(rows, failure);
    a, pos, complete := a0, 0, true;
    var i := 0;
    while i < |rows| && complete
      invariant 0 <= i <= stop
      invariant pos < a.Length && a[..pos] == RowsText(rows[..i])
      invariant complete <==> i < stop || !TableFails(rows, failure)
      invariant complete ==> pos + VALUE_BUFFER == a.Length
      invariant i > 0 ==> a[pos] == NUL
      invariant a == a0 || fresh(a)
    {
      RowsTextSnoc(rows, i);
      a, pos, complete := PrintRow(a, pos, i, rows[i], failure.Some? && failure.value == i);
      i := i + 1;
    }
  }

  /**
   * The display switch for one read: `acCurrentValue` as allocated, then
   * the text of the read outcome, NUL-terminated at `len`.
   */
  method DecodeVar(r: ReadResult, showFloat: seq<byte> -> string, failure: Option<nat>) returns (a: array<char>, len: nat, complete: bool)
    requires r.ReadOk? ==> WellTyped(r.value) && Fits(r.value, showFloat)
    ensures len < a.Length && a[..len] == Display(r, showFloat, failure) && a[len] == NUL
    ensures complete <==> !(r.ReadOk? && r.value.varType == TableBlob && r.value.data.Some?
                            && TableFails(r.value.data.value.rows, failure))
  {
    a := new char[VALUE_BUFFER](_ => NUL);
    complete := true;
    if r.ReadFailed? {
      len := Sprintf(a, 0, "Error reading variable\n");
      return;
    }
    var v := r.value;
    if v.data.None? {
      len := Sprintf(a, 0, "?\n");
      return;
    }
    var p := v.data.value;
    match v.varType
    case Int8 | UInt8 | Int16 | UInt16 | Int32 | UInt32 | Int64 | UInt64 =>
      len := RenderScalar(a, v.varType, p.bytes);
    case Flt | Dbl =>
      len := Sprintf(a, 0, showFloat(p.bytes) + "\n");
    case Str =>
      len := Sprintf(a, 0, CString(p.bytes) + "\n");
    case Blob =>
      len := RenderBlob(a, p.bytes);
    case TableBlob =>
      a, len, complete := RenderTable(a, p.rows, failure);
    case Other =>
      len := Sprintf(a, 0, "Unknown Type\n");
  }

  /** The integer cases: one `sprintf` of the value as its type's format gives it. */
  method RenderScalar(a: array<char>, t: VarType, bs: seq<byte>) returns (len: nat)
    requires IsInteger(t) && |bs| == Width(t) && a.Length == VALUE_BUFFER
    modifies a
    ensures len < a.Length && a[..len] == ScalarText(t, bs) + "\n" && a[len] == NUL
  {
    ScalarTextLength(t, bs);
    len := Sprintf(a, 0, ScalarText(t, bs) + "\n");
  }

  /** The Blob case: `0x`, then `%02x` of each of the `u8Size` bytes at the running position. */
  method RenderBlob(a: array<char>, bs: seq<byte>) returns (len: nat)
    requires 2 + 2 * |bs| < a.Length
    modifies a
    ensures len < a.Length && a[..len] == "0x" + BytesHex(bs) && a[len] == NUL
  {
    var n1 := Sprintf(a, 0, "0x");
    var n2 := WriteHex(a, n1, bs);
    len := n1 + n2;
  }

  // ---- properties of the rendering ----

  lemma TableTextShown(rows: seq<Row>, failure: Option<nat>)
    requires rows != []
    ensures TableText(rows, failure) == RowsText(rows[..Shown(rows, failure)])
    ensures TableFails(rows, failure) ==> Shown(rows, failure) == failure.value + 1
    ensures !TableFails(rows, failure) ==> Shown(rows, failure) == |rows|
  {
  }

  lemma RowsTextSnoc(rows: seq<Row>, i: nat)
    requires i < |rows|
    ensures RowsText(rows[..i + 1]) == RowsText(rows[..i]) + RowText(i, rows[i])
  {
    assert rows[..i + 1][..i] == rows[..i];
  }

  /** What `realloc` keeps of the first m characters includes the text before a NUL at `pos`. */
  lemma KeptPrefix(x: seq<char>, y: seq<char>, m: nat, pos: nat)
    requires pos < m <= |x| && m <= |y| && x[..m] == y[..m]
    ensures x[..pos] == y[..pos] && x[pos] == y[pos]
  {
    assert x[..pos] == x[..m][..pos];
    assert y[..pos] == y[..m][..pos];
    assert x[pos] == x[..m][pos];
  }

  /** The integer formats are short: at most 64 characters. */
  lemma ScalarTextLength(t: VarType, bs: seq<byte>)
    requires IsInteger(t) && |bs| == Width(t)
    ensures |ScalarText(t, bs)| <= 64
  {
    ValueOfBound(bs);
    var v := ValueOf(bs);
    if t == Int32 {
      SignedTextLength(ToSigned(v, 32));
      assert ScalarText(t, bs) == SignedDecimal(ToSigned(v, 32));
    } else if Width(t) == 8 {
      NatTextLength(v, 16, 8 * |bs|);
      assert ScalarText(t, bs) == NatText(v, 16);
    } else {
      NatTextLength(v, 10, 8 * |bs|);
      assert ScalarText(t, bs) == NatText(v, 10);
    }
  }

  lemma SignedTextLength(x: int)
    requires -(Pow2(31) as int) <= x < Pow2(31)
    ensures |SignedDecimal(x)| <= 33
  {
    assert Pow2(32) == 2 * Pow2(31);
    if x < 0 {
      NatTextLength(-x, 10, 32);
    } else {
      NatTextLength(x, 10, 32);
    }
  }
}

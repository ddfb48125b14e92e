/**
 * The C library number conversions the codec relies on: `strtoul`,
 * `strtoull`, `strtol` and `strtoll` with base 0 or 16 (glibc behaviour),
 * the conversions of their results to narrower integer types, and the
 * `printf` conversions `%d`, `%u`, `%llx` and `%03d`.
 */
module CNumber {
  import opened JipTypes
  import Hex

  /** Width of C `long`/`unsigned long` on the 32-bit targets the programs are built for. */
  const LONG_BITS: nat := 32
  /** Width of C `long long`/`unsigned long long`. */
  const LONG_LONG_BITS: nat := 64

  /** C `isspace` in the C locale. */
  predicate IsSpace(c: char)
  {
    c == ' ' || c == '\t' || c == '\n' || c == '\U{0B}' || c == '\U{0C}' || c == '\r'
  }

  /** The text after the leading white space `strtoul` skips. */
  function SkipSpace(s: string): (r: string)
    ensures |r| <= |s| && r == s[|s| - |r|..]
    ensures r == [] || !IsSpace(r[0])
  {
    if s != [] && IsSpace(s[0]) then SkipSpace(s[1..]) else s
  }

  /** The value of a digit or letter as `strtoul` reads it (letters are 10..35 in either case); 36 for anything else. */
  function DigitValue(c: char): (d: nat)
    ensures d <= 36
  {
    if '0' <= c <= '9' then c as int - '0' as int
    else if 'a' <= c <= 'z' then c as int - 'a' as int + 10
    else if 'A' <= c <= 'Z' then c as int - 'A' as int + 10
    else 36
  }

  lemma DigitValueHexDigit(n: nat)
    requires n < 16
    ensures DigitValue(Hex.HexDigit(n)) == n
  {
  }

  /** How many leading characters of `s` are digits in `base`. */
  function DigitRun(s: string, base: nat): (n: nat)
    ensures n <= |s|
    ensures forall i :: 0 <= i < n ==> DigitValue(s[i]) < base
    ensures n < |s| ==> DigitValue(s[n]) >= base
  {
    if s == [] || DigitValue(s[0]) >= base then 0 else 1 + DigitRun(s[1..], base)
  }

  /** The number the digits of `s` denote in `base`, most significant first. */
  function DigitsValue(s: string, base: nat): nat
  {
    if s == [] then 0 else DigitsValue(s[..|s| - 1], base) * base + DigitValue(s[|s| - 1])
  }

  /** Sign and magnitude of the literal at the head of `s`. */
  datatype Scan = Scan(negative: bool, magnitude: nat)

  /**
   * The literal `strto*` reads at the head of `s`: white space, an optional
   * sign, then with base 0 a `0x`/`0X` prefix (hexadecimal), a leading `0`
   * (octal) or neither (decimal); with base 16 an optional `0x`/`0X`; then
   * the longest run of digits of that base. No digits read as 0.
   */
  function ScanInteger(s: string, base: nat): Scan
    requires base == 0 || base == 16
  {
    var t := SkipSpace(s);
    var negative := t != [] && t[0] == '-';
    var u := if t != [] && (t[0] == '-' || t[0] == '+') then t[1..] else t;
    Scan(negative, Magnitude(u, base))
  }

  /** The value of the unsigned literal at the head of `u` (after any sign). */
  function Magnitude(u: string, base: nat): nat
    requires base == 0 || base == 16
  {
    var hexPrefix := |u| > 1 && u[0] == '0' && (u[1] == 'x' || u[1] == 'X');
    var b := if hexPrefix || base == 16 then 16 else if u != [] && u[0] == '0' then 8 else 10;
    var digits := if hexPrefix then u[2..] else u;
    DigitsValue(digits[..DigitRun(digits, b)], b)
  }

  /** A conversion's result and whether it set `errno` to `ERANGE`. */
  datatype Conversion = Conversion(value: int, erange: bool)

  /**
   * `strtoul` (bits = LONG_BITS) and `strtoull` (bits = LONG_LONG_BITS).
   */
  function StrToUnsigned(s: string, base: nat, bits: nat): Conversion
    requires base == 0 || base == 16
  {
    UnsignedOf(ScanInteger(s, base), bits)
  }

  /**
   * The unsigned result for a scanned literal: a magnitude beyond the type
   * saturates with ERANGE; a negative literal is negated modulo 2^bits.
   */
  function UnsignedOf(sc: Scan, bits: nat): (c: Conversion)
    ensures 0 <= c.value < Pow2(bits)
    ensures c.erange <==> sc.magnitude >= Pow2(bits)
    ensures !c.erange && !sc.negative ==> c.value == sc.magnitude
  {
    var limit := Pow2(bits);
    if sc.magnitude >= limit then Conversion(limit - 1, true)
    else if sc.negative then Conversion((limit - sc.magnitude) % limit, false)
    else Conversion(sc.magnitude, false)
  }

  /**
   * `strtol` (bits = LONG_BITS) and `strtoll` (bits = LONG_LONG_BITS).
   */
  function StrToSigned(s: string, base: nat, bits: nat): Conversion
    requires base == 0 || base == 16
    requires bits >= 1
  {
    SignedOf(ScanInteger(s, base), bits)
  }

  /**
   * The signed result for a scanned literal: a value outside the signed
   * range saturates to its nearer end with ERANGE.
   */
  function SignedOf(sc: Scan, bits: nat): (c: Conversion)
    requires bits >= 1
    ensures -(Pow2(bits - 1) as int) <= c.value < Pow2(bits - 1)
    ensures !c.erange ==> c.value == if sc.negative then -(sc.magnitude as int) else sc.magnitude
  {
    var half := Pow2(bits - 1);
    if !sc.negative && sc.magnitude >= half then Conversion(half - 1, true)
    else if sc.negative && sc.magnitude > half then Conversion(-(half as int), true)
    else Conversion(if sc.negative then -(sc.magnitude as int) else sc.magnitude, false)
  }

  /** Conversion of an integer to a `bits`-wide unsigned C type: reduction modulo 2^bits. */
  function Truncate(x: int, bits: nat): (r: nat)
    ensures r < Pow2(bits)
    ensures 0 <= x < Pow2(bits) ==> r == x
  {
    var m := Pow2(bits);
    if 0 <= x < m then ModSmall(x, m); x % m else x % m
  }

  lemma ModSmall(x: int, m: int)
    requires 0 <= x < m
    ensures x % m == x
  {
  }

  /** A `bits`-wide unsigned value read as the two's-complement signed type of that width. */
  function ToSigned(v: nat, bits: nat): (x: int)
    requires bits >= 1 && v < Pow2(bits)
    ensures -(Pow2(bits - 1) as int) <= x < Pow2(bits - 1)
    ensures Truncate(x, bits) == v
  {
    assert Pow2(bits) == 2 * Pow2(bits - 1);
    if v >= Pow2(bits - 1) then
      ModShift(v, Pow2(bits));
      v - Pow2(bits)
    else
      v
  }

  /** A value in the signed range, converted to the unsigned type and read back as signed, is itself. */
  lemma ToSignedOfTruncate(x: int, bits: nat)
    requires bits >= 1 && -(Pow2(bits - 1) as int) <= x < Pow2(bits - 1)
    ensures ToSigned(Truncate(x, bits), bits) == x
  {
    var m := Pow2(bits);
    assert m == 2 * Pow2(bits - 1);
    if x < 0 {
      ModShift(x + m, m);
      assert Truncate(x, bits) == x + m;
    }
  }

  lemma ModShift(v: int, m: int)
    requires 0 <= v < m
    ensures (v - m) % m == v
  {
  }

  /** Euclidean division by a base, in the form the digit lemmas use. */
  lemma DivMod(v: nat, base: nat)
    requires 2 <= base
    ensures v == (v / base) * base + v % base
    ensures 0 <= v % base < base
    ensures v >= base ==> 1 <= v / base < v && v / base <= v / 2
  {
  }

  /** `v` written in `base` with lowercase digits, no sign and no leading zeros. */
  function NatText(v: nat, base: nat): (s: string)
    requires 2 <= base <= 16
    ensures |s| >= 1
    decreases v
  {
    if v < base then [Hex.HexDigit(v)] else NatText(v / base, base) + [Hex.HexDigit(v % base)]
  }

  /** `%u` */
  function Decimal(v: nat): string { NatText(v, 10) }

  /** `%d` */
  function SignedDecimal(x: int): string
  {
    if x < 0 then "-" + Decimal(-x) else Decimal(x)
  }

  /** `%llx` */
  function LowerHex(v: nat): string { NatText(v, 16) }

  /** `%03d` of a non-negative value: its decimal digits, zero-padded on the left to three. */
  function ZeroPad3(n: nat): (s: string)
    ensures |s| == if |Decimal(n)| < 3 then 3 else |Decimal(n)|
  {
    var d := Decimal(n);
    if |d| == 1 then "00" + d else if |d| == 2 then "0" + d else d
  }

  // ---- properties of the formats ----

  lemma {:induction false} NatTextDigits(v: nat, base: nat)
    requires 2 <= base <= 16
    ensures forall i :: 0 <= i < |NatText(v, base)| ==> DigitValue(NatText(v, base)[i]) < base
    ensures v > 0 ==> NatText(v, base)[0] != '0'
    decreases v
  {
    if v >= base {
      DivMod(v, base);
      var q, r := v / base, v % base;
      NatTextDigits(q, base);
      DigitValueHexDigit(r);
      var s := NatText(q, base);
      assert NatText(v, base) == s + [Hex.HexDigit(r)];
      assert NatText(v, base)[0] == s[0];
    } else {
      DigitValueHexDigit(v);
    }
  }

  /** Reading back what `NatText` writes gives back the value. */
  lemma {:induction false} DigitsValueNatText(v: nat, base: nat)
    requires 2 <= base <= 16
    ensures DigitsValue(NatText(v, base), base) == v
    decreases v
  {
    var s := NatText(v, base);
    if v < base {
      DigitValueHexDigit(v);
      assert s[..0] == [];
    } else {
      DivMod(v, base);
      var q, r := v / base, v % base;
      DigitsValueNatText(q, base);
      DigitValueHexDigit(r);
      assert s == NatText(q, base) + [Hex.HexDigit(r)];
      assert s[..|s| - 1] == NatText(q, base);
      assert DigitsValue(s, base) == q * base + r;
    }
  }

  lemma {:induction false} DigitRunAll(s: string, base: nat)
    requires forall i :: 0 <= i < |s| ==> DigitValue(s[i]) < base
    ensures DigitRun(s, base) == |s|
  {
    if s != [] {
      DigitRunAll(s[1..], base);
    }
  }

  lemma {:induction false} DigitsValueLeadingZero(s: string, base: nat)
    ensures DigitsValue("0" + s, base) == DigitsValue(s, base)
  {
    if s != [] {
      assert ("0" + s)[..|"0" + s| - 1] == "0" + s[..|s| - 1];
      DigitsValueLeadingZero(s[..|s| - 1], base);
    } else {
      assert ("0" + s)[..0] == [];
    }
  }

  /** `%03d` pads with zeros only: its digits still read as the row number. */
  lemma ZeroPad3Value(n: nat)
    ensures DigitsValue(ZeroPad3(n), 10) == n
    ensures |ZeroPad3(n)| >= 3
  {
    var d := Decimal(n);
    DigitsValueNatText(n, 10);
    if |d| == 1 {
      DigitsValueLeadingZero(d, 10);
      DigitsValueLeadingZero("0" + d, 10);
      assert "00" + d == "0" + ("0" + d);
    } else if |d| == 2 {
      DigitsValueLeadingZero(d, 10);
    }
  }

  /** A value below 2^k needs at most k digits in any base. */
  lemma {:induction false} NatTextLength(v: nat, base: nat, k: nat)
    requires 2 <= base <= 16 && k >= 1 && v < Pow2(k)
    ensures |NatText(v, base)| <= k
    decreases v
  {
    if v >= base {
      DivMod(v, base);
      var q := v / base;
      assert k >= 2;
      assert q < Pow2(k - 1);
      NatTextLength(q, base, k - 1);
    }
  }

  lemma SkipSpaceNone(s: string)
    requires s != [] && !IsSpace(s[0])
    ensures SkipSpace(s) == s
  {
  }

  // ---- parsing what the formats print ----

  /** `strtoul(Decimal(v), NULL, 0)` is v, without ERANGE. */
  lemma ParseDecimal(v: nat, bits: nat)
    requires v < Pow2(bits)
    ensures StrToUnsigned(Decimal(v), 0, bits) == Conversion(v, false)
  {
    ScanDecimal(v);
  }

  lemma ScanDecimal(v: nat)
    ensures ScanInteger(Decimal(v), 0) == Scan(false, v)
  {
    MagnitudeDecimal(v);
    SkipSpaceNone(Decimal(v));
  }

  lemma MagnitudeDecimal(v: nat)
    ensures Magnitude(Decimal(v), 0) == v
  {
    var d := Decimal(v);
    NatTextDigits(v, 10);
    DigitsValueNatText(v, 10);
    DigitRunAll(d, 10);
    assert d[..|d|] == d;
    if v == 0 {
      assert d == "0";
      assert DigitRun(d, 8) == 1;
    }
  }

  /** `strtoul(SignedDecimal(x), NULL, 0)` is x modulo 2^bits for every x whose magnitude fits. */
  lemma ParseSignedDecimal(x: int, bits: nat)
    requires -(Pow2(bits) as int) < x < Pow2(bits)
    ensures StrToUnsigned(SignedDecimal(x), 0, bits) == Conversion(Truncate(x, bits), false)
  {
    if x < 0 {
      ParseNegativeDecimal(x, bits);
    } else {
      ParseDecimal(x, bits);
    }
  }

  lemma ParseNegativeDecimal(x: int, bits: nat)
    requires -(Pow2(bits) as int) < x < 0
    ensures StrToUnsigned(SignedDecimal(x), 0, bits) == Conversion(Truncate(x, bits), false)
  {
    ScanNegativeDecimal(-x);
    UnsignedOfNegative(-x, bits);
  }

  /** A negative literal whose magnitude fits is negated modulo 2^bits. */
  lemma UnsignedOfNegative(v: nat, bits: nat)
    requires 0 < v < Pow2(bits)
    ensures UnsignedOf(Scan(true, v), bits) == Conversion(Truncate(-(v as int), bits), false)
  {
    NegatedModulo(-(v as int), Pow2(bits));
  }

  lemma ScanNegativeDecimal(v: nat)
    requires v > 0
    ensures ScanInteger(SignedDecimal(-(v as int)), 0) == Scan(true, v)
  {
    var s := SignedDecimal(-(v as int));
    MagnitudeDecimal(v);
    SkipSpaceNone(s);
    assert s[1..] == Decimal(v);
  }

  /** Negating a magnitude modulo m, as `strtoul` does, is reducing the negative value modulo m. */
  lemma NegatedModulo(x: int, m: int)
    requires -m < x < 0
    ensures (m - (-x)) % m == x % m
  {
    ModSmall(m + x, m);
    ModShift(m + x, m);
  }

  /** `strtoull("0x" + LowerHex(v), NULL, 0)` is v, without ERANGE. */
  lemma ParseHex(v: nat, bits: nat)
    requires v < Pow2(bits)
    ensures StrToUnsigned("0x" + LowerHex(v), 0, bits) == Conversion(v, false)
  {
    var h := LowerHex(v);
    var s := "0x" + h;
    NatTextDigits(v, 16);
    DigitsValueNatText(v, 16);
    DigitRunAll(h, 16);
    SkipSpaceNone(s);
    assert s[2..] == h;
    assert h[..|h|] == h;
    assert ScanInteger(s, 0) == Scan(false, v);
  }
}

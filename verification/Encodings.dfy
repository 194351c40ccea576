/** The encodings the binary format uses for numbers and text: the 64-bit interchange format of
  IEEE 754 (section 3.4 of IEEE 754-2019) and UTF-8 (section 3 of RFC 3629). */
module Encodings {
  import opened Options
  import opened Values

  // ----- Doubles -------------------------------------------------------------------------------

  const HIDDEN: nat := 0x10_0000_0000_0000  // 2^52
  const SIGN: nat := 0x8000_0000_0000_0000  // 2^63

  function Pow2(e: int): real
    decreases if e < 0 then -e else e
  {
    if e == 0 then 1.0 else if e > 0 then 2.0 * Pow2(e - 1) else Pow2(e + 1) / 2.0
  }

  lemma {:induction false} Pow2Positive(e: int)
    ensures Pow2(e) > 0.0
    decreases if e < 0 then -e else e
  {
    if e > 0 {
      Pow2Positive(e - 1);
    } else if e < 0 {
      Pow2Positive(e + 1);
    }
  }

  lemma Pow2Next(e: int)
    ensures Pow2(e) == 2.0 * Pow2(e - 1)
  {}

  function Scaled(m: int, e: int): real { m as real * Pow2(e) }

  lemma Doubled(m: int, e: int)
    ensures Scaled(2 * m, e - 1) == Scaled(m, e)
  {
    Pow2Next(e);
    var p := Pow2(e - 1);
    assert (2 * m) as real == 2.0 * m as real;
    assert (2.0 * m as real) * p == m as real * (2.0 * p);
  }

  /** A 53-bit significand and an exponent in range. */
  predicate InFormat(m: int, e: int) { -2 * HIDDEN < m < 2 * HIDDEN && -1074 <= e <= 971 }

  /** The values a 64-bit float can have. */
  ghost predicate IsDouble(f: Float) {
    f.Finite? ==> exists m: int, e: int :: InFormat(m, e) && f.r == Scaled(m, e)
  }

  /** The magnitude of a finite bit pattern without its sign. */
  function Magnitude(field: nat, fraction: nat): real {
    if field == 0 then Scaled(fraction, -1074) else Scaled(HIDDEN + fraction, field - 1075)
  }

  /** The float of a bit pattern: sign, 11 bits of exponent, 52 bits of fraction. */
  function FloatOfBits(sign: bool, field: nat, fraction: nat): Float {
    if field == 2047 then
      if fraction != 0 then NaN else if sign then NegInfinity else PosInfinity
    else Finite(if sign then 0.0 - Magnitude(field, fraction) else Magnitude(field, fraction))
  }

  datatype Pattern = Pattern(sign: bool, field: nat, fraction: nat)

  predicate IsPattern(p: Pattern) { p.field < 2048 && p.fraction < HIDDEN }

  function ValueOf(p: Pattern): Float { FloatOfBits(p.sign, p.field, p.fraction) }

  /** A positive significand has a pattern: it is shifted up until it shows its hidden bit or the
      exponent is the least. */
  lemma {:induction false} MagnitudeExists(m: int, e: int) returns (field: nat, fraction: nat)
    requires 0 <= m && InFormat(m, e)
    ensures field < 2047 && fraction < HIDDEN && Magnitude(field, fraction) == Scaled(m, e)
    decreases e + 1074
  {
    if m >= HIDDEN {
      field, fraction := e + 1075, m - HIDDEN;
    } else if e == -1074 {
      field, fraction := 0, m;
    } else {
      Doubled(m, e);
      field, fraction := MagnitudeExists(2 * m, e - 1);
    }
  }

  /** Every double has a bit pattern. */
  lemma PatternExists(f: Float) returns (p: Pattern)
    requires IsDouble(f)
    ensures IsPattern(p) && ValueOf(p) == f
  {
    match f
    case NaN => p := Pattern(false, 2047, 1);
    case PosInfinity => p := Pattern(false, 2047, 0);
    case NegInfinity => p := Pattern(true, 2047, 0);
    case Finite(r) =>
      var m: int, e: int :| InFormat(m, e) && r == Scaled(m, e);
      var field, fraction := MagnitudeExists(if m < 0 then -m else m, e);
      p := Pattern(m < 0, field, fraction);
      NegatedScale(m, e);
  }

  /** Every bit pattern is a double. */
  lemma PatternIsDouble(p: Pattern)
    requires IsPattern(p)
    ensures IsDouble(ValueOf(p))
  {
    hide Scaled;
    if p.field < 2047 {
      var m: int := if p.field == 0 then p.fraction else HIDDEN + p.fraction;
      var e: int := if p.field == 0 then -1074 else p.field - 1075;
      NegatedScale(m, e);
      assert InFormat(m, e) && ValueOf(p).r == Scaled(if p.sign then -m else m, e);
    }
  }

  // ----- Patterns as bytes ---------------------------------------------------------------------

  /** The `count` low bytes of a number, the lowest first. */
  function LittleEndian(n: nat, count: nat): (bytes: seq<byte>)
    ensures |bytes| == count
  {
    if count == 0 then [] else [n % 0x100] + LittleEndian(n / 0x100, count - 1)
  }

  function FromLittleEndian(bytes: seq<byte>): nat {
    if bytes == [] then 0 else bytes[0] as nat + 0x100 * FromLittleEndian(bytes[1..])
  }

  lemma {:induction false} FromLittleEndianBack(n: nat, count: nat, bound: nat)
    requires n < bound && bound == Exp256(count)
    ensures FromLittleEndian(LittleEndian(n, count)) == n
  {
    if count > 0 {
      FromLittleEndianBack(n / 0x100, count - 1, Exp256(count - 1));
      assert n == n % 0x100 + 0x100 * (n / 0x100);
    }
  }

  function Exp256(count: nat): nat { if count == 0 then 1 else 0x100 * Exp256(count - 1) }

  function BitsOf(p: Pattern): nat { (if p.sign then SIGN else 0) + p.field * HIDDEN + p.fraction }

  function PatternOf(bits: nat): Pattern {
    var rest := bits % SIGN;
    Pattern(bits / SIGN % 2 == 1, rest / HIDDEN, rest % HIDDEN)
  }

  lemma PatternOfBits(p: Pattern)
    requires IsPattern(p)
    ensures PatternOf(BitsOf(p)) == p && BitsOf(p) < 2 * SIGN
  {
    var low := p.field * HIDDEN + p.fraction;
    assert low / HIDDEN == p.field && low % HIDDEN == p.fraction && low < SIGN;
  }

  function DoubleOf(bytes: seq<byte>): Float { ValueOf(PatternOf(FromLittleEndian(bytes))) }

  /** Some pattern of a double, in eight bytes; zeros for what is no double. */
  ghost function DoubleBytes(f: Float): (bytes: seq<byte>)
    ensures |bytes| == 8
    ensures IsDouble(f) ==> DoubleOf(bytes) == f
  {
    if exists p :: IsPattern(p) && ValueOf(p) == f then
      var p :| IsPattern(p) && ValueOf(p) == f;
      BytesRead(p);
      LittleEndian(BitsOf(p), 8)
    else
      DoubleHasPattern(f);
      LittleEndian(0, 8)
  }

  lemma DoubleHasPattern(f: Float)
    ensures IsDouble(f) ==> exists p :: IsPattern(p) && ValueOf(p) == f
  {
    if IsDouble(f) {
      var p := PatternExists(f);
    }
  }

  lemma BytesRead(p: Pattern)
    requires IsPattern(p)
    ensures DoubleOf(LittleEndian(BitsOf(p), 8)) == ValueOf(p)
  {
    PatternOfBits(p);
    assert Exp256(2) == 0x1_0000;
    assert Exp256(4) == 0x1_0000_0000;
    assert Exp256(6) == 0x1_0000_0000_0000;
    assert Exp256(8) == 2 * SIGN;
    FromLittleEndianBack(BitsOf(p), 8, 2 * SIGN);
  }

  // ----- Integers as doubles -------------------------------------------------------------------

  /** The spacing of doubles around an integer is a power of two. */
  lemma SpacingIsPower(m: nat) returns (e: nat)
    ensures e <= 10 && Pow2(e) == Spacing(m) as real
  {
    assert Pow2(1) == 2.0 && Pow2(2) == 4.0;
    assert Pow2(3) == 8.0 && Pow2(4) == 16.0;
    assert Pow2(5) == 32.0 && Pow2(6) == 64.0;
    assert Pow2(7) == 128.0 && Pow2(8) == 256.0;
    assert Pow2(9) == 512.0 && Pow2(10) == 1024.0;
    e := if m < EXACT then 0 else if m < 2 * EXACT then 1 else if m < 4 * EXACT then 2 else if m < 8 * EXACT then 3
         else if m < 16 * EXACT then 4 else if m < 32 * EXACT then 5 else if m < 64 * EXACT then 6
         else if m < 128 * EXACT then 7 else if m < 256 * EXACT then 8 else if m < 512 * EXACT then 9 else 10;
  }

  /** Casting a 64-bit integer gives a double. */
  lemma CastIsDouble(i: int64)
    ensures IsDouble(AsDouble(i))
  {
    hide Scaled, RoundTo, Spacing, InFormat;
    var value: int := i;
    var m, e := RoundedInFormat(if value >= 0 then value else -value);
    NegatedScale(m, e);
    if value < 0 {
      assert AsDouble(i).r == Scaled(-m, e);
    }
  }

  lemma NegatedScale(m: int, e: int)
    ensures Scaled(-m, e) == 0.0 - Scaled(m, e)
    ensures InFormat(m, e) ==> InFormat(-m, e)
  {}

  lemma RoundedInFormat(n: nat) returns (m: int, e: int)
    requires n <= 1024 * EXACT
    ensures InFormat(m, e) && RoundTo(n, Spacing(n)) as real == Scaled(m, e)
  {
    hide RoundedUnits, Spacing;
    var unit := Spacing(n);
    var units := RoundedUnits(n, unit);
    var x := SpacingIsPower(n);
    RoundInBand(n);
    UnitsInBand(units, unit);
    RealProduct(units, unit);
    if units == EXACT {
      m, e := HIDDEN, x + 1;
      Doubled(HIDDEN, x + 1);
    } else {
      m, e := units, x;
    }
  }

  lemma RealProduct(a: int, b: int)
    ensures (a * b) as real == a as real * b as real
  {}

  lemma UnitsInBand(units: nat, unit: nat)
    requires unit > 0 && units * unit <= unit * EXACT
    ensures units <= EXACT
  {
    if units > EXACT {
      MulMonotone(EXACT + 1, units, unit);
    }
  }

  // ----- UTF-8 ---------------------------------------------------------------------------------

  /** One to four bytes, by the size of the code point. */
  function Utf8Char(c: char): (bytes: seq<byte>)
    ensures 1 <= |bytes| <= 4
  {
    var x := c as int;
    if x < 0x80 then [x]
    else if x < 0x800 then [0xC0 + x / 0x40, 0x80 + x % 0x40]
    else if x < 0x1_0000 then [0xE0 + x / 0x1000, 0x80 + x / 0x40 % 0x40, 0x80 + x % 0x40]
    else [0xF0 + x / 0x4_0000, 0x80 + x / 0x1000 % 0x40, 0x80 + x / 0x40 % 0x40, 0x80 + x % 0x40]
  }

  function Utf8(s: string): seq<byte> {
    if s == [] then [] else Utf8Char(s[0]) + Utf8(s[1..])
  }

  /** How many bytes a leading byte announces. */
  function Announced(lead: byte): nat {
    if lead < 0xC0 then 1 else if lead < 0xE0 then 2 else if lead < 0xF0 then 3 else 4
  }

  function CodePoint(bytes: seq<byte>): int
    requires bytes != [] && |bytes| >= Announced(bytes[0])
  {
    var a := bytes[0] as int;
    match Announced(bytes[0])
    case 1 => a
    case 2 => (a - 0xC0) * 0x40 + bytes[1] as int - 0x80
    case 3 => ((a - 0xE0) * 0x40 + bytes[1] as int - 0x80) * 0x40 + bytes[2] as int - 0x80
    case _ =>
      (((a - 0xF0) * 0x40 + bytes[1] as int - 0x80) * 0x40 + bytes[2] as int - 0x80) * 0x40 + bytes[3] as int - 0x80
  }

  /** Text read back; what is no code point is replaced. */
  function FromUtf8(bytes: seq<byte>): string
    decreases |bytes|
  {
    if bytes == [] then []
    else if |bytes| < Announced(bytes[0]) then ['\U{FFFD}']
    else
      var x := CodePoint(bytes);
      [if 0 <= x < 0xD800 || 0xE000 <= x < 0x11_0000 then x as char else '\U{FFFD}'] + FromUtf8(bytes[Announced(bytes[0])..])
  }

  lemma CharReads(c: char, rest: seq<byte>)
    ensures var bytes := Utf8Char(c) + rest;
      && Announced(bytes[0]) == |Utf8Char(c)|
      && CodePoint(bytes) == c as int
      && bytes[Announced(bytes[0])..] == rest
  {
    var x := c as int;
    assert 0 <= x < 0x11_0000;
    assert x / 0x1000 / 0x40 == x / 0x4_0000 && x / 0x40 / 0x40 == x / 0x1000;
    assert x == (x / 0x40) * 0x40 + x % 0x40;
    assert x / 0x40 == (x / 0x1000) * 0x40 + x / 0x40 % 0x40;
    assert x / 0x1000 == (x / 0x4_0000) * 0x40 + x / 0x1000 % 0x40;
  }

  /** Text survives. */
  lemma {:induction false} FromUtf8Utf8(s: string)
    ensures FromUtf8(Utf8(s)) == s
  {
    if s != [] {
      CharReads(s[0], Utf8(s[1..]));
      FromUtf8Utf8(s[1..]);
      assert s == [s[0]] + s[1..];
    }
  }
}

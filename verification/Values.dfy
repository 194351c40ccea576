/** Database values and their cross-type order (crates/core/src/value.rs).

  A 64-bit float is an extended real or NaN; the two signed zeros, which the order and equality
  never tell apart, are one value. Integers turn into floats by round-to-nearest, ties to even. */
module Values {
  type int32 = x: int | -0x8000_0000 <= x < 0x8000_0000
  type int64 = x: int | -0x8000_0000_0000_0000 <= x < 0x8000_0000_0000_0000
  type byte = x: int | 0 <= x < 0x100

  datatype Float = NegInfinity | Finite(r: real) | PosInfinity | NaN

  datatype Value =
    | Null
    | Boolean(b: bool)
    | Int32(i: int32)
    | Int64(l: int64)
    | Float64(f: Float)
    | String(s: string)
    | DateTime(t: int64)
    | Bytes(bytes: seq<byte>)
    | Jsonb(json: seq<byte>)

  datatype Ordering = Less | Equal | Greater {
    function Reverse(): Ordering {
      match this
      case Less => Greater
      case Equal => Equal
      case Greater => Less
    }
  }

  // ----- Integers as floats --------------------------------------------------------------------

  const EXACT: int := 0x20_0000_0000_0000  // 2^53

  /** How many units `m` rounds to: the nearest count, ties to an even one. */
  function RoundedUnits(m: nat, unit: nat): nat
    requires unit > 0
  {
    var quotient, rest := m / unit, m % unit;
    if 2 * rest > unit || (2 * rest == unit && quotient % 2 == 1) then quotient + 1 else quotient
  }

  function RoundTo(m: nat, unit: nat): nat
    requires unit > 0
  {
    RoundedUnits(m, unit) * unit
  }

  /** The spacing of doubles around `m`: the significand holds 53 bits. */
  function Spacing(m: nat): (unit: nat)
    ensures unit > 0
  {
    if m < EXACT then 1
    else if m < 2 * EXACT then 2
    else if m < 4 * EXACT then 4
    else if m < 8 * EXACT then 8
    else if m < 16 * EXACT then 16
    else if m < 32 * EXACT then 32
    else if m < 64 * EXACT then 64
    else if m < 128 * EXACT then 128
    else if m < 256 * EXACT then 256
    else if m < 512 * EXACT then 512
    else 1024
  }

  /** The value of an `i64 as f64` cast. */
  function ToDouble(i: int): int {
    if i >= 0 then RoundTo(i, Spacing(i)) else 0 - RoundTo(-i, Spacing(-i))
  }

  lemma MulMonotone(a: int, b: int, unit: int)
    requires unit > 0
    ensures a <= b ==> a * unit <= b * unit
  {
  }

  lemma DivModMonotone(m: nat, n: nat, unit: nat)
    requires unit > 0 && m <= n
    ensures m / unit <= n / unit
    ensures m / unit == n / unit ==> m % unit <= n % unit
  {
    assert m == (m / unit) * unit + m % unit && n == (n / unit) * unit + n % unit;
    MulMonotone(n / unit + 1, m / unit, unit);
  }

  lemma RoundToMonotone(m: nat, n: nat, unit: nat)
    requires unit > 0 && m <= n
    ensures RoundTo(m, unit) <= RoundTo(n, unit)
  {
    DivModMonotone(m, n, unit);
    MulMonotone(RoundedUnits(m, unit), RoundedUnits(n, unit), unit);
  }

  /** A multiple of the spacing rounds to itself, so rounding never leaves [lo, hi] when both ends
      are multiples. */
  lemma RoundToWithin(m: nat, unit: nat, lo: nat, hi: nat)
    requires unit > 0 && lo <= m <= hi && lo % unit == 0 && hi % unit == 0
    ensures lo <= RoundTo(m, unit) <= hi
  {
    RoundToMultiple(lo, unit);
    RoundToMultiple(hi, unit);
    RoundToMonotone(lo, m, unit);
    RoundToMonotone(m, hi, unit);
  }

  lemma RoundToMultiple(m: nat, unit: nat)
    requires unit > 0 && m % unit == 0
    ensures RoundTo(m, unit) == m
  {
    assert m == (m / unit) * unit + m % unit;
  }

  /** Rounding at its own spacing keeps `m` between the ends of its band. */
  lemma RoundInBand(m: nat)
    requires m <= 1024 * EXACT
    ensures RoundTo(m, Spacing(m)) <= Spacing(m) * EXACT
    ensures Spacing(m) > 1 ==> Spacing(m) * (EXACT / 2) <= RoundTo(m, Spacing(m))
    ensures m <= EXACT ==> RoundTo(m, Spacing(m)) == m
  {
    var unit := Spacing(m);
    MultipleModulo(EXACT, unit);
    MultipleModulo(EXACT / 2, unit);
    RoundToWithin(m, unit, if unit > 1 then unit * (EXACT / 2) else 0, unit * EXACT);
    if m <= EXACT {
      assert m % unit == 0;
      RoundToMultiple(m, unit);
    }
  }

  lemma MultipleModulo(k: nat, unit: nat)
    requires unit > 0
    ensures (unit * k) % unit == 0
  {
    var n, quotient := unit * k, (unit * k) / unit;
    var rest, gap := n % unit, k - quotient;
    assert n == unit * quotient + rest && 0 <= rest < unit;
    Distributes(unit, k, quotient);
    GapIsZero(unit, gap, rest);
  }

  lemma Distributes(unit: int, k: int, quotient: int)
    ensures unit * k - unit * quotient == unit * (k - quotient)
  {}

  lemma GapIsZero(unit: int, gap: int, rest: int)
    requires unit > 0 && 0 <= rest < unit && unit * gap == rest
    ensures rest == 0
  {
    if gap >= 1 {
      MulMonotone(1, gap, unit);
    } else if gap <= -1 {
      MulMonotone(gap, -1, unit);
    }
  }

  lemma RoundMonotone(m: nat, n: nat)
    requires m <= n <= 1024 * EXACT
    ensures RoundTo(m, Spacing(m)) <= RoundTo(n, Spacing(n))
  {
    RoundInBand(m);
    RoundInBand(n);
    if Spacing(m) == Spacing(n) {
      RoundToMonotone(m, n, Spacing(m));
    } else {
      assert 2 * Spacing(m) <= Spacing(n);
      assert Spacing(m) * EXACT <= Spacing(n) * (EXACT / 2);
    }
  }

  /** The cast to a float never reorders integers, and is exact up to 2^53. */
  lemma ToDoubleMonotone(i: int, j: int)
    requires -1024 * EXACT <= i <= j <= 1024 * EXACT
    ensures ToDouble(i) <= ToDouble(j)
  {
    if i >= 0 {
      RoundMonotone(i, j);
    } else if j < 0 {
      RoundMonotone(-j, -i);
    }
  }

  lemma ToDoubleExact(i: int)
    requires -EXACT <= i <= EXACT
    ensures ToDouble(i) == i
  {
    RoundInBand(if i >= 0 then i else -i);
  }

  // ----- The order -----------------------------------------------------------------------------

  function CompareInts(a: int, b: int): Ordering {
    if a < b then Less else if a == b then Equal else Greater
  }

  /** `partial_cmp` on floats, which has no answer when either side is NaN. */
  function CompareFloats(a: Float, b: Float): Ordering
    requires a != NaN && b != NaN
  {
    if a == b then Equal
    else match (a, b)
      case (NegInfinity, _) => Less
      case (PosInfinity, _) => Greater
      case (_, NegInfinity) => Greater
      case (_, PosInfinity) => Less
      case (Finite(x), Finite(y)) => if x < y then Less else Greater
  }

  /** Lexicographic order of byte strings, or of the code points of character strings. */
  function CompareCodes(a: seq<int>, b: seq<int>): Ordering {
    if a == [] && b == [] then Equal
    else if a == [] then Less
    else if b == [] then Greater
    else if a[0] != b[0] then CompareInts(a[0], b[0])
    else CompareCodes(a[1..], b[1..])
  }

  function Codes(s: string): (codes: seq<int>)
    ensures |codes| == |s|
    ensures forall i :: 0 <= i < |s| ==> codes[i] == s[i] as int
  {
    seq(|s|, i requires 0 <= i < |s| => s[i] as int)
  }

  function TypeOrder(v: Value): int {
    match v
    case Null => 0
    case Boolean(_) => 1
    case Int32(_) => 2
    case Int64(_) => 3
    case Float64(_) => 4
    case String(_) => 5
    case DateTime(_) => 6
    case Bytes(_) => 7
    case Jsonb(_) => 8
  }

  function AsDouble(i: int64): Float {
    Finite(ToDouble(i) as real)
  }

  function Compare(x: Value, y: Value): Ordering {
    match (x, y)
    case (Null, Null) => Equal
    case (Null, _) => Less
    case (_, Null) => Greater
    case (Boolean(a), Boolean(b)) => if a == b then Equal else if b then Less else Greater
    case (Int32(a), Int32(b)) => CompareInts(a, b)
    case (Int64(a), Int64(b)) => CompareInts(a, b)
    case (Int32(a), Int64(b)) => CompareInts(a, b)
    case (Int64(a), Int32(b)) => CompareInts(a, b)
    case (Int32(a), Float64(b)) => if b == NaN then Less else CompareFloats(Finite(a as real), b)
    case (Float64(a), Int32(b)) => if a == NaN then Greater else CompareFloats(a, Finite(b as real))
    case (Int64(a), Float64(b)) => if b == NaN then Less else CompareFloats(AsDouble(a), b)
    case (Float64(a), Int64(b)) => if a == NaN then Greater else CompareFloats(a, AsDouble(b))
    case (Float64(a), Float64(b)) =>
      if a == NaN && b == NaN then Equal
      else if a == NaN then Greater
      else if b == NaN then Less
      else CompareFloats(a, b)
    case (String(a), String(b)) => CompareCodes(Codes(a), Codes(b))
    case (DateTime(a), DateTime(b)) => CompareInts(a, b)
    case (Bytes(a), Bytes(b)) => CompareCodes(a, b)
    case (Jsonb(a), Jsonb(b)) => CompareCodes(a, b)
    case (_, _) => CompareInts(TypeOrder(x), TypeOrder(y))
  }

  predicate AtMost(x: Value, y: Value) { Compare(x, y) != Greater }

  /** Equality for joins and filters: integers of either width are the same number. */
  predicate SqlEq(x: Value, y: Value) {
    match (x, y)
    case (Int32(a), Int64(b)) => a == b
    case (Int64(a), Int32(b)) => a == b
    case (_, _) => x == y
  }

  // ----- Laws of the order ---------------------------------------------------------------------

  lemma {:induction false} CodesMirror(a: seq<int>, b: seq<int>)
    ensures CompareCodes(b, a) == CompareCodes(a, b).Reverse()
    ensures CompareCodes(a, b) == Equal <==> a == b
  {
    if a != [] && b != [] && a[0] == b[0] {
      CodesMirror(a[1..], b[1..]);
      assert a == [a[0]] + a[1..] && b == [b[0]] + b[1..];
    }
  }

  lemma {:induction false} CodesTransitive(a: seq<int>, b: seq<int>, c: seq<int>)
    requires CompareCodes(a, b) != Greater && CompareCodes(b, c) != Greater
    ensures CompareCodes(a, c) != Greater
  {
    if a != [] && b != [] && c != [] && a[0] == b[0] && b[0] == c[0] {
      CodesTransitive(a[1..], b[1..], c[1..]);
    }
  }

  /** Swapping the arguments mirrors the answer; in particular the order is total. */
  lemma CompareMirror(x: Value, y: Value)
    ensures Compare(y, x) == Compare(x, y).Reverse()
    ensures AtMost(x, y) || AtMost(y, x)
    ensures x == y ==> Compare(x, y) == Equal
  {
    match (x, y) {
      case (String(a), String(b)) => CodesMirror(Codes(a), Codes(b));
      case (Bytes(a), Bytes(b)) => CodesMirror(a, b);
      case (Jsonb(a), Jsonb(b)) => CodesMirror(a, b);
      case _ =>
    }
  }

  predicate SameVariant(x: Value, y: Value) { TypeOrder(x) == TypeOrder(y) }

  /** Within one type, comparing equal is being equal. */
  lemma CompareEqualSameVariant(x: Value, y: Value)
    requires SameVariant(x, y)
    ensures Compare(x, y) == Equal <==> x == y
  {
    match (x, y) {
      case (String(a), String(b)) =>
        CodesMirror(Codes(a), Codes(b));
        if Codes(a) == Codes(b) {
          forall i | 0 <= i < |a|
            ensures a[i] == b[i]
          {
            assert Codes(a)[i] == Codes(b)[i];
          }
          assert |Codes(a)| == |a| && |Codes(b)| == |b|;
          assert a == b;
        }
      case (Bytes(a), Bytes(b)) => CodesMirror(a, b);
      case (Jsonb(a), Jsonb(b)) => CodesMirror(a, b);
      case _ =>
    }
  }

  // ----- What the order is ---------------------------------------------------------------------

  /** The first position at which `a` and `b` differ, or the end of `a`, decides for `a`. */
  predicate DecidesAt(a: seq<int>, b: seq<int>, k: nat) {
    && k <= |a| && k < |b| && a[..k] == b[..k]
    && (k == |a| || a[k] < b[k])
  }

  ghost predicate LexicallyBefore(a: seq<int>, b: seq<int>) { exists k: nat :: DecidesAt(a, b, k) }

  lemma {:induction false} CodesInOrder(a: seq<int>, b: seq<int>)
    ensures CompareCodes(a, b) == Less <==> LexicallyBefore(a, b)
  {
    if a == [] {
      if b != [] {
        assert DecidesAt(a, b, 0);
      }
    } else if b != [] {
      if a[0] == b[0] {
        CodesInOrder(a[1..], b[1..]);
        OneFurther(a, b);
      } else if a[0] < b[0] {
        assert DecidesAt(a, b, 0);
      } else {
        forall k: nat ensures !DecidesAt(a, b, k) {
          if k > 0 && k <= |a| && k < |b| {
            assert a[..k][0] == a[0] && b[..k][0] == b[0];
          }
        }
      }
    }
  }

  lemma OneFurther(a: seq<int>, b: seq<int>)
    requires a != [] && b != [] && a[0] == b[0]
    ensures LexicallyBefore(a, b) <==> LexicallyBefore(a[1..], b[1..])
  {
    if k: nat :| DecidesAt(a[1..], b[1..], k) {
      assert a[..k + 1] == [a[0]] + a[1..][..k] && b[..k + 1] == [b[0]] + b[1..][..k];
      assert DecidesAt(a, b, k + 1);
    }
    if k: nat :| DecidesAt(a, b, k) {
      assert k > 0;
      assert a[1..][..k - 1] == a[..k][1..] && b[1..][..k - 1] == b[..k][1..];
      assert DecidesAt(a[1..], b[1..], k - 1);
    }
  }

  /** The line of numbers between the infinities, and NaN behind it. */
  function FloatRank(f: Float): nat {
    match f
    case NegInfinity => 0
    case Finite(_) => 1
    case PosInfinity => 2
    case NaN => 3
  }

  predicate NumberBefore(a: Float, b: Float) {
    FloatRank(a) < FloatRank(b) || (a.Finite? && b.Finite? && a.r < b.r)
  }

  function NumberOf(v: Value): Float
    requires Numeric(v)
  {
    match v
    case Int32(i) => Finite(i as real)
    case Int64(l) => Finite(l as real)
    case Float64(f) => f
  }

  /** Numbers by size whatever their type, other values of one type by size or lexically, and values of
      different types by type. */
  ghost predicate ValueBefore(x: Value, y: Value) {
    if Numeric(x) && Numeric(y) then NumberBefore(NumberOf(x), NumberOf(y))
    else if TypeOrder(x) != TypeOrder(y) then TypeOrder(x) < TypeOrder(y)
    else match x
      case Boolean(a) => !a && y.b
      case String(a) => LexicallyBefore(Codes(a), Codes(y.s))
      case DateTime(a) => a < y.t
      case Bytes(a) => LexicallyBefore(a, y.bytes)
      case Jsonb(a) => LexicallyBefore(a, y.json)
      case _ => false
  }

  /** The comparison says what the description says. */
  lemma ComparesAsDescribed(x: Value, y: Value)
    requires Safe(x) && Safe(y)
    ensures Compare(x, y) == Less <==> ValueBefore(x, y)
  {
    match (x, y) {
      case (String(a), String(b)) => CodesInOrder(Codes(a), Codes(b));
      case (Bytes(a), Bytes(b)) => CodesInOrder(a, b);
      case (Jsonb(a), Jsonb(b)) => CodesInOrder(a, b);
      case (Int64(a), Float64(_)) => ToDoubleExact(a);
      case (Float64(_), Int64(b)) => ToDoubleExact(b);
      case _ =>
    }
  }

  /** SQL equality always compares equal; the converse fails only between integers and floats. */
  lemma SqlEqVersusCompare(x: Value, y: Value)
    ensures SqlEq(x, y) ==> Compare(x, y) == Equal
    ensures Compare(x, y) == Equal && !SqlEq(x, y) ==> x.Float64? != y.Float64?
  {
    CompareMirror(x, y);
    if SameVariant(x, y) {
      CompareEqualSameVariant(x, y);
    }
  }

  /** Two different 64-bit integers that one float equals, because both round to it. */
  predicate Collision(a: Value, b: Value, f: Value) {
    && a.Int64? && b.Int64? && f.Float64?
    && a.l != b.l
    && AsDouble(a.l) == f.f && AsDouble(b.l) == f.f
  }

  /** No float of the set equals two different 64-bit integers of the set. */
  ghost predicate CollisionFree(values: iset<Value>) {
    forall a, b, f :: a in values && b in values && f in values ==> !Collision(a, b, f)
  }

  predicate TransitiveAt(x: Value, y: Value, z: Value) {
    AtMost(x, y) && AtMost(y, z) ==> AtMost(x, z)
  }

  ghost predicate TransitiveOn(values: iset<Value>) {
    forall x, y, z :: x in values && y in values && z in values ==> TransitiveAt(x, y, z)
  }

  predicate Numeric(v: Value) { v.Int32? || v.Int64? || v.Float64? }

  lemma TransitiveStep(x: Value, y: Value, z: Value)
    requires !Collision(x, y, z) && !Collision(x, z, y) && !Collision(y, z, x)
    ensures TransitiveAt(x, y, z)
  {
    if Numeric(x) && Numeric(y) && Numeric(z) {
      NumericTransitive(x, y, z);
    } else {
      match (x, y, z) {
        case (String(a), String(b), String(c)) => StringTransitive(Codes(a), Codes(b), Codes(c));
        case (Bytes(a), Bytes(b), Bytes(c)) => StringTransitive(a, b, c);
        case (Jsonb(a), Jsonb(b), Jsonb(c)) => StringTransitive(a, b, c);
        case _ =>
      }
    }
  }

  lemma StringTransitive(a: seq<int>, b: seq<int>, c: seq<int>)
    ensures CompareCodes(a, b) != Greater && CompareCodes(b, c) != Greater ==> CompareCodes(a, c) != Greater
  {
    if CompareCodes(a, b) != Greater && CompareCodes(b, c) != Greater {
      CodesTransitive(a, b, c);
    }
  }

  lemma NumericTransitive(x: Value, y: Value, z: Value)
    requires Numeric(x) && Numeric(y) && Numeric(z)
    requires !Collision(x, y, z) && !Collision(x, z, y) && !Collision(y, z, x)
    ensures TransitiveAt(x, y, z)
  {
    CastAgrees(x, y);
    CastAgrees(y, z);
    CastAgrees(x, z);
    CastAgrees(z, x);
    hide ToDouble;
    match (x, y)
    case (Int32(_), Int32(_)) =>
    case (Int32(_), Int64(_)) =>
    case (Int32(_), Float64(_)) =>
    case (Int64(_), Int32(_)) =>
    case (Int64(_), Int64(_)) =>
    case (Int64(_), Float64(_)) =>
    case (Float64(_), Int32(_)) =>
    case (Float64(_), Int64(_)) =>
    case (Float64(_), Float64(_)) =>
  }

  /** What the mixed comparisons of integers rest on. */
  lemma CastAgrees(x: Value, y: Value)
    ensures x.Int64? && y.Int64? && x.l <= y.l ==> ToDouble(x.l) <= ToDouble(y.l)
    ensures x.Int32? && y.Int64? && x.i <= y.l ==> x.i <= ToDouble(y.l)
    ensures x.Int64? && y.Int32? && x.l <= y.i ==> ToDouble(x.l) <= y.i
    ensures x.Int32? && y.Int64? && x.i < y.l ==> x.i < ToDouble(y.l)
    ensures x.Int64? && y.Int32? && x.l < y.i ==> ToDouble(x.l) < y.i
  {
    if x.Int64? && y.Int64? && x.l <= y.l {
      ToDoubleMonotone(x.l, y.l);
    }
    if x.Int32? && y.Int64? {
      var near := x.i + 1;
      ToDoubleExact(x.i);
      ToDoubleExact(near);
      if x.i <= y.l { ToDoubleMonotone(x.i, y.l); }
      if near <= y.l { ToDoubleMonotone(near, y.l); }
    }
    if x.Int64? && y.Int32? {
      var near := y.i - 1;
      ToDoubleExact(y.i);
      ToDoubleExact(near);
      if x.l <= y.i { ToDoubleMonotone(x.l, y.i); }
      if x.l <= near { ToDoubleMonotone(x.l, near); }
    }
  }

  /** The order is transitive on a set of values exactly when the set is free of collisions. */
  lemma TransitiveExactly(values: iset<Value>)
    ensures TransitiveOn(values) <==> CollisionFree(values)
  {
    if CollisionFree(values) {
      forall x, y, z | x in values && y in values && z in values
        ensures TransitiveAt(x, y, z)
      {
        TransitiveStep(x, y, z);
      }
    }
    if TransitiveOn(values) {
      forall a, b, f | a in values && b in values && f in values
        ensures !Collision(a, b, f)
      {
        if Collision(a, b, f) {
          CollisionBreaks(a, b, f);
        }
      }
    }
  }

  lemma CollisionBreaks(a: Value, b: Value, f: Value)
    requires Collision(a, b, f)
    ensures !TransitiveAt(a, f, b) || !TransitiveAt(b, f, a)
  {
    assert Compare(a, f) == Equal && Compare(f, b) == Equal && Compare(b, f) == Equal && Compare(f, a) == Equal;
  }

  /** 64-bit integers that a float holds exactly. */
  predicate Safe(v: Value) { v.Int64? ==> -EXACT <= v.l <= EXACT }

  /** Up to 2^53 the order is a total preorder over all nine types. */
  lemma SafeTotalPreorder(x: Value, y: Value, z: Value)
    requires Safe(x) && Safe(y) && Safe(z)
    ensures AtMost(x, x)
    ensures AtMost(x, y) || AtMost(y, x)
    ensures TransitiveAt(x, y, z)
  {
    CompareMirror(x, x);
    CompareMirror(x, y);
    if x.Int64? { ToDoubleExact(x.l); }
    if y.Int64? { ToDoubleExact(y.l); }
    if z.Int64? { ToDoubleExact(z.l); }
    TransitiveStep(x, y, z);
  }

  /** Above 2^53 transitivity fails: 2^53 + 1 and 2^53 both equal the float 2^53. */
  lemma OrderBreaksAbove53Bits()
    ensures var f := Float64(Finite(EXACT as real));
            Compare(Int64(EXACT + 1), f) == Equal && Compare(f, Int64(EXACT)) == Equal
            && Compare(Int64(EXACT + 1), Int64(EXACT)) == Greater
  {
    assert ToDouble(EXACT + 1) == EXACT && ToDouble(EXACT) == EXACT;
  }
}

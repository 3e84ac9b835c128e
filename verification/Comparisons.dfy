/** The six comparisons, on integers and on 64-bit floats: as IEEE 754 orders the numbers, as Polars
    orders them with NaN on top, and as kernels without `double` decide them from bit patterns. */
module Comparisons {
  import opened BitArith
  import opened IndexArith

  const SIGN: int := 0x8000_0000_0000_0000
  const WORD: int := 0x1_0000_0000_0000_0000
  const MANTISSA: int := 0x10_0000_0000_0000
  const EXP_MAX: int := 0x7FF
  const QUIET_NAN: Bits := 0x7FF8_0000_0000_0000

  datatype CmpOp = Eq | Ne | Lt | Le | Gt | Ge

  predicate CompareInts(op: CmpOp, a: int, b: int) {
    match op
    case Eq => a == b
    case Ne => a != b
    case Lt => a < b
    case Le => a <= b
    case Gt => a > b
    case Ge => a >= b
  }

  /** The operator after its operands changed sides. */
  function Swap(op: CmpOp): CmpOp {
    match op
    case Lt => Gt
    case Le => Ge
    case Gt => Lt
    case Ge => Le
    case _ => op
  }

  type Bits = b: int | 0 <= b < WORD

  // ----- the number a pattern stands for -----

  function Magnitude(b: Bits): (m: int)
    ensures 0 <= m < SIGN
  {
    b % SIGN
  }

  predicate Negative(b: Bits) {
    b >= SIGN
  }

  function Exponent(m: int): int
    requires 0 <= m < SIGN
  {
    m / MANTISSA
  }

  function Fraction(m: int): (f: int)
    requires 0 <= m < SIGN
    ensures 0 <= f < MANTISSA
  {
    m % MANTISSA
  }

  predicate IsNan(b: Bits) {
    Exponent(Magnitude(b)) == EXP_MAX && Fraction(Magnitude(b)) != 0
  }

  /** The absolute value in units of `2^-1074`, which is a whole number for every finite pattern: a
      subnormal's fraction, or a normal's with its hidden bit, scaled. Infinity comes out as `2^2098`, above
      every finite one. */
  function Units(m: int): (u: int)
    requires 0 <= m < SIGN
    ensures u >= 0
  {
    if Exponent(m) == 0 then Fraction(m)
    else
      MulNonNegative(MANTISSA + Fraction(m), Pow2(Exponent(m) - 1));
      (MANTISSA + Fraction(m)) * Pow2(Exponent(m) - 1)
  }

  /** The signed value; both zeros are zero. */
  function Number(b: Bits): int {
    if Negative(b) then -Units(Magnitude(b)) else Units(Magnitude(b))
  }

  /** A pattern from its sign, exponent and fraction: NaN is the largest exponent with a fraction, and any
      other pattern that number of units. */
  lemma PatternMeans(negative: bool, e: int, f: int)
    requires 0 <= e <= 0x7FF && 0 <= f < 0x10_0000_0000_0000
    ensures var b := (if negative then 0x8000_0000_0000_0000 else 0) + e * 0x10_0000_0000_0000 + f;
            var u := if e == 0 then f else (0x10_0000_0000_0000 + f) * Pow2(e - 1);
            0 <= b < WORD && (IsNan(b) <==> e == 0x7FF && f > 0) && Number(b) == if negative then -u else u
  {
    hide Pow2, Units, Exponent, Fraction;
    Fields(e, f);
    var m := e * MANTISSA + f;
    assert Magnitude(if negative then SIGN + m else m) == m;
  }

  lemma Fields(e: int, f: int)
    requires 0 <= e <= EXP_MAX && 0 <= f < MANTISSA
    ensures var m := e * MANTISSA + f;
            0 <= m < SIGN && Exponent(m) == e && Fraction(m) == f &&
            Units(m) == if e == 0 then f else (MANTISSA + f) * Pow2(e - 1)
  {
    hide Pow2;
    Quotient(e * MANTISSA + f, MANTISSA, e);
  }

  /** IEEE 754: nothing but `!=` holds of a NaN. */
  predicate IeeeCompare(op: CmpOp, a: Bits, b: Bits) {
    if IsNan(a) || IsNan(b) then op.Ne? else CompareInts(op, Number(a), Number(b))
  }

  /** Polars: NaN equals NaN and exceeds every number. */
  predicate TotalCompare(op: CmpOp, a: Bits, b: Bits) {
    if IsNan(a) || IsNan(b) then NanVerdict(op, IsNan(a), IsNan(b)) else CompareInts(op, Number(a), Number(b))
  }

  /** Polars' verdict when one operand or both are NaN. */
  predicate NanVerdict(op: CmpOp, a: bool, b: bool) {
    CompareInts(op, if a then 1 else 0, if b then 1 else 0)
  }

  /** Where the two orders give one verdict: without a NaN, or with NaN on sides that do not matter. */
  predicate NanHarmless(op: CmpOp, a: bool, b: bool) {
    if a && b then op.Lt? || op.Gt?
    else if a then !op.Gt? && !op.Ge?
    else if b then !op.Lt? && !op.Le?
    else true
  }

  predicate OrdersMeet(op: CmpOp, a: Bits, b: Bits) {
    NanHarmless(op, IsNan(a), IsNan(b))
  }

  lemma OrdersMeetExactly(op: CmpOp, a: Bits, b: Bits)
    ensures (IeeeCompare(op, a, b) <==> TotalCompare(op, a, b)) <==> OrdersMeet(op, a, b)
  {
    hide IsNan, Number;
  }

  lemma Scaled(a: int, b: int, p: int)
    requires a < b && p >= 1
    ensures a * p < b * p
  {
    MulPositive(b - a, p);
    Distributes(a, b - a, p);
  }

  lemma SameExponent(m: int, n: int)
    requires 0 <= m < n < SIGN && Exponent(m) == Exponent(n)
    ensures Fraction(m) < Fraction(n) && Units(m) < Units(n)
  {
    if Exponent(m) > 0 {
      Scaled(MANTISSA + Fraction(m), MANTISSA + Fraction(n), Pow2(Exponent(m) - 1));
    }
  }

  lemma LowerExponent(m: int, n: int)
    requires 0 <= m < n < SIGN && Exponent(m) < Exponent(n)
    ensures Units(m) < Units(n)
  {
    var a, b := Exponent(m), Exponent(n);
    var p, q := Pow2(if a == 0 then 0 else a - 1), Pow2(b - 1);
    assert Units(m) < 2 * MANTISSA * p by {
      if a == 0 {
        assert p == 1;
      } else {
        Scaled(MANTISSA + Fraction(m), 2 * MANTISSA, p);
      }
    }
    if a == 0 {
      Pow2Mono(0, b - 1);
      MulMono(1, q, MANTISSA);
      assert Units(m) < MANTISSA;
    } else {
      Pow2Mono(a, b - 1);
      assert Pow2(a) == 2 * p;
      MulMono(2 * p, q, MANTISSA);
      assert 2 * p * MANTISSA == 2 * MANTISSA * p;
    }
    MulMono(MANTISSA, MANTISSA + Fraction(n), q);
    assert q * MANTISSA == MANTISSA * q;
  }

  /** Larger patterns stand for larger absolute values. */
  lemma UnitsGrow(m: int, n: int)
    requires 0 <= m < n < SIGN
    ensures Units(m) < Units(n)
  {
    if Exponent(m) == Exponent(n) {
      SameExponent(m, n);
    } else {
      LowerExponent(m, n);
    }
  }

  lemma UnitsOrder(m: int, n: int)
    requires 0 <= m < SIGN && 0 <= n < SIGN
    ensures (Units(m) < Units(n) <==> m < n) && (Units(m) == Units(n) <==> m == n)
  {
    if m < n {
      UnitsGrow(m, n);
    } else if n < m {
      UnitsGrow(n, m);
    }
  }

  lemma ZeroUnits()
    ensures Units(0) == 0
  {
  }

  // ----- the kernel's comparisons -----

  /** `((a | b) << 1) == 0`, in 64 bits. */
  predicate BothZero(a: Bits, b: Bits) {
    (2 * Or(a, b)) % WORD == 0
  }

  /** `bits ^ mask`: flip the sign of the positive, and every bit of the negative. */
  function Key(b: Bits): int {
    if Negative(b) then WORD - 1 - b else b + SIGN
  }

  /** `f64_eq` and its five companions. */
  predicate KernelCompare(op: CmpOp, a: Bits, b: Bits) {
    if IsNan(a) || IsNan(b) then op.Ne?
    else if BothZero(a, b) then op.Eq? || op.Le? || op.Ge?
    else
      match op
      case Eq => a == b
      case Ne => a != b
      case Lt => Key(a) < Key(b)
      case Le => Key(a) <= Key(b)
      case Gt => Key(a) > Key(b)
      case Ge => Key(a) >= Key(b)
  }

  // ----- and what they decide -----

  lemma {:induction false} OrLow(a: nat, b: nat, k: nat)
    ensures Or(a, b) % Pow2(k) == 0 <==> a % Pow2(k) == 0 && b % Pow2(k) == 0
    decreases k
  {
    if k == 0 {
      assert Pow2(k) == 1;
    } else {
      hide Pow2, Or;
      OrHalf(a, b);
      OrLow(a / 2, b / 2, k - 1);
      LowZero(a, k);
      LowZero(b, k);
      LowZero(Or(a, b), k);
    }
  }

  lemma OrHalf(a: nat, b: nat)
    ensures Or(a, b) / 2 == Or(a / 2, b / 2) && (Or(a, b) % 2 == 0 <==> a % 2 == 0 && b % 2 == 0)
  {
  }

  lemma LowZero(y: nat, k: nat)
    requires k > 0
    ensures y % Pow2(k) == 0 <==> y % 2 == 0 && (y / 2) % Pow2(k - 1) == 0
  {
    HalfWindow(y, Pow2(k - 1));
    var low := y % Pow2(k);
    assert low == 0 <==> low % 2 == 0 && low / 2 == 0;
  }

  lemma BytePower()
    ensures Pow2(8) == 0x100
  {
  }

  lemma HalfPower()
    ensures Pow2(32) == 0x1_0000_0000
  {
    hide Pow2;
    BytePower();
    Pow2Add(8, 8);
    Pow2Add(16, 16);
  }

  lemma SignPower()
    ensures Pow2(63) == SIGN
  {
    assert Pow2(64) == 2 * Pow2(63);
    hide Pow2;
    HalfPower();
    Pow2Add(32, 32);
  }

  lemma DoubledWraps(y: int)
    ensures (2 * y) % WORD == 0 <==> y % SIGN == 0
  {
    var q, r := y / SIGN, y % SIGN;
    assert WORD == 2 * SIGN;
    assert y == q * SIGN + r;
    Quotient(2 * y, WORD, q);
    assert (2 * y) % WORD == 2 * r;
  }

  lemma BothZeroMeans(a: Bits, b: Bits)
    ensures BothZero(a, b) <==> Magnitude(a) == 0 && Magnitude(b) == 0
  {
    hide Pow2, Or;
    SignPower();
    OrLow(a, b, 63);
    DoubledWraps(Or(a, b));
  }

  lemma NumberOrder(a: Bits, b: Bits)
    requires !(Magnitude(a) == 0 && Magnitude(b) == 0)
    ensures (Key(a) < Key(b) <==> Number(a) < Number(b)) && (a == b <==> Number(a) == Number(b))
  {
    hide Units;
    var m, n := Magnitude(a), Magnitude(b);
    UnitsOrder(m, n);
    UnitsOrder(m, 0);
    UnitsOrder(n, 0);
    ZeroUnits();
  }

  lemma ZeroNumber(a: Bits)
    requires Magnitude(a) == 0
    ensures Number(a) == 0
  {
    ZeroUnits();
  }

  /** The integer comparisons of bit patterns are IEEE's comparisons of the numbers they stand for,
      zeros of either sign, subnormals, infinities and NaN included. */
  lemma KernelIsIeee(op: CmpOp, a: Bits, b: Bits)
    ensures KernelCompare(op, a, b) <==> IeeeCompare(op, a, b)
  {
    hide IsNan, Number, BothZero;
    BothZeroMeans(a, b);
    if Magnitude(a) == 0 && Magnitude(b) == 0 {
      ZeroNumber(a);
      ZeroNumber(b);
    } else {
      NumberOrder(a, b);
      KeysDiffer(a, b);
    }
  }

  lemma SwapMirrors(op: CmpOp, a: Bits, b: Bits)
    ensures IeeeCompare(op, a, b) <==> IeeeCompare(Swap(op), b, a)
  {
    hide IsNan, Number;
  }

  lemma KeysDiffer(a: Bits, b: Bits)
    ensures Key(a) == Key(b) <==> a == b
  {
  }
}

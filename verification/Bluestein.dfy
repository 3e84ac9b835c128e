/** Bluestein's chirp-z transform: the algebra. A length-`n` transform becomes a
    length-`m` circular convolution with an even chirp filter wrapped around the end. */
module Bluestein {
  import opened ComplexSums
  import opened FourierSpec
  import opened IndexArith

  // ----- the convolution length -----

  /** Number of bits of `y`: `64 - leading_zeros(y)`. */
  function BitLength(y: nat): nat {
    if y == 0 then 0 else 1 + BitLength(y / 2)
  }

  function ShiftLeft(e: nat): nat {
    if e == 0 then 1 else 2 * ShiftLeft(e - 1)
  }

  /** `next_pow2`: the smallest power of two at or above `x`. */
  function NextPow2(x: nat): (m: nat)
    ensures IsPow2(m) && x <= m && (m == 1 || m / 2 < x)
  {
    if x <= 1 then 1 else
    BitLengthBrackets(x - 1);
    ShiftLeftIsPow2(BitLength(x - 1));
    ShiftLeft(BitLength(x - 1))
  }

  lemma {:induction false} BitLengthBrackets(y: nat)
    ensures y < ShiftLeft(BitLength(y))
    ensures y > 0 ==> ShiftLeft(BitLength(y)) <= 2 * y
  {
    if y > 0 {
      var h := y / 2;
      BitLengthBrackets(h);
      var e := BitLength(h);
      assert BitLength(y) == e + 1;
      assert ShiftLeft(e + 1) == 2 * ShiftLeft(e);
      assert h == 0 ==> e == 0 && ShiftLeft(e) == 1;
    }
  }

  lemma {:induction false} ShiftLeftIsPow2(e: nat)
    ensures IsPow2(ShiftLeft(e))
  {
    if e > 0 {
      ShiftLeftIsPow2(e - 1);
      var half := ShiftLeft(e - 1);
      assert ShiftLeft(e) == 2 * half;
      assert 2 * half / 2 == half && IsPow2(half);
    }
  }

  // ----- chirp and filter -----

  /** `b[t] = e^(-i*pi*t*t/n)`, with the square reduced mod `2n`; `zeta = e^(-i*pi/n)`. */
  function Chirp(zeta: Complex, n: int, t: int): Complex
    requires n > 0
  {
    Pow(zeta, t * t % (2 * n))
  }

  lemma ChirpUnreduced(zeta: Complex, n: nat, t: nat)
    requires n > 0 && Pow(zeta, 2 * n) == ONE
    ensures Chirp(zeta, n, t) == Pow(zeta, t * t)
  {
    hide Pow, Mul;
    var tt := t * t;
    MulNonNeg(t, t);
    var q, r := tt / (2 * n), tt % (2 * n);
    assert tt == r + 2 * n * q;
    PowPeriodic(zeta, 2 * n, r, q);
  }

  /** The modulated input, zero-padded. */
  function Modulated(x: int -> Complex, zeta: Complex, n: int): int -> Complex
    requires n > 0
  {
    (t: int) => if 0 <= t < n then Mul(x(t), Chirp(zeta, n, t)) else ZERO
  }

  /** The filter: the conjugate chirp at lags `0 .. n-1`, and at lags `-1 .. -(n-1)`
      wrapped to the top of the buffer. */
  function Filter(zeta: Complex, n: int, m: int): int -> Complex
    requires n > 0
  {
    (t: int) =>
      if 0 <= t < n then Conj(Chirp(zeta, n, t))
      else if m < t + n && t < m then Conj(Chirp(zeta, n, m - t))
      else ZERO
  }

  lemma Squares(k: int, t: int, d: int)
    requires d == if t <= k then k - t else t - k
    ensures k * k + t * t == d * d + 2 * (k * t)
  {
  }

  /** `zeta^(k*k) * zeta^(t*t) * conj(zeta^((k-t)^2)) == zeta^(2*k*t)`. */
  lemma ChirpIdentity(zeta: Complex, k: nat, t: nat, d: nat)
    requires Mul(zeta, Conj(zeta)) == ONE
    requires d == if t <= k then k - t else t - k
    ensures Mul(Mul(Pow(zeta, k * k), Pow(zeta, t * t)), Conj(Pow(zeta, d * d))) == Pow(Pow(zeta, 2), k * t)
  {
    hide Mul, Pow, Conj;
    Squares(k, t, d);
    var kk, tt, dd, kt := k * k, t * t, d * d, k * t;
    MulNonNeg(k, k);
    MulNonNeg(t, t);
    MulNonNeg(d, d);
    MulNonNeg(k, t);
    PowAdd(zeta, kk, tt);
    PowConj(zeta, dd);
    QuotientCancels(zeta, dd, 2 * kt, 0);
    PowZero(Conj(zeta));
    MulUnits(Pow(zeta, 2 * kt));
    PowMul(zeta, 2, kt);
  }

  /** One term of the convolution, demodulated, is one term of the transform. The filter
      never confuses two lags, because `m >= 2n - 1`. */
  lemma BluesteinTerm(x: int -> Complex, zeta: Complex, n: nat, m: nat, k: nat, t: nat)
    requires n > 0 && Pow(zeta, 2 * n) == ONE && 2 * n <= m + 1 && k < n && t < n
    ensures Mul(Chirp(zeta, n, k), CircularTerm(Modulated(x, zeta, n), Filter(zeta, n, m), m, k)(t))
         == DftTerm(x, Pow(zeta, 2), k)(t)
  {
    hide Mul, Pow, Conj, Chirp, Norm;
    RootHasNormOne(zeta, 2 * n);
    ConjIsInverse(zeta);
    var d := if t <= k then k - t else t - k;
    var lag := Lag(m, k, t);
    assert Filter(zeta, n, m)(lag) == Conj(Chirp(zeta, n, d));
    ChirpUnreduced(zeta, n, k);
    ChirpUnreduced(zeta, n, t);
    ChirpUnreduced(zeta, n, d);
    ChirpIdentity(zeta, k, t, d);
    BluesteinShuffle(Pow(zeta, k * k), x(t), Pow(zeta, t * t), Conj(Pow(zeta, d * d)));
  }

  lemma BluesteinShuffle(b: Complex, x: Complex, c: Complex, h: Complex)
    ensures Mul(b, Mul(Mul(x, c), h)) == Mul(x, Mul(Mul(b, c), h))
  {
    hide *;
    MulAssoc(x, c, h);
    MulAssoc(b, x, Mul(c, h));
    MulComm(b, x);
    MulAssoc(x, b, Mul(c, h));
    MulAssoc(b, c, h);
  }

  /** The demodulated circular convolution is the naive transform. */
  lemma BluesteinCorrect(x: int -> Complex, zeta: Complex, n: nat, m: nat, k: nat)
    requires n > 0 && Pow(zeta, 2 * n) == ONE && 2 * n <= m + 1 && k < n
    ensures Mul(Chirp(zeta, n, k), Circular(Modulated(x, zeta, n), Filter(zeta, n, m), m)(k))
         == Dft(x, n, Pow(zeta, 2), k)
  {
    hide Mul, Pow, Conj, Chirp, Sum, Add, Filter;
    var a, h := Modulated(x, zeta, n), Filter(zeta, n, m);
    var F := CircularTerm(a, h, m, k);
    var G := DftTerm(x, Pow(zeta, 2), k);
    forall t | 0 <= t < n
      ensures G(t) == Mul(Chirp(zeta, n, k), F(t))
    {
      BluesteinTerm(x, zeta, n, m, k, t);
    }
    SumMul(Chirp(zeta, n, k), F, G, n);
    var rest := Shifted(F, n);
    forall i | 0 <= i < m - n
      ensures rest(i) == ZERO
    {
      MulUnits(h(Lag(m, k, n + i)));
    }
    SumConcat(F, n, m - n);
    SumZero(rest, m - n);
    AddLaws(Sum(F, n), ZERO, ZERO);
  }
}

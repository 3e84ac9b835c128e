/** The naive discrete Fourier transform and the identities the FFT code rests on. */
module FourierSpec {
  import opened ComplexSums

  /** `X[k] = sum(t < n) f(t) * w^(k*t)`: `dft_reference` with `w = e^(-2*pi*i/n)`,
      without the scaling of the inverse. */
  function Dft(f: int -> Complex, n: int, w: Complex, k: int): Complex {
    Sum(DftTerm(f, w, k), n)
  }

  function DftTerm(f: int -> Complex, w: Complex, k: int): int -> Complex {
    (t: int) => Mul(f(t), Pow(w, k * t))
  }

  /** The subsequence `f(offset), f(offset + stride), f(offset + 2*stride), ...`. */
  function Strided(f: int -> Complex, stride: int, offset: int): int -> Complex {
    (s: int) => f(s * stride + offset)
  }

  /** The signal that starts at `base` in a buffer. */
  function View(d: seq<Complex>, base: int): int -> Complex {
    (t: int) => if 0 <= base + t < |d| then d[base + t] else ZERO
  }

  lemma DftCong(f: int -> Complex, g: int -> Complex, n: nat, w: Complex, k: nat)
    requires forall t :: 0 <= t < n ==> f(t) == g(t)
    ensures Dft(f, n, w, k) == Dft(g, n, w, k)
  {
    hide Mul, Pow;
    SumCong(DftTerm(f, w, k), DftTerm(g, w, k), n);
  }

  // ----- decimation: one radix step, and one four-step level -----

  lemma ExpandExponent(k: int, p: int, q: int, r: int, s: int, t: int)
    ensures (k + p * q) * (s * r + t) == (r * (k * s) + k * t + p * (q * t)) + (r * p) * (q * s)
  {
    var u, v := s * r, p * q;
    assert (k + v) * (u + t) == k * u + k * t + v * u + v * t;
    assert k * u == r * (k * s);
    assert v * u == (r * p) * (q * s);
    assert v * t == p * (q * t);
  }

  /** `(a b) c`, all exponents of `v`, as one product. */
  lemma PowAdd3(v: Complex, a: nat, b: nat, c: nat)
    ensures Pow(v, a + b + c) == Mul(Mul(Pow(v, a), Pow(v, b)), Pow(v, c))
  {
    hide Mul, Pow;
    PowAdd(v, a, b);
    PowAdd(v, a + b, c);
  }

  /** One term of a length-`r*p` transform at frequency `k + p*q`, split. */
  lemma DecimateTerm(x: Complex, r: nat, p: nat, v: Complex, k: nat, q: nat, s: nat, t: nat)
    requires Pow(v, r * p) == ONE
    ensures Mul(x, Pow(v, (k + p * q) * (s * r + t)))
         == Mul(Mul(Pow(v, k * t), Pow(Pow(v, p), q * t)), Mul(x, Pow(Pow(v, r), k * s)))
  {
    hide Mul, Pow;
    ExpandExponent(k, p, q, r, s, t);
    var ks, kt, qt, qs, rp := k * s, k * t, q * t, q * s, r * p;
    MulNonNeg(k, s);
    MulNonNeg(k, t);
    MulNonNeg(q, t);
    MulNonNeg(q, s);
    MulNonNeg(r, p);
    MulNonNeg(r, ks);
    MulNonNeg(p, qt);
    var e1, e3 := r * ks, p * qt;
    PowPeriodic(v, rp, e1 + kt + e3, qs);
    PowMul(v, r, ks);
    PowMul(v, p, qt);
    PowAdd3(v, e1, kt, e3);
    SplitProduct(x, Pow(v, e1), Pow(v, kt), Pow(v, e3));
  }

  lemma SplitProduct(x: Complex, a: Complex, b: Complex, c: Complex)
    ensures Mul(x, Mul(Mul(a, b), c)) == Mul(Mul(b, c), Mul(x, a))
  {
    hide *;
    MulAssoc(a, b, c);
    MulAssoc(x, a, Mul(b, c));
    MulComm(Mul(x, a), Mul(b, c));
  }

  /** Decimation in time. A length-`r*p` transform at frequency `k + p*q` is a
      length-`r` transform, at frequency `q`, of the twiddled length-`p` transforms
      of the `r` interleaved subsequences. */
  lemma Decimation(f: int -> Complex, r: nat, p: nat, v: Complex, k: nat, q: nat, g: int -> Complex)
    requires Pow(v, r * p) == ONE
    requires forall t :: 0 <= t < r ==>
      g(t) == Mul(Dft(Strided(f, r, t), p, Pow(v, r), k), Pow(v, k * t))
    ensures Dft(f, r * p, v, k + p * q) == Dft(g, r, Pow(v, p), q)
  {
    hide Mul, Pow, Add, Sum, Dft;
    var F := DftTerm(f, v, k + p * q);
    var F2 := (s: int, t: int) => F(s * r + t);
    var row := (s: int) => Sum((t: int) => F2(s, t), r);
    var col := (t: int) => Sum((s: int) => F2(s, t), p);
    forall s | 0 <= s < p
      ensures row(s) == Sum(Shifted(F, s * r), r)
    {
      SumCong(Shifted(F, s * r), (t: int) => F2(s, t), r);
    }
    assert p * r == r * p;
    SumByRows(F, row, p, r);
    SumSwap(F2, row, col, p, r);
    var G := DftTerm(g, Pow(v, p), q);
    forall t | 0 <= t < r
      ensures col(t) == G(t)
    {
      DecimateColumn(f, r, p, v, k, q, t, (s: int) => F2(s, t));
      var d := Dft(Strided(f, r, t), p, Pow(v, r), k);
      var b, c := Pow(v, k * t), Pow(Pow(v, p), q * t);
      MulComm(Mul(b, c), d);
      MulAssoc(d, b, c);
    }
    SumCong(col, G, r);
    DftDef(f, r * p, v, k + p * q);
    DftDef(g, r, Pow(v, p), q);
  }

  lemma DftDef(f: int -> Complex, n: int, w: Complex, k: int)
    ensures Dft(f, n, w, k) == Sum(DftTerm(f, w, k), n)
  {
  }

  lemma DecimateColumn(f: int -> Complex, r: nat, p: nat, v: Complex, k: nat, q: nat, t: nat, col: int -> Complex)
    requires Pow(v, r * p) == ONE
    requires forall s :: 0 <= s < p ==> col(s) == Mul(f(s * r + t), Pow(v, (k + p * q) * (s * r + t)))
    ensures Sum(col, p)
         == Mul(Mul(Pow(v, k * t), Pow(Pow(v, p), q * t)), Dft(Strided(f, r, t), p, Pow(v, r), k))
  {
    hide Mul, Pow, Add, Sum;
    var c := Mul(Pow(v, k * t), Pow(Pow(v, p), q * t));
    var h := DftTerm(Strided(f, r, t), Pow(v, r), k);
    forall s | 0 <= s < p
      ensures col(s) == Mul(c, h(s))
    {
      DecimateTerm(f(s * r + t), r, p, v, k, q, s, t);
    }
    SumMul(c, h, col, p);
  }

  // ----- inverse by conjugation -----

  function Conjugated(f: int -> Complex): int -> Complex {
    (t: int) => Conj(f(t))
  }

  /** `conj(fft(conj(x)))` is the transform with the conjugate root. */
  lemma ConjugateTransform(f: int -> Complex, n: nat, w: Complex, k: nat)
    ensures Conj(Dft(Conjugated(f), n, w, k)) == Dft(f, n, Conj(w), k)
  {
    hide Mul, Pow, Conj, Sum;
    var cf := Conjugated(f);
    var F := DftTerm(cf, w, k);
    var G := DftTerm(f, Conj(w), k);
    forall t | 0 <= t < n
      ensures G(t) == Conj(F(t))
    {
      ConjMul(cf(t), Pow(w, k * t));
      ConjTwice(f(t));
      PowConj(w, k * t);
    }
    SumConj(F, G, n);
  }

  // ----- primitive roots of power-of-two order, orthogonality, inversion -----

  predicate IsPow2(n: nat) {
    n == 1 || (n > 0 && n % 2 == 0 && IsPow2(n / 2))
  }

  /** `w` is a primitive root of order `n`, `n` a power of two: a half turn is `-1`. */
  ghost predicate HalfTurn(w: Complex, n: nat) {
    IsPow2(n) && (if n == 1 then w == ONE else Pow(w, n / 2) == Neg(ONE))
  }

  lemma HalfTurnIsRoot(w: Complex, n: nat)
    requires HalfTurn(w, n)
    ensures Pow(w, n) == ONE
  {
    hide Mul, Neg;
    if n == 1 {
      MulUnits(ONE);
      assert Pow(w, 1) == Mul(w, Pow(w, 0));
    } else {
      assert n == n / 2 + n / 2;
      PowAdd(w, n / 2, n / 2);
      MulUnits(Neg(ONE));
      NegTwice(ONE);
    }
  }

  lemma NegOneIsNotOne()
    ensures Neg(ONE) != ONE
  {
  }

  lemma {:induction false} HalfTurnIsPrimitive(w: Complex, n: nat, k: nat)
    requires HalfTurn(w, n) && 0 < k < n
    ensures Pow(w, k) != ONE
    decreases n
  {
    hide Mul, Neg;
    NegOneIsNotOne();
    if k % 2 == 1 {
      PowMul(w, n / 2, k);
      PowMul(w, k, n / 2);
      PowNegOneOdd(k);
      PowOfOne(n / 2);
      assert k * (n / 2) == n / 2 * k;
    } else {
      var w2 := Pow(w, 2);
      PowMul(w, 2, k / 2);
      PowMul(w, 2, n / 2 / 2);
      assert 2 * (k / 2) == k;
      assert IsPow2(n / 2);
      assert n / 2 > 1 && 2 * (n / 2 / 2) == n / 2;
      HalfTurnIsPrimitive(w2, n / 2, k / 2);
    }
  }

  function Powers(z: Complex): int -> Complex {
    (t: int) => Pow(z, t)
  }

  /** `w` has order exactly `n`. */
  ghost predicate Primitive(w: Complex, n: nat) {
    n > 0 && Pow(w, n) == ONE && forall k: nat | 0 < k < n :: Pow(w, k) != ONE
  }

  lemma HalfTurnPrimitive(w: Complex, n: nat)
    requires HalfTurn(w, n)
    ensures Primitive(w, n)
  {
    hide Pow;
    HalfTurnIsRoot(w, n);
    forall k: nat | 0 < k < n
      ensures Pow(w, k) != ONE
    {
      HalfTurnIsPrimitive(w, n, k);
    }
  }

  lemma {:induction false} Telescope(z: Complex, n: nat)
    ensures Mul(Sub(z, ONE), Sum(Powers(z), n)) == Sub(Pow(z, n), ONE)
  {
    hide Mul, Add, Sub, Neg, Pow;
    var f := Powers(z);
    if n == 0 {
      MulUnits(Sub(z, ONE));
      PowZero(z);
    } else {
      Telescope(z, n - 1);
      var p := Pow(z, n - 1);
      Distribute(Sub(z, ONE), Sum(f, n - 1), p);
      TelescopeStep(z, p);
      PowStep(z, n);
    }
  }

  lemma PowStep(z: Complex, n: nat)
    requires n > 0
    ensures Pow(z, n) == Mul(z, Pow(z, n - 1))
  {
  }

  lemma PowZero(z: Complex)
    ensures Pow(z, 0) == ONE && Sub(ONE, ONE) == ZERO
  {
  }

  lemma TelescopeStep(z: Complex, p: Complex)
    ensures Add(Sub(p, ONE), Mul(Sub(z, ONE), p)) == Sub(Mul(z, p), ONE)
  {
  }

  /** The powers of a nontrivial root of unity add up to zero. */
  lemma GeometricSumVanishes(z: Complex, n: nat)
    requires Pow(z, n) == ONE && z != ONE
    ensures Sum(Powers(z), n) == ZERO
  {
    hide Mul, Add, Sub, Pow, Sum;
    Telescope(z, n);
    PowZero(z);
    NoZeroDivisors(Sub(z, ONE), Sum(Powers(z), n));
    if Sub(z, ONE) == ZERO {
      SubZero(z);
    }
  }

  lemma SubZero(z: Complex)
    requires Sub(z, ONE) == ZERO
    ensures z == ONE
  {
  }

  function Spectrum(f: int -> Complex, n: int, w: Complex): int -> Complex {
    (q: int) => Dft(f, n, w, q)
  }

  lemma {:induction false} SumOfOnes(f: int -> Complex, n: nat)
    requires forall i :: 0 <= i < n ==> f(i) == ONE
    ensures Sum(f, n) == Complex(n as real, 0.0)
  {
    if n > 0 {
      SumOfOnes(f, n - 1);
    }
  }

  lemma QuotientIsRoot(w: Complex, n: nat, t: nat, k: nat)
    requires Pow(w, n) == ONE
    ensures Pow(Mul(Pow(w, t), Pow(Conj(w), k)), n) == ONE
  {
    hide Mul, Pow, Conj;
    PowOfProduct(Pow(w, t), Pow(Conj(w), k), n);
    PowMul(w, t, n);
    PowMul(w, n, t);
    PowMul(Conj(w), k, n);
    PowMul(Conj(w), n, k);
    PowConj(w, n);
    ConjReal(ONE);
    PowOfOne(t);
    PowOfOne(k);
    MulUnits(ONE);
    assert t * n == n * t && k * n == n * k;
  }

  /** Equal powers of `w` and `conj(w)` cancel. */
  lemma QuotientCancels(w: Complex, m: nat, a: nat, b: nat)
    requires Mul(w, Conj(w)) == ONE
    ensures Mul(Pow(w, m + a), Pow(Conj(w), m + b)) == Mul(Pow(w, a), Pow(Conj(w), b))
  {
    hide *;
    PowOfProduct(w, Conj(w), m);
    PowOfOne(m);
    PowAdd(w, m, a);
    PowAdd(Conj(w), m, b);
    MulShuffle(Pow(w, m), Pow(w, a), Pow(Conj(w), m), Pow(Conj(w), b));
    MulUnits(Mul(Pow(w, a), Pow(Conj(w), b)));
  }

  /** The character `q -> (w^t * conj(w)^k)^q` is trivial exactly when `t == k`. */
  lemma QuotientIsTrivial(w: Complex, n: nat, t: nat, k: nat)
    requires Primitive(w, n) && t < n && k < n
    ensures Mul(Pow(w, t), Pow(Conj(w), k)) == ONE <==> t == k
  {
    hide Mul, Pow, Conj, Norm, Primitive;
    PrimitiveIsRoot(w, n);
    RootHasNormOne(w, n);
    ConjIsInverse(w);
    PowZero(w);
    PowZero(Conj(w));
    if t >= k {
      QuotientCancels(w, k, t - k, 0);
      MulUnits(Pow(w, t - k));
      PowerNotOne(w, n, t - k);
    } else {
      QuotientCancels(w, t, 0, k - t);
      MulUnits(Pow(Conj(w), k - t));
      PowerNotOne(w, n, k - t);
      PowConj(w, k - t);
      ConjTwice(Pow(w, k - t));
      ConjReal(ONE);
    }
  }

  lemma PowerNotOne(w: Complex, n: nat, d: nat)
    requires Primitive(w, n) && d < n
    ensures Pow(w, d) == ONE <==> d == 0
  {
    hide Pow;
    PowZero(w);
  }

  lemma PrimitiveIsRoot(w: Complex, n: nat)
    requires Primitive(w, n)
    ensures Pow(w, n) == ONE
  {
  }

  /** Transforming forward with `w` and back with `conj(w)` gives `n` times the signal. */
  lemma Inversion(f: int -> Complex, n: nat, w: Complex, k: nat)
    requires Primitive(w, n) && k < n
    ensures Dft(Spectrum(f, n, w), n, Conj(w), k) == Mul(Complex(n as real, 0.0), f(k))
  {
    hide Mul, Pow, Conj, Sum, Add, Primitive;
    var X := Spectrum(f, n, w);
    var v := Conj(w);
    var cell := (q: int, t: int) => Mul(Mul(f(t), Pow(w, q * t)), Pow(v, k * q));
    var rows := DftTerm(X, v, k);
    var cols := (t: int) => Sum((q: int) => cell(q, t), n);
    forall q | 0 <= q < n
      ensures rows(q) == Sum((t: int) => cell(q, t), n)
    {
      var p := Pow(v, k * q);
      forall t | 0 <= t < n
        ensures cell(q, t) == Mul(p, DftTerm(f, w, q)(t))
      {
        MulComm(p, DftTerm(f, w, q)(t));
      }
      SumMul(p, DftTerm(f, w, q), (t: int) => cell(q, t), n);
      MulComm(p, X(q));
    }
    SumSwap(cell, rows, cols, n, n);
    forall t | 0 <= t < n
      ensures cols(t) == if t == k then Mul(Complex(n as real, 0.0), f(k)) else ZERO
    {
      InversionColumn(f, n, w, k, t, (q: int) => cell(q, t));
    }
    SumSingle(cols, n, k);
  }

  lemma InversionColumn(f: int -> Complex, n: nat, w: Complex, k: nat, t: nat, col: int -> Complex)
    requires Primitive(w, n) && k < n && t < n
    requires forall q :: 0 <= q < n ==> col(q) == Mul(Mul(f(t), Pow(w, q * t)), Pow(Conj(w), k * q))
    ensures Sum(col, n) == if t == k then Mul(Complex(n as real, 0.0), f(k)) else ZERO
  {
    hide Mul, Pow, Conj, Sum, Add, Primitive;
    var z := Mul(Pow(w, t), Pow(Conj(w), k));
    forall q | 0 <= q < n
      ensures col(q) == Mul(f(t), Powers(z)(q))
    {
      PowOfProduct(Pow(w, t), Pow(Conj(w), k), q);
      PowMul(w, t, q);
      PowMul(Conj(w), k, q);
      assert t * q == q * t;
      MulAssoc(f(t), Pow(w, q * t), Pow(Conj(w), k * q));
    }
    SumMul(f(t), Powers(z), col, n);
    PrimitiveIsRoot(w, n);
    QuotientIsRoot(w, n, t, k);
    QuotientIsTrivial(w, n, t, k);
    if t == k {
      forall q | 0 <= q < n
        ensures Powers(z)(q) == ONE
      {
        PowOfOne(q);
      }
      SumOfOnes(Powers(z), n);
      MulComm(f(t), Complex(n as real, 0.0));
    } else {
      GeometricSumVanishes(z, n);
      MulUnits(f(t));
    }
  }

  // ----- circular convolution -----

  /** The index `(k - t) mod n`. */
  function Lag(n: int, k: int, t: int): int {
    if t <= k then k - t else k + n - t
  }

  /** `sum(t < n) a(t) * h((k - t) mod n)`, for `k < n`. */
  function Circular(a: int -> Complex, h: int -> Complex, n: int): int -> Complex {
    (k: int) => Sum(CircularTerm(a, h, n, k), n)
  }

  function CircularTerm(a: int -> Complex, h: int -> Complex, n: int, k: int): int -> Complex {
    (t: int) => Mul(a(t), h(Lag(n, k, t)))
  }

  /** Summing a periodic function over a rotated period changes nothing. */
  lemma SumRotate(g: int -> Complex, r: int -> Complex, n: nat, t: nat)
    requires t < n
    requires forall k :: 0 <= k < n ==> r(k) == g(Lag(n, k, t))
    ensures Sum(r, n) == Sum(g, n)
  {
    hide Add, Sum;
    var low, high := Shifted(r, t), Shifted(g, n - t);
    SumConcat(r, t, n - t);
    SumCong(r, high, t);
    SumCong(low, g, n - t);
    SumConcat(g, n - t, t);
    AddLaws(Sum(high, t), Sum(g, n - t), ZERO);
  }

  /** `w^(q*k) == w^(q*t) * w^(q*lag)`: going from `t` to `k` around the circle. */
  lemma LagPower(w: Complex, n: nat, q: nat, k: nat, t: nat)
    requires Pow(w, n) == ONE && k < n && t < n
    ensures Pow(w, q * k) == Mul(Pow(w, q * t), Pow(w, q * Lag(n, k, t)))
  {
    hide Mul, Pow;
    PowAdd(w, q * t, q * Lag(n, k, t));
    if t <= k {
      assert q * t + q * (k - t) == q * k;
    } else {
      assert q * t + q * (k + n - t) == q * k + n * q;
      PowPeriodic(w, n, q * k, q);
    }
  }

  /** The transform of a circular convolution is the product of the transforms. */
  lemma ConvolutionTheorem(a: int -> Complex, h: int -> Complex, n: nat, w: Complex, q: nat)
    requires Pow(w, n) == ONE
    ensures Dft(Circular(a, h, n), n, w, q) == Mul(Dft(a, n, w, q), Dft(h, n, w, q))
  {
    hide Mul, Pow, Sum, Add;
    var cell := (k: int, t: int) => Mul(Mul(a(t), h(Lag(n, k, t))), Pow(w, q * k));
    var rows := DftTerm(Circular(a, h, n), w, q);
    var cols := (t: int) => Sum((k: int) => cell(k, t), n);
    forall k | 0 <= k < n
      ensures rows(k) == Sum((t: int) => cell(k, t), n)
    {
      var p := Pow(w, q * k);
      forall t | 0 <= t < n
        ensures cell(k, t) == Mul(p, CircularTerm(a, h, n, k)(t))
      {
        MulComm(p, CircularTerm(a, h, n, k)(t));
      }
      SumMul(p, CircularTerm(a, h, n, k), (t: int) => cell(k, t), n);
      MulComm(p, Circular(a, h, n)(k));
    }
    SumSwap(cell, rows, cols, n, n);
    var H := Dft(h, n, w, q);
    forall t | 0 <= t < n
      ensures cols(t) == Mul(H, DftTerm(a, w, q)(t))
    {
      ConvolutionColumn(a, h, n, w, q, t, (k: int) => cell(k, t));
      MulComm(H, DftTerm(a, w, q)(t));
    }
    SumMul(H, DftTerm(a, w, q), cols, n);
    MulComm(H, Dft(a, n, w, q));
  }

  lemma ConvolutionCell(x: Complex, y: Complex, w: Complex, n: nat, q: nat, k: nat, t: nat)
    requires Pow(w, n) == ONE && k < n && t < n
    ensures Mul(Mul(x, y), Pow(w, q * k)) == Mul(Mul(x, Pow(w, q * t)), Mul(y, Pow(w, q * Lag(n, k, t))))
  {
    hide Mul, Pow;
    LagPower(w, n, q, k, t);
    MulShuffle(x, y, Pow(w, q * t), Pow(w, q * Lag(n, k, t)));
  }

  lemma ConvolutionColumn(a: int -> Complex, h: int -> Complex, n: nat, w: Complex, q: nat, t: nat,
                          col: int -> Complex)
    requires Pow(w, n) == ONE && t < n
    requires forall k :: 0 <= k < n ==> col(k) == Mul(Mul(a(t), h(Lag(n, k, t))), Pow(w, q * k))
    ensures Sum(col, n) == Mul(DftTerm(a, w, q)(t), Dft(h, n, w, q))
  {
    hide Mul, Pow, Sum, Add;
    var g := DftTerm(h, w, q);
    var r := (k: int) => g(Lag(n, k, t));
    var c := DftTerm(a, w, q)(t);
    forall k | 0 <= k < n
      ensures col(k) == Mul(c, r(k))
    {
      ConvolutionCell(a(t), h(Lag(n, k, t)), w, n, q, k, t);
    }
    SumMul(c, r, col, n);
    SumRotate(g, r, n, t);
  }

  /** Pointwise product of spectra, transformed back: the circular convolution. */
  lemma ConvolveBySpectra(a: int -> Complex, h: int -> Complex, c: int -> Complex, m: nat, w: Complex, k: nat)
    requires Primitive(w, m) && k < m
    requires forall q | 0 <= q < m :: c(q) == Mul(Dft(a, m, w, q), Dft(h, m, w, q))
    ensures Scale(1.0 / m as real, Dft(c, m, Conj(w), k)) == Circular(a, h, m)(k)
  {
    hide Mul, Pow, Conj, Dft, Primitive, Circular, Scale;
    PrimitiveIsRoot(w, m);
    var conv := Circular(a, h, m);
    forall q | 0 <= q < m
      ensures c(q) == Spectrum(conv, m, w)(q)
    {
      ConvolutionTheorem(a, h, m, w, q);
    }
    DftCong(c, Spectrum(conv, m, w), m, Conj(w), k);
    Inversion(conv, m, w, k);
    ScaleCancels(m as real, conv(k));
  }

  lemma ScaleCancels(r: real, a: Complex)
    requires r != 0.0
    ensures Scale(1.0 / r, Mul(Complex(r, 0.0), a)) == a
  {
    var s := 1.0 / r;
    assert s * r == 1.0;
    assert Mul(Complex(r, 0.0), a) == Complex(r * a.re, r * a.im);
    assert s * (r * a.re) == s * r * a.re;
    assert s * (r * a.im) == s * r * a.im;
  }

  // ----- the family of roots -----

  /** `root(n)` stands for `e^(-2*pi*i/n)`; these are the facts about it that the code uses. */
  ghost predicate UnitRoots(root: int -> Complex) {
    root(4) == Complex(0.0, -1.0) && (forall n | n >= 2 :: root(n) != ONE) &&
    forall a, b | a >= 1 && b >= 1 :: Subdivides(root, a, b)
  }

  /** `a` steps of a `1/(a*b)` turn are a step of a `1/b` turn. */
  ghost predicate Subdivides(root: int -> Complex, a: int, b: int) {
    Pow(root(a * b), a) == root(b)
  }

  lemma FirstRoots(root: int -> Complex)
    requires UnitRoots(root)
    ensures root(1) == ONE && root(2) == Neg(ONE)
  {
    hide Pow, Neg;
    assert Subdivides(root, 4, 1) && Subdivides(root, 2, 2);
    QuarterTurns(root(4));
  }

  lemma QuarterTurns(w: Complex)
    requires w == Complex(0.0, -1.0)
    ensures Pow(w, 1) == w && Pow(w, 2) == Neg(ONE) && Pow(w, 3) == Complex(0.0, 1.0) && Pow(w, 4) == ONE
  {
    PowZero(w);
    PowStep(w, 1);
    PowStep(w, 2);
    PowStep(w, 3);
    PowStep(w, 4);
    hide Pow;
  }

  lemma UnitRoot(root: int -> Complex, n: nat)
    requires UnitRoots(root) && n >= 1
    ensures Pow(root(n), n) == ONE && (n % 2 == 0 ==> Pow(root(n), n / 2) == Neg(ONE))
  {
    hide Pow, Neg;
    FirstRoots(root);
    assert Subdivides(root, n, 1);
    if n % 2 == 0 {
      assert Subdivides(root, n / 2, 2);
    }
  }
}

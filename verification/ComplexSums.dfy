/** Complex numbers over the reals, integer powers and finite sums: the algebra
    that the FFT code computes in floating point. The ring laws are proved once,
    from the definitions; every later lemma hides the arithmetic and calls them. */
module ComplexSums {

  datatype Complex = Complex(re: real, im: real)

  const ZERO := Complex(0.0, 0.0)
  const ONE := Complex(1.0, 0.0)

  function Add(a: Complex, b: Complex): Complex {
    Complex(a.re + b.re, a.im + b.im)
  }

  function Neg(a: Complex): Complex {
    Complex(-a.re, -a.im)
  }

  function Sub(a: Complex, b: Complex): Complex {
    Complex(a.re - b.re, a.im - b.im)
  }

  function Mul(a: Complex, b: Complex): Complex {
    Complex(a.re * b.re - a.im * b.im, a.re * b.im + a.im * b.re)
  }

  function Conj(a: Complex): Complex {
    Complex(a.re, -a.im)
  }

  function Scale(r: real, a: Complex): Complex {
    Complex(r * a.re, r * a.im)
  }

  /** Squared modulus. */
  function Norm(a: Complex): real {
    a.re * a.re + a.im * a.im
  }

  // ----- ring laws -----

  lemma AddLaws(a: Complex, b: Complex, c: Complex)
    ensures Add(a, b) == Add(b, a)
    ensures Add(Add(a, b), c) == Add(a, Add(b, c))
    ensures Add(a, ZERO) == a && Add(ZERO, a) == a
    ensures Sub(a, b) == Add(a, Neg(b))
  {
  }

  lemma MulComm(a: Complex, b: Complex)
    ensures Mul(a, b) == Mul(b, a)
  {
  }

  lemma MulAssoc(a: Complex, b: Complex, c: Complex)
    ensures Mul(Mul(a, b), c) == Mul(a, Mul(b, c))
  {
  }

  lemma MulUnits(a: Complex)
    ensures Mul(a, ONE) == a && Mul(ONE, a) == a
    ensures Mul(a, ZERO) == ZERO && Mul(ZERO, a) == ZERO
    ensures Mul(Neg(ONE), a) == Neg(a) && Mul(a, Neg(ONE)) == Neg(a)
  {
  }

  lemma Distribute(a: Complex, b: Complex, c: Complex)
    ensures Mul(a, Add(b, c)) == Add(Mul(a, b), Mul(a, c))
    ensures Mul(Add(b, c), a) == Add(Mul(b, a), Mul(c, a))
  {
  }

  /** `(a b)(c d) == (a c)(b d)`: the reshuffle nearly every product proof needs. */
  lemma MulShuffle(a: Complex, b: Complex, c: Complex, d: Complex)
    ensures Mul(Mul(a, b), Mul(c, d)) == Mul(Mul(a, c), Mul(b, d))
  {
    hide *;
    MulAssoc(a, b, Mul(c, d));
    MulAssoc(b, c, d);
    MulComm(b, c);
    MulAssoc(c, b, d);
    MulAssoc(a, c, Mul(b, d));
  }

  lemma ConjAdd(a: Complex, b: Complex)
    ensures Conj(Add(a, b)) == Add(Conj(a), Conj(b))
  {
  }

  lemma ConjReal(a: Complex)
    requires a.im == 0.0
    ensures Conj(a) == a
  {
  }

  lemma ConjTwice(a: Complex)
    ensures Conj(Conj(a)) == a
  {
  }

  lemma NegTwice(a: Complex)
    ensures Neg(Neg(a)) == a
  {
  }

  lemma ConjMul(a: Complex, b: Complex)
    ensures Conj(Mul(a, b)) == Mul(Conj(a), Conj(b))
  {
    var x, y, u, v := a.re, a.im, b.re, b.im;
    assert y * v == (-y) * (-v);
    assert x * (-v) + (-y) * u == -(x * v + y * u);
  }

  lemma ConjIsInverse(a: Complex)
    requires Norm(a) == 1.0
    ensures Mul(a, Conj(a)) == ONE && Mul(Conj(a), a) == ONE
  {
  }

  lemma NormMul(a: Complex, b: Complex)
    ensures Norm(Mul(a, b)) == Norm(a) * Norm(b)
  {
  }

  lemma NormZero(a: Complex)
    ensures Norm(a) >= 0.0
    ensures Norm(a) == 0.0 <==> a == ZERO
  {
    Square(a.re);
    Square(a.im);
  }

  lemma Square(x: real)
    ensures x * x >= 0.0
    ensures x * x == 0.0 <==> x == 0.0
  {
    if x * x == 0.0 {
      RealNoZeroDivisors(x, x);
    }
  }

  /** The complex numbers have no zero divisors. */
  lemma NoZeroDivisors(a: Complex, b: Complex)
    requires Mul(a, b) == ZERO
    ensures a == ZERO || b == ZERO
  {
    hide Mul, Norm;
    NormMul(a, b);
    NormZero(a);
    NormZero(b);
    NormZero(Mul(a, b));
    RealNoZeroDivisors(Norm(a), Norm(b));
  }

  lemma RealNoZeroDivisors(x: real, y: real)
    requires x * y == 0.0
    ensures x == 0.0 || y == 0.0
  {
  }

  /** A factor keeps a number only if it is one or the number zero. */
  lemma KeepsExactly(x: real, y: real)
    ensures x * y == y <==> x == 1.0 || y == 0.0
  {
    OneLess(x, y);
    if (x - 1.0) * y == 0.0 {
      RealNoZeroDivisors(x - 1.0, y);
    }
  }

  lemma OneLess(x: real, y: real)
    ensures (x - 1.0) * y == x * y - y
    ensures x == 1.0 || y == 0.0 ==> x * y == y
  {
  }

  // ----- powers -----

  /** `w^k`; only `k >= 0` is ever meant. */
  function Pow(w: Complex, k: int): Complex {
    if k <= 0 then ONE else Mul(w, Pow(w, k - 1))
  }

  lemma {:induction false} PowAdd(w: Complex, a: nat, b: nat)
    ensures Pow(w, a + b) == Mul(Pow(w, a), Pow(w, b))
  {
    hide Mul;
    if a == 0 {
      MulUnits(Pow(w, b));
    } else {
      PowAdd(w, a - 1, b);
      MulAssoc(w, Pow(w, a - 1), Pow(w, b));
    }
  }

  lemma {:induction false} PowMul(w: Complex, a: nat, b: nat)
    ensures Pow(Pow(w, a), b) == Pow(w, a * b)
  {
    hide Mul;
    if b == 0 {
    } else {
      PowMul(w, a, b - 1);
      MulNonNeg(a, b - 1);
      PowAdd(w, a, a * (b - 1));
      assert a * b == a + a * (b - 1);
    }
  }

  lemma MulNonNeg(a: nat, b: nat)
    ensures a * b >= 0
  {
  }

  lemma {:induction false} PowOfOne(k: nat)
    ensures Pow(ONE, k) == ONE
  {
    hide Mul;
    if k > 0 {
      PowOfOne(k - 1);
      MulUnits(ONE);
    }
  }

  lemma {:induction false} PowOfProduct(a: Complex, b: Complex, k: nat)
    ensures Pow(Mul(a, b), k) == Mul(Pow(a, k), Pow(b, k))
  {
    hide Mul;
    if k == 0 {
      MulUnits(ONE);
    } else {
      PowOfProduct(a, b, k - 1);
      MulShuffle(a, b, Pow(a, k - 1), Pow(b, k - 1));
    }
  }

  lemma {:induction false} PowConj(w: Complex, k: nat)
    ensures Pow(Conj(w), k) == Conj(Pow(w, k))
  {
    hide Mul, Conj;
    if k == 0 {
      ConjReal(ONE);
    } else {
      PowConj(w, k - 1);
      ConjMul(w, Pow(w, k - 1));
    }
  }

  /** Exponents of an `n`-th root of unity count modulo `n`. */
  lemma PowPeriodic(w: Complex, n: nat, a: nat, q: nat)
    requires Pow(w, n) == ONE
    ensures Pow(w, a + n * q) == Pow(w, a)
  {
    hide Mul, Pow;
    MulNonNeg(n, q);
    PowMul(w, n, q);
    PowOfOne(q);
    PowAdd(w, a, n * q);
    MulUnits(Pow(w, a));
  }

  lemma {:induction false} PowNegOneOdd(k: nat)
    requires k % 2 == 1
    ensures Pow(Neg(ONE), k) == Neg(ONE)
  {
    hide Mul, Neg;
    MulUnits(ONE);
    MulUnits(Neg(ONE));
    NegTwice(ONE);
    if k > 1 {
      PowNegOneOdd(k - 2);
      assert Pow(Neg(ONE), k) == Mul(Neg(ONE), Mul(Neg(ONE), Pow(Neg(ONE), k - 2)));
    } else {
      assert Pow(Neg(ONE), 1) == Mul(Neg(ONE), Pow(Neg(ONE), 0));
    }
  }

  // ----- roots of unity have modulus one -----

  function RealPow(x: real, k: nat): real {
    if k == 0 then 1.0 else x * RealPow(x, k - 1)
  }

  lemma {:induction false} NormPow(w: Complex, k: nat)
    ensures Norm(Pow(w, k)) == RealPow(Norm(w), k)
  {
    hide Norm, Mul;
    if k == 0 {
      NormOne();
    } else {
      NormPow(w, k - 1);
      NormMul(w, Pow(w, k - 1));
    }
  }

  lemma NormOne()
    ensures Norm(ONE) == 1.0
  {
  }

  lemma {:induction false} RealPowBounds(x: real, k: nat)
    requires x >= 0.0
    ensures RealPow(x, k) >= 0.0
    ensures x < 1.0 && k > 0 ==> RealPow(x, k) < 1.0
    ensures x > 1.0 && k > 0 ==> RealPow(x, k) > 1.0
  {
    if k > 0 {
      RealPowBounds(x, k - 1);
      var p := RealPow(x, k - 1);
      if x < 1.0 {
        assert p <= 1.0;
        assert x * p <= x;
      } else if x > 1.0 {
        assert p >= 1.0;
        assert x * p >= x;
      }
    }
  }

  lemma RootHasNormOne(w: Complex, n: nat)
    requires n > 0 && Pow(w, n) == ONE
    ensures Norm(w) == 1.0
  {
    NormPow(w, n);
    NormZero(w);
    RealPowBounds(Norm(w), n);
  }

  // ----- finite sums -----

  /** `f(0) + ... + f(n - 1)`. */
  function Sum(f: int -> Complex, n: int): Complex {
    if n <= 0 then ZERO else Add(Sum(f, n - 1), f(n - 1))
  }

  lemma {:induction false} SumCong(f: int -> Complex, g: int -> Complex, n: nat)
    requires forall i :: 0 <= i < n ==> f(i) == g(i)
    ensures Sum(f, n) == Sum(g, n)
  {
    hide Add;
    if n > 0 {
      SumCong(f, g, n - 1);
    }
  }

  lemma {:induction false} SumZero(f: int -> Complex, n: nat)
    requires forall i :: 0 <= i < n ==> f(i) == ZERO
    ensures Sum(f, n) == ZERO
  {
    if n > 0 {
      SumZero(f, n - 1);
    }
  }

  lemma {:induction false} SumAdd(f: int -> Complex, g: int -> Complex, h: int -> Complex, n: nat)
    requires forall i :: 0 <= i < n ==> h(i) == Add(f(i), g(i))
    ensures Sum(h, n) == Add(Sum(f, n), Sum(g, n))
  {
    if n > 0 {
      SumAdd(f, g, h, n - 1);
    }
  }

  lemma {:induction false} SumMul(c: Complex, f: int -> Complex, g: int -> Complex, n: nat)
    requires forall i :: 0 <= i < n ==> g(i) == Mul(c, f(i))
    ensures Sum(g, n) == Mul(c, Sum(f, n))
  {
    hide Add, Mul;
    if n == 0 {
      MulUnits(c);
    } else {
      SumMul(c, f, g, n - 1);
      Distribute(c, Sum(f, n - 1), f(n - 1));
    }
  }

  lemma {:induction false} SumConj(f: int -> Complex, g: int -> Complex, n: nat)
    requires forall i :: 0 <= i < n ==> g(i) == Conj(f(i))
    ensures Sum(g, n) == Conj(Sum(f, n))
  {
    hide Add, Conj;
    if n == 0 {
      ConjReal(ZERO);
    } else {
      SumConj(f, g, n - 1);
      ConjAdd(Sum(f, n - 1), f(n - 1));
    }
  }

  /** `f` with its argument shifted by `base`. */
  function Shifted(f: int -> Complex, base: int): int -> Complex {
    (i: int) => f(base + i)
  }

  /** A sum over `a + b` terms is the sum of the first `a` plus the sum of the rest. */
  lemma {:induction false} SumConcat(f: int -> Complex, a: nat, b: nat)
    ensures Sum(f, a + b) == Add(Sum(f, a), Sum(Shifted(f, a), b))
  {
    hide Add;
    if b == 0 {
      AddLaws(Sum(f, a), ZERO, ZERO);
    } else {
      SumConcat(f, a, b - 1);
      AddLaws(Sum(f, a), Sum(Shifted(f, a), b - 1), f(a + b - 1));
    }
  }

  /** `sum(t < rows*cols) f(t) == sum(i < rows) sum(j < cols) f(i*cols + j)`. */
  lemma {:induction false} SumByRows(f: int -> Complex, row: int -> Complex, rows: nat, cols: nat)
    requires forall i :: 0 <= i < rows ==> row(i) == Sum(Shifted(f, i * cols), cols)
    ensures Sum(f, rows * cols) == Sum(row, rows)
  {
    hide Add, Shifted;
    if rows == 0 {
      assert rows * cols == 0;
    } else {
      SumByRows(f, row, rows - 1, cols);
      var base := (rows - 1) * cols;
      assert base + cols == rows * cols;
      MulNonNeg(rows - 1, cols);
      SumConcat(f, base, cols);
    }
  }

  /** Exchange of a double sum. */
  lemma {:induction false} SumSwap(f: (int, int) -> Complex, rows: int -> Complex, cols: int -> Complex, n: nat, m: nat)
    requires forall i :: 0 <= i < n ==> rows(i) == Sum((j: int) => f(i, j), m)
    requires forall j :: 0 <= j < m ==> cols(j) == Sum((i: int) => f(i, j), n)
    ensures Sum(rows, n) == Sum(cols, m)
  {
    hide Add;
    if n == 0 {
      SumZero(cols, m);
    } else {
      var shorter := (j: int) => Sum((i: int) => f(i, j), n - 1);
      SumSwap(f, rows, shorter, n - 1, m);
      SumAdd(shorter, (j: int) => f(n - 1, j), cols, m);
    }
  }

  /** All but one term vanish. */
  lemma {:induction false} SumSingle(f: int -> Complex, n: nat, k: nat)
    requires k < n
    requires forall i :: 0 <= i < n && i != k ==> f(i) == ZERO
    ensures Sum(f, n) == f(k)
  {
    if k == n - 1 {
      SumZero(f, n - 1);
    } else {
      SumSingle(f, n - 1, k);
    }
  }
}

/** The hand-written butterflies of radix 2 to 8 compute the small transforms. Their decimal constants
    are taken as the exact numbers they round, read off the roots of unity. */
module RadixCodelets {
  import opened ComplexSums
  import opened FourierSpec

  // ----- vocabulary -----

  /** `{z.y, -z.x}`. */
  function Back(z: Complex): Complex {
    Complex(z.im, -z.re)
  }

  /** `{-z.y, z.x}`. */
  function Forth(z: Complex): Complex {
    Complex(-z.im, z.re)
  }

  function SinPi3(root: int -> Complex): real {
    -root(6).im
  }

  function Root54(root: int -> Complex): real {
    root(5).re + 0.25
  }

  function Sin2Pi5(root: int -> Complex): real {
    -root(5).im
  }

  function Sin1Pi5(root: int -> Complex): real {
    -Mul(root(5), root(5)).im
  }

  function CosPi4(root: int -> Complex): real {
    root(8).re
  }

  // ----- the codelets -----

  function Radix2(x: seq<Complex>): (y: seq<Complex>)
    requires |x| == 2
    ensures |y| == 2
  {
    [Add(x[0], x[1]), Sub(x[0], x[1])]
  }

  function Radix3(x: seq<Complex>, sin: real): (y: seq<Complex>)
    requires |x| == 3
    ensures |y| == 3
  {
    var a1, a2 := Add(x[1], x[2]), Sub(x[1], x[2]);
    var b1, b2 := Sub(x[0], Scale(0.5, a1)), Forth(Scale(-sin, a2));
    [Add(x[0], a1), Add(b1, b2), Sub(b1, b2)]
  }

  function Radix4(x: seq<Complex>): (y: seq<Complex>)
    requires |x| == 4
    ensures |y| == 4
  {
    var z0, z1, z2, z3 := Add(x[0], x[2]), Sub(x[0], x[2]), Add(x[1], x[3]), Back(Sub(x[1], x[3]));
    [Add(z0, z2), Add(z1, z3), Sub(z0, z2), Sub(z1, z3)]
  }

  function Radix5(x: seq<Complex>, root54: real, sin2: real, sin1: real): (y: seq<Complex>)
    requires |x| == 5
    ensures |y| == 5
  {
    var a1, a2, a3, a4 := Add(x[1], x[4]), Add(x[2], x[3]), Sub(x[1], x[4]), Sub(x[2], x[3]);
    var a5, a6 := Add(a1, a2), Scale(root54, Sub(a1, a2));
    var a7 := Sub(x[0], Scale(0.25, a5));
    var a8, a9 := Add(a7, a6), Sub(a7, a6);
    var a10 := Back(Add(Scale(sin2, a3), Scale(sin1, a4)));
    var a11 := Back(Sub(Scale(sin1, a3), Scale(sin2, a4)));
    [Add(x[0], a5), Add(a8, a10), Add(a9, a11), Sub(a9, a11), Sub(a8, a10)]
  }

  function Radix6(x: seq<Complex>, sin: real): (y: seq<Complex>)
    requires |x| == 6
    ensures |y| == 6
  {
    var a1 := Add(x[2], x[4]);
    var a2, a3 := Sub(x[0], Scale(0.5, a1)), Back(Scale(sin, Sub(x[2], x[4])));
    var a4 := Add(x[5], x[1]);
    var a5, a6 := Sub(x[3], Scale(0.5, a4)), Back(Scale(sin, Sub(x[5], x[1])));
    var a7, a8, a9 := Add(x[0], a1), Add(a2, a3), Sub(a2, a3);
    var a10, a11, a12 := Add(x[3], a4), Add(a5, a6), Sub(a5, a6);
    [Add(a7, a10), Sub(a8, a11), Add(a9, a12), Sub(a7, a10), Add(a8, a11), Sub(a9, a12)]
  }

  /** The powers of 3 and of its inverse 5, modulo 7. */
  function Up(p: int): int {
    if p == 0 then 1 else if p == 1 then 3 else if p == 2 then 2 else if p == 3 then 6 else if p == 4 then 4 else 5
  }

  function Down(q: int): int {
    if q == 0 then 1 else if q == 1 then 5 else if q == 2 then 4 else if q == 3 then 6 else if q == 4 then 2 else 3
  }

  function RaderKernel(w: Complex): int -> Complex {
    (j: int) => Pow(w, Down(j))
  }

  /** The six constants of radix 7: the spectrum of the kernel. */
  function RaderConstant(root: int -> Complex, k: int): Complex {
    if k == 0 then Complex(-1.0, 0.0) else Dft(RaderKernel(root(7)), 6, root(6), k)
  }

  /** `cmulconj`. */
  function ConjMultiply(a: Complex, b: Complex): Complex {
    Conj(Mul(a, b))
  }

  /** `x * inv + x0`, where the multiplication by `(1/6, -1/6)` is componentwise. */
  function RaderOut(z: Complex, x0: Complex): Complex {
    Add(Complex(z.re / 6.0, -z.im / 6.0), x0)
  }

  function RaderIn(x: seq<Complex>): (a: seq<Complex>)
    requires |x| == 7
    ensures |a| == 6
  {
    [x[1], x[3], x[2], x[6], x[4], x[5]]
  }

  function RaderMiddle(a: seq<Complex>, root: int -> Complex): (b: seq<Complex>)
    requires |a| == 6
    ensures |b| == 6
  {
    seq(6, k requires 0 <= k < 6 => ConjMultiply(a[k], RaderConstant(root, k)))
  }

  /** Rader's algorithm: a length-6 convolution. */
  function Radix7(x: seq<Complex>, root: int -> Complex): (y: seq<Complex>)
    requires |x| == 7
    ensures |y| == 7
  {
    var a := Radix6(RaderIn(x), SinPi3(root));
    var z := Radix6(RaderMiddle(a, root), SinPi3(root));
    [Add(a[0], x[0]), RaderOut(z[0], x[0]), RaderOut(z[4], x[0]), RaderOut(z[5], x[0]),
     RaderOut(z[2], x[0]), RaderOut(z[1], x[0]), RaderOut(z[3], x[0])]
  }

  function Radix8(x: seq<Complex>, cos: real): (y: seq<Complex>)
    requires |x| == 8
    ensures |y| == 8
  {
    var e, o := Radix4([x[0], x[2], x[4], x[6]]), Radix4([x[1], x[3], x[5], x[7]]);
    var o1, o2, o3 := Mul(o[1], Complex(cos, -cos)), Back(o[2]), Mul(o[3], Complex(-cos, -cos));
    [Add(e[0], o[0]), Add(e[1], o1), Add(e[2], o2), Add(e[3], o3),
     Sub(e[0], o[0]), Sub(e[1], o1), Sub(e[2], o2), Sub(e[3], o3)]
  }

  // ----- multiplying by constants -----

  lemma Units(a: Complex)
    ensures Mul(a, ONE) == a && Mul(a, Neg(ONE)) == Neg(a)
    ensures Mul(a, Complex(0.0, -1.0)) == Back(a) && Mul(a, Complex(0.0, 1.0)) == Forth(a)
  {
  }

  /** Scaling is linear. */
  lemma Linear(s: real, a: Complex, b: Complex)
    ensures Scale(s, Add(a, b)) == Add(Scale(s, a), Scale(s, b)) && Scale(s, Sub(a, b)) == Sub(Scale(s, a), Scale(s, b))
    ensures Scale(-s, a) == Neg(Scale(s, a))
  {
  }

  /** Multiplication by `(c, s)` and its reflections. */
  lemma By(a: Complex, c: real, s: real)
    ensures Mul(a, Complex(c, s)) == Add(Scale(c, a), Forth(Scale(s, a)))
    ensures Mul(a, Complex(c, -s)) == Sub(Scale(c, a), Forth(Scale(s, a)))
    ensures Mul(a, Complex(-c, s)) == Sub(Forth(Scale(s, a)), Scale(c, a))
    ensures Mul(a, Complex(-c, -s)) == Neg(Add(Scale(c, a), Forth(Scale(s, a))))
  {
  }

  // ----- short sums -----

  lemma FirstTerm(a: Complex)
    ensures Add(ZERO, a) == a
  {
  }

  lemma Sum4(f: int -> Complex)
    ensures Sum(f, 4) == Add(Add(Add(f(0), f(1)), f(2)), f(3))
  {
    hide Add;
    FirstTerm(f(0));
    assert Sum(f, 0) == ZERO;
  }

  lemma Sum6(f: int -> Complex)
    ensures Sum(f, 6) == Add(Add(Add(f(0), f(3)), Add(f(1), f(5))), Add(f(2), f(4)))
  {
    assert Sum(f, 6) == Add(Add(Sum(f, 4), f(4)), f(5));
    Sum4(f);
    hide Sum;
  }

  /** Exponents count modulo the order. */
  lemma PowReduced(w: Complex, n: nat, k: nat)
    requires n > 0 && Pow(w, n) == ONE
    ensures Pow(w, k) == Pow(w, k % n)
  {
    hide Pow;
    PowPeriodic(w, n, k % n, k / n);
    assert k == k % n + n * (k / n);
  }

  lemma PowOne(w: Complex)
    ensures Pow(w, 0) == ONE && Pow(w, 1) == w && Pow(w, 2) == Mul(w, w)
  {
    hide Mul;
    MulUnits(w);
    assert Pow(w, 1) == Mul(w, Pow(w, 0));
    assert Pow(w, 2) == Mul(w, Pow(w, 1));
  }

  /** Counting back is conjugating. */
  lemma PowConjugate(w: Complex, n: nat, k: nat)
    requires Pow(w, n) == ONE && 0 < n && k <= n
    ensures Pow(w, n - k) == Conj(Pow(w, k))
  {
    hide Pow, Mul, Conj, Norm;
    RootHasNormOne(w, n);
    ConjIsInverse(w);
    PowOfProduct(w, Conj(w), k);
    PowOfOne(k);
    PowConj(w, k);
    PowAdd(w, n - k, k);
    var a, b, c := Pow(w, n - k), Pow(w, k), Conj(Pow(w, k));
    MulAssoc(a, b, c);
    MulUnits(a);
    MulUnits(c);
  }

  /** One term of a small transform. */
  lemma Term(x: seq<Complex>, w: Complex, q: nat, t: nat, e: nat)
    requires t < |x| && Pow(w, |x|) == ONE && e == (q * t) % |x|
    ensures DftTerm(View(x, 0), w, q)(t) == Mul(x[t], Pow(w, e))
  {
    hide Pow, Mul;
    MulNonNeg(q, t);
    PowReduced(w, |x|, q * t);
  }

  // ----- radix 2, 3, 4 -----

  lemma HalfTurnRow(a: Complex, b: Complex)
    ensures Add(Mul(a, ONE), Mul(b, ONE)) == Add(a, b) && Add(Mul(a, ONE), Mul(b, Neg(ONE))) == Sub(a, b)
  {
  }

  lemma Radix2Correct(x: seq<Complex>, w: Complex, q: nat)
    requires |x| == 2 && q < 2 && w == Neg(ONE) && Pow(w, 2) == ONE
    ensures Radix2(x)[q] == Dft(View(x, 0), 2, w, q)
  {
    hide Pow, Mul, Add, Sub, Neg;
    Term(x, w, q, 0, 0);
    Term(x, w, q, 1, q);
    PowOne(w);
    HalfTurnRow(x[0], x[1]);
    Sum2(DftTerm(View(x, 0), w, q));
  }

  lemma Sum2(f: int -> Complex)
    ensures Sum(f, 2) == Add(f(0), f(1))
  {
    hide Add;
    FirstTerm(f(0));
    assert Sum(f, 0) == ZERO;
    assert Sum(f, 1) == Add(Sum(f, 0), f(0));
  }

  lemma Sum3(f: int -> Complex)
    ensures Sum(f, 3) == Add(Add(f(0), f(1)), f(2))
  {
    hide Add;
    Sum2(f);
  }

  lemma ConjugatePairs(w: Complex, n: nat)
    requires Pow(w, n) == ONE && n > 2
    ensures Pow(w, n - 1) == Conj(w) && Pow(w, n - 2) == Conj(Mul(w, w)) && Pow(w, 0) == ONE && Pow(w, 1) == w && Pow(w, 2) == Mul(w, w)
  {
    hide Pow, Mul, Conj;
    PowOne(w);
    PowConjugate(w, n, 1);
    PowConjugate(w, n, 2);
  }

  lemma ThirdRootReal(w: Complex)
    requires Pow(w, 3) == ONE && w != ONE
    ensures w.re == -0.5 && Pow(w, 2) == Conj(w)
  {
    hide Pow, Mul, Sum;
    GeometricSumVanishes(w, 3);
    Sum3(Powers(w));
    ConjugatePairs(w, 3);
  }

  /** The third and the sixth root. */
  lemma ThirdRoot(root: int -> Complex)
    requires UnitRoots(root)
    ensures var s := SinPi3(root);
            root(3) == Complex(-0.5, -s) && root(6) == Complex(0.5, -s) && Pow(root(3), 3) == ONE == Pow(root(6), 6) &&
            Pow(root(3), 2) == Complex(-0.5, s) && Pow(root(6), 2) == root(3) && Pow(root(6), 3) == Neg(ONE)
  {
    hide Pow, Mul;
    var w, v := root(3), root(6);
    UnitRoot(root, 3);
    UnitRoot(root, 6);
    ThirdRootReal(w);
    assert Subdivides(root, 2, 3);
    ConjugatePairs(v, 6);
    PowAdd(v, 2, 3);
    MulUnits(w);
    assert Conj(v) == Neg(w);
  }

  lemma Row3(x: seq<Complex>, s: real)
    requires |x| == 3
    ensures var w, c := Complex(-0.5, -s), Complex(-0.5, s);
            Radix3(x, s)[0] == Add(Add(Mul(x[0], ONE), Mul(x[1], ONE)), Mul(x[2], ONE)) &&
            Radix3(x, s)[1] == Add(Add(Mul(x[0], ONE), Mul(x[1], w)), Mul(x[2], c)) &&
            Radix3(x, s)[2] == Add(Add(Mul(x[0], ONE), Mul(x[1], c)), Mul(x[2], w))
  {
    hide Mul, Scale;
    Units(x[0]);
    Units(x[1]);
    Units(x[2]);
    Linear(0.5, x[1], x[2]);
    Linear(s, x[1], x[2]);
    Linear(s, Sub(x[1], x[2]), ZERO);
    By(x[1], 0.5, s);
    By(x[2], 0.5, s);
  }

  lemma Radix3Correct(x: seq<Complex>, root: int -> Complex, q: nat)
    requires UnitRoots(root) && |x| == 3 && q < 3
    ensures Radix3(x, SinPi3(root))[q] == Dft(View(x, 0), 3, root(3), q)
  {
    hide Pow, Mul, Add, Sum, Radix3, UnitRoots;
    var w := root(3);
    ThirdRoot(root);
    PowOne(w);
    Term(x, w, q, 0, 0);
    Term(x, w, q, 1, q);
    Term(x, w, q, 2, (q * 2) % 3);
    Sum3(DftTerm(View(x, 0), w, q));
    Row3(x, SinPi3(root));
  }

  lemma Row4(x: seq<Complex>)
    requires |x| == 4
    ensures var w, h, c := Complex(0.0, -1.0), Neg(ONE), Complex(0.0, 1.0);
            Radix4(x)[0] == Add(Add(Add(Mul(x[0], ONE), Mul(x[1], ONE)), Mul(x[2], ONE)), Mul(x[3], ONE)) &&
            Radix4(x)[1] == Add(Add(Add(Mul(x[0], ONE), Mul(x[1], w)), Mul(x[2], h)), Mul(x[3], c)) &&
            Radix4(x)[2] == Add(Add(Add(Mul(x[0], ONE), Mul(x[1], h)), Mul(x[2], ONE)), Mul(x[3], h)) &&
            Radix4(x)[3] == Add(Add(Add(Mul(x[0], ONE), Mul(x[1], c)), Mul(x[2], h)), Mul(x[3], w))
  {
    hide Mul;
    Units(x[0]);
    Units(x[1]);
    Units(x[2]);
    Units(x[3]);
  }

  lemma Radix4Correct(x: seq<Complex>, w: Complex, q: nat)
    requires w == Complex(0.0, -1.0) && |x| == 4 && q < 4
    ensures Radix4(x)[q] == Dft(View(x, 0), 4, w, q)
  {
    hide Pow, Mul, Add, Sum, Neg, Radix4;
    QuarterTurns(w);
    PowOne(w);
    Term(x, w, q, 0, 0);
    Term(x, w, q, 1, q);
    Term(x, w, q, 2, (q * 2) % 4);
    Term(x, w, q, 3, (q * 3) % 4);
    Sum4(DftTerm(View(x, 0), w, q));
    Row4(x);
  }

  // ----- radix 5 -----

  /** Conjugate coefficients act on sum and difference. */
  lemma Pair(a: Complex, b: Complex, c: real, s: real)
    ensures Add(Mul(a, Complex(c, -s)), Mul(b, Complex(c, s))) == Paired(Add(a, b), Sub(a, b), c, s)
    ensures Add(Mul(a, Complex(c, s)), Mul(b, Complex(c, -s))) == Paired(Add(a, b), Sub(a, b), c, -s)
  {
    hide Mul, Scale;
    By(a, c, s);
    By(b, c, s);
    Linear(c, a, b);
    BackLinear(s, a, b);
    Linear(s, Back(Sub(a, b)), ZERO);
  }

  lemma BackLinear(s: real, a: Complex, b: Complex)
    ensures Scale(s, Back(Sub(a, b))) == Sub(Back(Scale(s, a)), Back(Scale(s, b)))
    ensures Back(Scale(s, a)) == Neg(Forth(Scale(s, a)))
  {
    Linear(s, a, b);
    hide Scale;
    BackScale(s, Sub(a, b));
  }

  lemma BackScale(s: real, a: Complex)
    ensures Scale(s, Back(a)) == Back(Scale(s, a))
  {
  }

  /** Sums of coefficients. */
  lemma Coefficients(r: real, k: real, a: Complex)
    ensures Scale(r - k, a) == Sub(Scale(r, a), Scale(k, a)) && Scale(-k - r, a) == Neg(Add(Scale(k, a), Scale(r, a)))
  {
  }

  function Paired(sum: Complex, difference: Complex, c: real, s: real): Complex {
    Add(Scale(c, sum), Scale(s, Back(difference)))
  }

  lemma Sum5(f: int -> Complex)
    ensures Sum(f, 5) == Add(Add(f(0), Add(f(1), f(4))), Add(f(2), f(3)))
  {
    assert Sum(f, 5) == Add(Sum(f, 4), f(4));
    Sum4(f);
    hide Sum;
  }

  lemma FifthRoot(root: int -> Complex)
    requires UnitRoots(root)
    ensures var w, r, s2, s1 := root(5), Root54(root), Sin2Pi5(root), Sin1Pi5(root);
            w == Complex(r - 0.25, -s2) && Pow(w, 5) == ONE && Pow(w, 0) == ONE && Pow(w, 1) == w &&
            Pow(w, 2) == Complex(-0.25 - r, -s1) && Pow(w, 3) == Complex(-0.25 - r, s1) && Pow(w, 4) == Complex(r - 0.25, s2)
  {
    hide Pow, Mul, Sum;
    var w := root(5);
    UnitRoot(root, 5);
    GeometricSumVanishes(w, 5);
    Sum5(Powers(w));
    ConjugatePairs(w, 5);
    assert Pow(w, 2).re == -0.5 - w.re;
  }

  lemma Row5(x: seq<Complex>, r: real, s2: real, s1: real)
    requires |x| == 5
    ensures var a1, a2, a3, a4, y := Add(x[1], x[4]), Add(x[2], x[3]), Sub(x[1], x[4]), Sub(x[2], x[3]), Radix5(x, r, s2, s1);
            y[1] == Add(Add(x[0], Paired(a1, a3, r - 0.25, s2)), Paired(a2, a4, -0.25 - r, s1)) &&
            y[2] == Add(Add(x[0], Paired(a1, a3, -0.25 - r, s1)), Paired(a2, a4, r - 0.25, -s2)) &&
            y[3] == Add(Add(x[0], Paired(a1, a3, -0.25 - r, -s1)), Paired(a2, a4, r - 0.25, s2)) &&
            y[4] == Add(Add(x[0], Paired(a1, a3, r - 0.25, -s2)), Paired(a2, a4, -0.25 - r, -s1))
  {
    hide Scale;
    var a1, a2, a3, a4 := Add(x[1], x[4]), Add(x[2], x[3]), Sub(x[1], x[4]), Sub(x[2], x[3]);
    Coefficients(r, 0.25, a1);
    Coefficients(r, 0.25, a2);
    Linear(r, a1, a2);
    Linear(0.25, a1, a2);
    Turned(s1, a3);
    Turned(s1, a4);
    Turned(s2, a3);
    Turned(s2, a4);
  }

  lemma Turned(s: real, a: Complex)
    ensures Scale(s, Back(a)) == Back(Scale(s, a)) && Scale(-s, Back(a)) == Neg(Back(Scale(s, a)))
  {
    hide Scale;
    BackScale(s, a);
    Linear(s, Back(a), ZERO);
  }

  lemma Radix5Correct(x: seq<Complex>, root: int -> Complex, q: nat)
    requires UnitRoots(root) && |x| == 5 && q < 5
    ensures Radix5(x, Root54(root), Sin2Pi5(root), Sin1Pi5(root))[q] == Dft(View(x, 0), 5, root(5), q)
  {
    hide Pow, Mul, Add, Sub, Sum, Paired, UnitRoots;
    var w, r, s2, s1 := root(5), Root54(root), Sin2Pi5(root), Sin1Pi5(root);
    FifthRoot(root);
    Term(x, w, q, 0, 0);
    Term(x, w, q, 1, q);
    Term(x, w, q, 2, (q * 2) % 5);
    Term(x, w, q, 3, (q * 3) % 5);
    Term(x, w, q, 4, (q * 4) % 5);
    Sum5(DftTerm(View(x, 0), w, q));
    Units(x[0]);
    Pair(x[1], x[4], r - 0.25, s2);
    Pair(x[1], x[4], -0.25 - r, s1);
    Pair(x[2], x[3], r - 0.25, s2);
    Pair(x[2], x[3], -0.25 - r, s1);
    if q == 0 {
      Units(x[1]);
      Units(x[2]);
      Units(x[3]);
      Units(x[4]);
      AddLaws(x[0], Add(x[1], x[4]), Add(x[2], x[3]));
    } else {
      Row5(x, r, s2, s1);
      hide Radix5;
    }
  }

  // ----- radix 6 -----

  lemma SixthRoot(root: int -> Complex)
    requires UnitRoots(root)
    ensures var w, s := root(6), SinPi3(root);
            w == Complex(0.5, -s) && Pow(w, 6) == ONE && Pow(w, 0) == ONE && Pow(w, 1) == w && Pow(w, 2) == Complex(-0.5, -s) &&
            Pow(w, 3) == Neg(ONE) && Pow(w, 4) == Complex(-0.5, s) && Pow(w, 5) == Complex(0.5, s)
  {
    hide Pow, Mul;
    ThirdRoot(root);
    ConjugatePairs(root(6), 6);
  }

  lemma Row6(x: seq<Complex>, s: real)
    requires |x| == 6
    ensures var p1, d1, p2, d2, y := Add(x[1], x[5]), Sub(x[1], x[5]), Add(x[2], x[4]), Sub(x[2], x[4]), Radix6(x, s);
            y[0] == Add(Add(Add(x[0], x[3]), p1), p2) &&
            y[1] == Add(Add(Add(x[0], Neg(x[3])), Paired(p1, d1, 0.5, s)), Paired(p2, d2, -0.5, s)) &&
            y[2] == Add(Add(Add(x[0], x[3]), Paired(p1, d1, -0.5, s)), Paired(p2, d2, -0.5, -s)) &&
            y[3] == Add(Add(Add(x[0], Neg(x[3])), Neg(p1)), p2) &&
            y[4] == Add(Add(Add(x[0], x[3]), Paired(p1, d1, -0.5, -s)), Paired(p2, d2, -0.5, s)) &&
            y[5] == Add(Add(Add(x[0], Neg(x[3])), Paired(p1, d1, 0.5, -s)), Paired(p2, d2, -0.5, -s))
  {
    hide Scale;
    var p1, d1, p2, d2 := Add(x[1], x[5]), Sub(x[1], x[5]), Add(x[2], x[4]), Sub(x[2], x[4]);
    assert Add(x[5], x[1]) == p1;
    Linear(0.5, p1, ZERO);
    Linear(0.5, p2, ZERO);
    Linear(s, x[1], x[5]);
    Linear(s, x[5], x[1]);
    Turned(s, d1);
    Turned(s, d2);
  }

  lemma NegSum(a: Complex, b: Complex)
    ensures Add(Neg(a), Neg(b)) == Neg(Add(a, b))
  {
  }

  lemma Radix6Correct(x: seq<Complex>, root: int -> Complex, q: nat)
    requires UnitRoots(root) && |x| == 6 && q < 6
    ensures Radix6(x, SinPi3(root))[q] == Dft(View(x, 0), 6, root(6), q)
  {
    hide Pow, Mul, Sum, Paired, Radix6, UnitRoots, Add, Neg, Sub;
    var w, s := root(6), SinPi3(root);
    NegSum(x[1], x[5]);
    SixthRoot(root);
    Term(x, w, q, 0, 0);
    Term(x, w, q, 1, q);
    Term(x, w, q, 2, (q * 2) % 6);
    Term(x, w, q, 3, (q * 3) % 6);
    Term(x, w, q, 4, (q * 4) % 6);
    Term(x, w, q, 5, (q * 5) % 6);
    Sum6(DftTerm(View(x, 0), w, q));
    Row6(x, s);
    Units(x[0]);
    Units(x[1]);
    Units(x[2]);
    Units(x[3]);
    Units(x[4]);
    Units(x[5]);
    Pair(x[1], x[5], 0.5, s);
    Pair(x[1], x[5], -0.5, s);
    Pair(x[2], x[4], -0.5, s);
  }

  // ----- radix 8 -----

  lemma EighthRoot(root: int -> Complex)
    requires UnitRoots(root)
    ensures var w, c := root(8), CosPi4(root);
            w == Complex(c, -c) && Pow(w, 8) == ONE && Pow(w, 0) == ONE && Pow(w, 1) == w && Pow(w, 2) == Complex(0.0, -1.0) &&
            Pow(w, 3) == Complex(-c, -c) && Pow(w, 4) == Neg(ONE)
  {
    hide Pow;
    var w := root(8);
    UnitRoot(root, 8);
    assert Subdivides(root, 2, 4);
    PowOne(w);
    Diagonal(w);
    PowStep(w, 3);
  }

  lemma Diagonal(w: Complex)
    requires Mul(w, w) == Complex(0.0, -1.0)
    ensures w.im == -w.re && Mul(w, Complex(0.0, -1.0)) == Complex(-w.re, -w.re)
  {
    var a, b := w.re, w.im;
    DifferenceOfSquares(a, b);
    if a == b {
      Square(a);
    } else {
      RealNoZeroDivisors(a - b, a + b);
    }
    TurnedBack(w);
    hide Mul;
  }

  lemma DifferenceOfSquares(a: real, b: real)
    ensures (a - b) * (a + b) == a * a - b * b
  {
  }

  lemma TurnedBack(w: Complex)
    ensures Mul(w, Complex(0.0, -1.0)) == Complex(w.im, -w.re)
  {
  }

  lemma Radix8Correct(x: seq<Complex>, root: int -> Complex, q: nat)
    requires UnitRoots(root) && |x| == 8 && q < 8
    ensures Radix8(x, CosPi4(root))[q] == Dft(View(x, 0), 8, root(8), q)
  {
    hide Pow, Mul, Add, Sub, Sum, Dft, Neg, Radix4, UnitRoots, View;
    var w, f, k, h := root(8), View(x, 0), q % 4, q / 4;
    EighthRoot(root);
    var evens, odds := [x[0], x[2], x[4], x[6]], [x[1], x[3], x[5], x[7]];
    var e, o := Radix4(evens)[k], Radix4(odds)[k];
    var g := [e, Mul(o, Pow(w, k))];
    Interleaved(x, evens, odds);
    Radix4Correct(evens, Pow(w, 2), k);
    Radix4Correct(odds, Pow(w, 2), k);
    DftCong(Strided(f, 2, 0), View(evens, 0), 4, Pow(w, 2), k);
    DftCong(Strided(f, 2, 1), View(odds, 0), 4, Pow(w, 2), k);
    MulUnits(e);
    ViewPair(g);
    Decimation(f, 2, 4, w, k, h, View(g, 0));
    SquareOfMinusOne();
    Radix2Correct(g, Neg(ONE), h);
    Units(o);
  }

  lemma ViewPair(g: seq<Complex>)
    requires |g| == 2
    ensures View(g, 0)(0) == g[0] && View(g, 0)(1) == g[1]
  {
  }

  lemma Interleaved(x: seq<Complex>, evens: seq<Complex>, odds: seq<Complex>)
    requires |x| == 8 && evens == [x[0], x[2], x[4], x[6]] && odds == [x[1], x[3], x[5], x[7]]
    ensures forall t | 0 <= t < 4 ::
      Strided(View(x, 0), 2, 0)(t) == View(evens, 0)(t) && Strided(View(x, 0), 2, 1)(t) == View(odds, 0)(t)
  {
  }

  lemma SquareOfMinusOne()
    ensures Pow(Neg(ONE), 2) == ONE
  {
    hide Pow;
    PowOne(Neg(ONE));
  }

  // ----- radix 7 -----

  lemma Sum7(f: int -> Complex)
    ensures Sum(f, 7) == Add(f(0), Add(Add(Add(f(1), f(6)), Add(f(3), f(5))), Add(f(2), f(4))))
  {
    assert Sum(f, 7) == Add(Sum(f, 6), f(6));
    Sum6(f);
    hide Sum;
  }

  lemma SixthIsPrimitive(root: int -> Complex)
    requires UnitRoots(root)
    ensures Primitive(root(6), 6)
  {
    hide Pow;
    SixthRoot(root);
    forall k: nat | 0 < k < 6
      ensures Pow(root(6), k) != ONE
    {
      assert k == 1 || k == 2 || k == 3 || k == 4 || k == 5;
    }
  }

  lemma Exponents(q: nat, p: nat)
    requires q < 6 && p < 6
    ensures (Down(q) * Up(p)) % 7 == Down(Lag(6, q, p)) && 1 <= Up(p) <= 6
  {
  }

  /** The frequencies other than zero are a convolution along the powers of the generator. */
  lemma RaderSum(x: seq<Complex>, w: Complex, q: nat)
    requires |x| == 7 && q < 6 && Pow(w, 7) == ONE
    ensures Add(Circular(View(RaderIn(x), 0), RaderKernel(w), 6)(q), x[0]) == Dft(View(x, 0), 7, w, Down(q))
  {
    var F, G := CircularTerm(View(RaderIn(x), 0), RaderKernel(w), 6, q), DftTerm(View(x, 0), w, Down(q));
    assert F(0) == G(1) && F(1) == G(3) && F(2) == G(2) && F(3) == G(6) && F(4) == G(4) && F(5) == G(5) by {
      hide Mul, Pow;
      RaderTerm(x, w, q, 0);
      RaderTerm(x, w, q, 1);
      RaderTerm(x, w, q, 2);
      RaderTerm(x, w, q, 3);
      RaderTerm(x, w, q, 4);
      RaderTerm(x, w, q, 5);
    }
    assert G(0) == x[0] by {
      hide Mul, Pow;
      Term(x, w, Down(q), 0, 0);
      PowOne(w);
      Units(x[0]);
    }
    hide Mul, Pow;
    Sum6(F);
    Sum7(G);
    Regrouped(F, G);
  }

  lemma RaderTerm(x: seq<Complex>, w: Complex, q: nat, p: nat)
    requires |x| == 7 && q < 6 && p < 6 && Pow(w, 7) == ONE
    ensures CircularTerm(View(RaderIn(x), 0), RaderKernel(w), 6, q)(p) == DftTerm(View(x, 0), w, Down(q))(Up(p))
  {
    hide Mul, Pow;
    Exponents(q, p);
    Term(x, w, Down(q), Up(p), Down(Lag(6, q, p)));
    assert RaderIn(x)[p] == x[Up(p)];
  }

  lemma Regrouped(F: int -> Complex, G: int -> Complex)
    requires F(0) == G(1) && F(1) == G(3) && F(2) == G(2) && F(3) == G(6) && F(4) == G(4) && F(5) == G(5)
    ensures Add(Add(Add(Add(F(0), F(3)), Add(F(1), F(5))), Add(F(2), F(4))), G(0))
         == Add(G(0), Add(Add(Add(G(1), G(6)), Add(G(3), G(5))), Add(G(2), G(4))))
  {
  }

  /** The literal `-1` is the kernel's mean coefficient. */
  lemma FirstConstant(root: int -> Complex)
    requires UnitRoots(root)
    ensures Dft(RaderKernel(root(7)), 6, root(6), 0) == RaderConstant(root, 0)
  {
    hide Mul, Pow, Sum;
    var w := root(7);
    UnitRoot(root, 7);
    GeometricSumVanishes(w, 7);
    var P, F := Powers(w), DftTerm(RaderKernel(w), root(6), 0);
    PowOne(w);
    PowZero(root(6));
    Sum7(P);
    Sum6(F);
    forall j | 0 <= j < 6
      ensures F(j) == P(Down(j))
    {
      Units(Pow(w, Down(j)));
    }
  }

  lemma Radix7Convolves(x: seq<Complex>, root: int -> Complex, q: nat)
    requires UnitRoots(root) && |x| == 7 && q < 6
    ensures var z := Radix6(RaderMiddle(Radix6(RaderIn(x), SinPi3(root)), root), SinPi3(root));
            Scale(1.0 / 6.0, Conj(z[q])) == Circular(View(RaderIn(x), 0), RaderKernel(root(7)), 6)(q)
  {
    hide Mul, Pow, Sum, Dft, Conj, Scale, Radix6, UnitRoots, Circular, RaderIn, RaderConstant, Primitive;
    var w, s, h := root(6), SinPi3(root), RaderKernel(root(7));
    var f := View(RaderIn(x), 0);
    var b := RaderMiddle(Radix6(RaderIn(x), s), root);
    var B := (k: int) => Mul(Dft(f, 6, w, k), Dft(h, 6, w, k));
    forall k | 0 <= k < 6
      ensures View(b, 0)(k) == Conjugated(B)(k)
    {
      Radix6Correct(RaderIn(x), root, k);
      Constants(root, k);
    }
    Radix6Correct(b, root, q);
    DftCong(View(b, 0), Conjugated(B), 6, w, q);
    ConjugateTransform(B, 6, w, q);
    SixthIsPrimitive(root);
    ConvolveBySpectra(f, h, B, 6, w, q);
  }

  lemma Constants(root: int -> Complex, k: nat)
    requires UnitRoots(root) && k < 6
    ensures RaderConstant(root, k) == Dft(RaderKernel(root(7)), 6, root(6), k)
  {
    hide Dft, UnitRoots;
    if k == 0 {
      FirstConstant(root);
    }
  }

  lemma Sixth(z: Complex)
    ensures Complex(z.re / 6.0, -z.im / 6.0) == Scale(1.0 / 6.0, Conj(z))
  {
  }

  lemma RaderFirst(x: seq<Complex>, root: int -> Complex)
    requires UnitRoots(root) && |x| == 7
    ensures Add(Radix6(RaderIn(x), SinPi3(root))[0], x[0]) == Dft(View(x, 0), 7, root(7), 0)
  {
    hide Mul, Pow, Sum, UnitRoots, Paired, Scale;
    var w := root(7);
    Row6(RaderIn(x), SinPi3(root));
    UnitRoot(root, 7);
    PowOne(w);
    var G := DftTerm(View(x, 0), w, 0);
    forall t | 0 <= t < 7
      ensures G(t) == x[t]
    {
      Term(x, w, 0, t, 0);
      Units(x[t]);
    }
    Sum7(G);
    hide Radix6;
  }

  lemma Radix7Correct(x: seq<Complex>, root: int -> Complex, q: nat)
    requires UnitRoots(root) && |x| == 7 && q < 7
    ensures Radix7(x, root)[q] == Dft(View(x, 0), 7, root(7), q)
  {
    hide Mul, Pow, Sum, Dft, Conj, Scale, Radix6, UnitRoots, Circular, RaderIn, RaderMiddle, Add;
    if q == 0 {
      RaderFirst(x, root);
    } else {
      var p := if q == 1 then 0 else if q == 2 then 4 else if q == 3 then 5 else if q == 4 then 2 else if q == 5 then 1 else 3;
      assert Down(p) == q;
      UnitRoot(root, 7);
      Radix7Convolves(x, root, p);
      RaderSum(x, root(7), p);
      Sixth(Radix6(RaderMiddle(Radix6(RaderIn(x), SinPi3(root)), root), SinPi3(root))[p]);
    }
  }

  // ----- dispatch -----

  function FirstOf(x: int -> Complex, r: nat): (s: seq<Complex>)
    ensures |s| == r
  {
    seq(r, t => x(t))
  }

  /** `radix_dispatch`: output `q` of the radix-`r` codelet; any other radix leaves the output alone. */
  function RadixDispatch(root: int -> Complex, r: int, x: int -> Complex, q: int): Complex {
    if !(2 <= r <= 8 && 0 <= q < r) then ZERO
    else
    var s := FirstOf(x, r);
    if r == 2 then Radix2(s)[q]
    else if r == 3 then Radix3(s, SinPi3(root))[q]
    else if r == 4 then Radix4(s)[q]
    else if r == 5 then Radix5(s, Root54(root), Sin2Pi5(root), Sin1Pi5(root))[q]
    else if r == 6 then Radix6(s, SinPi3(root))[q]
    else if r == 7 then Radix7(s, root)[q]
    else Radix8(s, CosPi4(root))[q]
  }

  /** The codelet of radix `r` is called for the root `w`: any codelet for the roots its constants were
      made from, and the one without constants for either half turn. */
  ghost predicate Serves(root: int -> Complex, r: int, w: Complex) {
    2 <= r <= 8 && if r == 2 then w == Neg(ONE) else UnitRoots(root) && w == root(r)
  }

  /** Every codelet is the transform of its length. */
  lemma DispatchIsDft(root: int -> Complex, r: nat, x: int -> Complex, w: Complex, q: nat)
    requires Serves(root, r, w) && q < r
    ensures RadixDispatch(root, r, x, q) == Dft(x, r, w, q)
  {
    hide Radix2, Radix3, Radix4, Radix5, Radix6, Radix7, Radix8, Dft, UnitRoots, Neg, Pow;
    var s := FirstOf(x, r);
    DftCong(View(s, 0), x, r, w, q);
    if r == 2 {
      SquareOfMinusOne();
      Radix2Correct(s, w, q);
    } else if r == 3 {
      Radix3Correct(s, root, q);
    } else if r == 4 {
      QuarterRoot(root);
      Radix4Correct(s, w, q);
    } else if r == 5 {
      Radix5Correct(s, root, q);
    } else if r == 6 {
      Radix6Correct(s, root, q);
    } else if r == 7 {
      Radix7Correct(s, root, q);
    } else {
      Radix8Correct(s, root, q);
    }
  }

  lemma QuarterRoot(root: int -> Complex)
    requires UnitRoots(root)
    ensures root(4) == Complex(0.0, -1.0)
  {
  }
}

/** The Stockham autosort kernels: every stage of the mixed-radix kernel, and the
    power-of-two kernel as its all-radix-2 case, compute the naive transform. */
module StockhamKernel {
  import opened ComplexSums
  import opened FourierSpec
  import opened IndexArith
  import opened RadixCodelets

  /** What a root of order `n` must satisfy for the stages below. */
  ghost predicate RootOf(w: Complex, n: int) {
    Pow(w, n) == ONE && (n % 2 == 0 ==> Pow(w, n / 2) == Neg(ONE))
  }

  lemma HalfTurnIsRootOf(w: Complex, n: nat)
    requires HalfTurn(w, n)
    ensures RootOf(w, n)
  {
    hide Pow, Neg;
    HalfTurnIsRoot(w, n);
  }

  /** A stage of radix `r` may run on a transform of length `n` with root `w`. */
  ghost predicate Planned(root: int -> Complex, r: int, w: Complex, n: int) {
    2 <= r <= 8 && (r == 2 || (UnitRoots(root) && w == root(n)))
  }

  // ----- one butterfly -----

  /** The stages done so far have radices multiplying to `p`, and `n == c * p`:
      block `b` of the buffer holds the length-`p` transform of the samples
      `b, b + c, b + 2c, ...`. */
  ghost predicate StageDone(s: seq<Complex>, f: int -> Complex, c: int, p: int, w: Complex) {
    p > 0 && c >= 0 && |s| == c * p && forall i | 0 <= i < |s| :: s[i] == StageValue(f, c, p, w, i)
  }

  ghost function StageValue(f: int -> Complex, c: int, p: int, w: Complex, i: int): Complex
    requires p > 0
  {
    Dft(Strided(f, c, i / p), p, Pow(w, c), i % p)
  }

  /** Input `t` of butterfly `i`: the sample at stride `m == c * p`, times the twiddle
      `W(t*k, r*p) == w^(c*(k*t))` (the multiplication is skipped for `t == 0`). */
  function Gathered(s: seq<Complex>, c: int, p: int, m: int, w: Complex, i: int): int -> Complex
    requires p > 0
  {
    (t: int) =>
      var at := i + t * m;
      if 0 <= at < |s| then
        if t == 0 then s[at] else Mul(s[at], Pow(w, c * (i % p * t)))
      else ZERO
  }

  /** Output `q` of butterfly `i`. */
  function Butterfly(root: int -> Complex, s: seq<Complex>, c: int, r: int, p: int, m: int, w: Complex, i: int, q: int): Complex
    requires p > 0
  {
    RadixDispatch(root, r, Gathered(s, c, p, m, w, i), q)
  }

  lemma GatherIndex(c: int, r: int, p: int, i: int, t: int)
    requires p > 0 && c >= 0 && 0 <= i < c * p && 0 <= t < r
    ensures var at := i + t * (c * p);
            0 <= at < c * r * p && at / p == i / p + t * c && at % p == i % p && 0 <= i / p < c && 0 <= i % p < p
  {
    Split(i, p, c);
    var b, k := i / p, i % p;
    Associates(t, c, p);
    Distributes(b, t * c, p);
    RowBound(t, b, c, r);
    assert r * c == c * r;
    RowBound(b + t * c, k, p, c * r);
    DivMod(b + t * c, k, p);
  }

  lemma StridedTwice(f: int -> Complex, c: int, r: int, b: int, t: int, p: int)
    ensures forall u | 0 <= u < p :: Strided(f, c * r, b + t * c)(u) == Strided(Strided(f, c, b), r, t)(u)
  {
    forall u | 0 <= u < p
      ensures Strided(f, c * r, b + t * c)(u) == Strided(Strided(f, c, b), r, t)(u)
    {
      Distributes(u * r, t, c);
      assert u * (c * r) == u * r * c;
    }
  }

  lemma GatheredIsTwiddled(s: seq<Complex>, f: int -> Complex, c: int, r: int, p: int, w: Complex, i: int, t: int)
    requires StageDone(s, f, c * r, p, w)
    requires c >= 0 && 0 <= i < c * p && 0 <= t < r
    ensures Gathered(s, c, p, c * p, w, i)(t)
         == Mul(Dft(Strided(Strided(f, c, i / p), r, t), p, Pow(Pow(w, c), r), i % p), Pow(Pow(w, c), i % p * t))
  {
    hide Mul, Pow, Dft, Strided;
    GatherIndex(c, r, p, i, t);
    var k, b := i % p, i / p;
    var at := i + t * (c * p);
    assert s[at] == StageValue(f, c * r, p, w, at);
    StridedTwice(f, c, r, b, t, p);
    DftCong(Strided(f, c * r, b + t * c), Strided(Strided(f, c, b), r, t), p, Pow(w, c * r), k);
    PowMul(w, c, r);
    MulNonNegative(k, t);
    PowMul(w, c, k * t);
    if t == 0 {
      PowZero(Pow(w, c));
      MulUnits(s[at]);
      assert k * t == 0;
    }
  }

  /** One butterfly computes `r` samples of the length-`r*p` transform of its block. */
  lemma ButterflyCorrect(root: int -> Complex, s: seq<Complex>, f: int -> Complex, c: nat, r: nat, p: nat, w: Complex, i: nat, q: nat)
    requires StageDone(s, f, c * r, p, w)
    requires RootOf(w, |s|) && Planned(root, r, w, |s|)
    requires i < c * p && q < r
    ensures p > 0
    ensures Butterfly(root, s, c, r, p, c * p, w, i, q) == Dft(Strided(f, c, i / p), r * p, Pow(w, c), i % p + p * q)
  {
    hide Mul, Pow, Dft, Neg, RadixDispatch, Gathered, Strided, StageValue;
    var x := Gathered(s, c, p, c * p, w, i);
    var v := Pow(w, c);
    forall t | 0 <= t < r
      ensures x(t) == Mul(Dft(Strided(Strided(f, c, i / p), r, t), p, Pow(v, r), i % p), Pow(v, i % p * t))
    {
      GatheredIsTwiddled(s, f, c, r, p, w, i, t);
    }
    StageRoots(root, w, c, r, p);
    DispatchIsDft(root, r, x, Pow(v, p), q);
    Decimation(Strided(f, c, i / p), r, p, v, i % p, q, x);
  }

  lemma StageRoots(root: int -> Complex, w: Complex, c: nat, r: nat, p: nat)
    requires c * p >= 1 && RootOf(w, c * r * p) && Planned(root, r, w, c * r * p)
    ensures Pow(Pow(w, c), r * p) == ONE && Serves(root, r, Pow(Pow(w, c), p))
  {
    hide Mul, Pow, Neg, UnitRoots, Planned, Serves;
    MulNonNegative(r, p);
    PowMul(w, c, r * p);
    Associates(c, r, p);
    PowMul(w, c, p);
    Exchange(c, r, p);
    StageServed(root, w, c * p, r);
  }

  lemma Exchange(c: int, r: int, p: int)
    ensures c * r * p == c * p * r
  {
  }

  lemma StageServed(root: int -> Complex, w: Complex, h: nat, r: nat)
    requires h >= 1 && RootOf(w, h * r) && Planned(root, r, w, h * r)
    ensures Serves(root, r, Pow(w, h))
  {
    hide Pow, Neg, UnitRoots, RootOf;
    if r > 2 {
      SubdividedRoot(root, h, r);
    } else {
      HalfwayRoot(w, h);
    }
  }

  lemma HalfwayRoot(w: Complex, h: nat)
    requires RootOf(w, h * 2)
    ensures Pow(w, h) == Neg(ONE)
  {
    hide Pow, Neg;
    assert h * 2 / 2 == h;
  }

  lemma SubdividedRoot(root: int -> Complex, a: nat, b: nat)
    requires UnitRoots(root) && a >= 1 && b >= 1
    ensures Pow(root(a * b), a) == root(b)
  {
    hide Pow;
    assert Subdivides(root, a, b);
  }

  // ----- one stage -----

  /** Output position `o` belongs to butterfly `ButterflyOf(o)`, sample `SampleOf(o)`;
      `rp` is the block size `r * p` after the stage. */
  function ButterflyOf(p: int, rp: int, o: int): int
    requires p > 0 && rp > 0
  {
    o / rp * p + o % rp % p
  }

  function SampleOf(p: int, rp: int, o: int): int
    requires p > 0 && rp > 0
  {
    o % rp / p
  }

  /** The scatter address `blk*r*p + k + q*p` of sample `q` of butterfly `i`. */
  function ScatterIndex(p: int, rp: int, i: int, q: int): int
    requires p > 0
  {
    i / p * rp + i % p + q * p
  }

  lemma ScatterInverse(c: int, r: int, p: int, i: int, q: int)
    requires r > 0 && p > 0 && c >= 0 && 0 <= i < c * p && 0 <= q < r
    ensures r * p > 0 && 0 <= ScatterIndex(p, r * p, i, q) < c * (r * p)
    ensures ButterflyOf(p, r * p, ScatterIndex(p, r * p, i, q)) == i
    ensures SampleOf(p, r * p, ScatterIndex(p, r * p, i, q)) == q
  {
    Split(i, p, c);
    var b, k := i / p, i % p;
    RowBound(q, k, p, r);
    DivMod(b, q * p + k, r * p);
    DivMod(q, k, p);
    RowBound(b, q * p + k, r * p, c);
  }

  lemma ScatterOnto(c: int, r: int, p: int, o: int)
    requires r > 0 && p > 0 && c >= 0 && 0 <= o < c * (r * p)
    ensures r * p > 0
    ensures 0 <= ButterflyOf(p, r * p, o) < c * p && 0 <= SampleOf(p, r * p, o) < r
    ensures ScatterIndex(p, r * p, ButterflyOf(p, r * p, o), SampleOf(p, r * p, o)) == o
    ensures ButterflyOf(p, r * p, o) / p == o / (r * p)
    ensures ButterflyOf(p, r * p, o) % p + p * SampleOf(p, r * p, o) == o % (r * p)
  {
    MulPositive(r, p);
    Split(o, r * p, c);
    var b, rest := o / (r * p), o % (r * p);
    Split(rest, p, r);
    DivMod(b, rest % p, p);
    RowBound(b, rest % p, p, c);
    assert p * (rest / p) == rest / p * p;
  }

  lemma ScatterRanges(c: int, r: int, p: int)
    requires c >= 0 && r > 0 && p > 0 && r * p > 0
    ensures forall o | 0 <= o < c * (r * p) ::
      0 <= ButterflyOf(p, r * p, o) < c * p && 0 <= SampleOf(p, r * p, o) < r
  {
    forall o | 0 <= o < c * (r * p)
      ensures 0 <= ButterflyOf(p, r * p, o) < c * p && 0 <= SampleOf(p, r * p, o) < r
    {
      ScatterOnto(c, r, p, o);
    }
  }

  /** What a whole stage writes. */
  ghost predicate StageOutput(root: int -> Complex, d: seq<Complex>, s: seq<Complex>, c: int, r: int, p: int, w: Complex) {
    c >= 0 && r > 0 && p > 0 && r * p > 0 && |d| == |s| == c * (r * p) &&
    forall o | 0 <= o < |d| ::
      d[o] == Butterfly(root, s, c, r, p, c * p, w, ButterflyOf(p, r * p, o), SampleOf(p, r * p, o))
  }

  /** A stage advances the invariant from `p` to `r*p`. */
  lemma StageAdvances(root: int -> Complex, d: seq<Complex>, s: seq<Complex>, f: int -> Complex, c: int, r: int, p: int, w: Complex)
    requires StageDone(s, f, c * r, p, w)
    requires RootOf(w, |s|) && Planned(root, r, w, |s|)
    requires StageOutput(root, d, s, c, r, p, w)
    ensures StageDone(d, f, c, r * p, w)
  {
    hide Mul, Pow, Dft, Butterfly, RootOf, Strided, ButterflyOf, SampleOf, StageDone;
    forall o | 0 <= o < |d|
      ensures d[o] == StageValue(f, c, r * p, w, o)
    {
      ScatterOnto(c, r, p, o);
      ButterflyCorrect(root, s, f, c, r, p, w, ButterflyOf(p, r * p, o), SampleOf(p, r * p, o));
    }
    StageDoneIntro(d, f, c, r * p, w);
  }

  lemma StageDoneIntro(s: seq<Complex>, f: int -> Complex, c: int, p: int, w: Complex)
    requires p > 0 && c >= 0 && |s| == c * p && forall i | 0 <= i < |s| :: s[i] == StageValue(f, c, p, w, i)
    ensures StageDone(s, f, c, p, w)
  {
  }

  /** One threadgroup stage: every butterfly gathers from `src` and scatters to `dst`. */
  method Stage(root: int -> Complex, src: array<Complex>, dst: array<Complex>, c: int, r: int, p: int, w: Complex)
    requires src != dst && c >= 0 && r > 0 && p > 0 && src.Length == dst.Length == c * (r * p)
    modifies dst
    ensures StageOutput(root, dst[..], src[..], c, r, p, w)
  {
    hide Butterfly, ButterflyOf, SampleOf, ScatterIndex;
    var m := c * p;
    var rp := r * p;
    MulPositive(r, p);
    MulNonNegative(c, p);
    ScatterRanges(c, r, p);
    ghost var s := src[..];
    var i := 0;
    while i < m
      invariant 0 <= i <= m
      invariant forall o | 0 <= o < dst.Length && ButterflyOf(p, rp, o) < i ::
        dst[o] == Butterfly(root, s, c, r, p, m, w, ButterflyOf(p, rp, o), SampleOf(p, rp, o))
    {
      ButterflyStep(root, src, dst, c, r, p, w, i);
      i := i + 1;
    }
  }

  method ButterflyStep(root: int -> Complex, src: array<Complex>, dst: array<Complex>, c: int, r: int, p: int, w: Complex, i: int)
    requires src != dst && c >= 0 && r > 0 && p > 0 && r * p > 0 && src.Length == dst.Length == c * (r * p)
    requires 0 <= i < c * p
    modifies dst
    ensures forall o | 0 <= o < dst.Length ::
      dst[o] == if ButterflyOf(p, r * p, o) == i then Butterfly(root, src[..], c, r, p, c * p, w, i, SampleOf(p, r * p, o))
                else old(dst[o])
  {
    hide Butterfly, ButterflyOf, SampleOf, ScatterIndex;
    var m := c * p;
    var rp := r * p;
    ScatterRanges(c, r, p);
    var q := 0;
    while q < r
      invariant 0 <= q <= r
      invariant forall o | 0 <= o < dst.Length ::
        dst[o] == if ButterflyOf(p, rp, o) == i && SampleOf(p, rp, o) < q
                  then Butterfly(root, src[..], c, r, p, m, w, i, SampleOf(p, rp, o)) else old(dst[o])
    {
      ScatterInverse(c, r, p, i, q);
      dst[ScatterIndex(p, rp, i, q)] := Butterfly(root, src[..], c, r, p, m, w, i, q);
      forall o | 0 <= o < dst.Length && ButterflyOf(p, rp, o) == i && SampleOf(p, rp, o) == q
        ensures o == ScatterIndex(p, rp, i, q)
      {
        ScatterOnto(c, r, p, o);
      }
      q := q + 1;
    }
  }

  // ----- the kernel -----

  function Product(radices: seq<nat>): int {
    if radices == [] then 1 else radices[0] * Product(radices[1..])
  }

  lemma {:induction false} ProductNonNegative(radices: seq<nat>)
    ensures Product(radices) >= 0
  {
    if radices != [] {
      ProductNonNegative(radices[1..]);
      MulNonNegative(radices[0], Product(radices[1..]));
    }
  }

  lemma DftOfOneSample(g: int -> Complex, w: Complex)
    ensures Dft(g, 1, w, 0) == g(0)
  {
    hide Mul, Add;
    var F := DftTerm(g, w, 0);
    assert Sum(F, 1) == Add(Sum(F, 0), F(0));
    AddLaws(F(0), ZERO, ZERO);
    assert F(0) == Mul(g(0), Pow(w, 0));
    MulUnits(g(0));
  }

  lemma BeforeFirstStage(s: seq<Complex>, w: Complex)
    ensures StageDone(s, View(s, 0), |s|, 1, w)
  {
    hide Dft, Pow;
    var f := View(s, 0);
    forall i | 0 <= i < |s|
      ensures s[i] == StageValue(f, |s|, 1, w, i)
    {
      DftOfOneSample(Strided(f, |s|, i), Pow(w, |s|));
      assert i % 1 == 0 && i / 1 == i;
    }
  }

  lemma AfterLastStage(s: seq<Complex>, f: int -> Complex, w: Complex, k: int)
    requires StageDone(s, f, 1, |s|, w) && 0 <= k < |s|
    ensures s[k] == Dft(f, |s|, w, k)
  {
    hide Mul, Pow, Dft;
    assert s[k] == StageValue(f, 1, |s|, w, k);
    DivMod(0, k, |s|);
    PowOne(w);
    DftCong(Strided(f, 1, 0), f, |s|, w, k);
  }

  /** Counters of the stage loop: `p` done, `c` still to go. */
  lemma NextStage(radices: seq<nat>, s: nat, p: int, c: int)
    requires s < |radices| && radices[s] > 0 && p > 0 && c == Product(radices[s..])
    ensures var c', r := Product(radices[s + 1..]), radices[s];
            c' >= 0 && c == c' * r && c * p == c' * (r * p) && r * p > 0
  {
    assert radices[s..][0] == radices[s] && radices[s..][1..] == radices[s + 1..];
    ProductNonNegative(radices[s + 1..]);
    var c', r := Product(radices[s + 1..]), radices[s];
    assert r * c' == c' * r;
    Associates(c', r, p);
    MulPositive(r, p);
  }

  /** The stage loop of the mixed-radix kernel, ping-ponging between two buffers. The
      returned buffer holds the naive transform of what `a` held. */
  method StockhamStages(root: int -> Complex, a: array<Complex>, b: array<Complex>, radices: seq<nat>, w: Complex)
    returns (src: array<Complex>)
    requires a != b && a.Length == b.Length == Product(radices)
    requires forall i | 0 <= i < |radices| :: Planned(root, radices[i], w, a.Length)
    requires RootOf(w, a.Length)
    modifies a, b
    ensures src == a || src == b
    ensures forall k | 0 <= k < src.Length :: src[k] == Dft(View(old(a[..]), 0), src.Length, w, k)
  {
    hide Mul, Pow, Dft, Neg, StageDone, StageOutput, RootOf, Product;
    ghost var f := View(a[..], 0);
    var dst := b;
    src := a;
    var p, c, s := 1, a.Length, 0;
    assert radices[0..] == radices;
    BeforeFirstStage(a[..], w);
    while s < |radices|
      invariant 0 <= s <= |radices|
      invariant (src == a && dst == b) || (src == b && dst == a)
      invariant p > 0 && c == Product(radices[s..]) && c * p == a.Length
      invariant StageDone(src[..], f, c, p, w)
    {
      var r := radices[s];
      NextStage(radices, s, p, c);
      c := Product(radices[s + 1..]);
      Stage(root, src, dst, c, r, p, w);
      StageAdvances(root, dst[..], src[..], f, c, r, p, w);
      src, dst := dst, src;
      p := r * p;
      s := s + 1;
    }
    EmptyProduct();
    assert radices[s..] == [];
    forall k | 0 <= k < src.Length
      ensures src[k] == Dft(f, src.Length, w, k)
    {
      assert src[..][k] == src[k];
      AfterLastStage(src[..], f, w, k);
    }
  }

  lemma EmptyProduct()
    ensures Product([]) == 1
  {
  }

  /** The radix list of the power-of-two kernel: `log2(n)` radix-2 stages. */
  function Twos(n: nat): (radices: seq<nat>)
    requires IsPow2(n)
    ensures Product(radices) == n && forall i | 0 <= i < |radices| :: radices[i] == 2
  {
    if n == 1 then [] else [2] + Twos(n / 2)
  }

  /** `stockham_pow2_tg`: the transform of `a`, left in `a` whatever the parity of the
      number of stages. */
  method StockhamPow2(a: array<Complex>, b: array<Complex>, w: Complex)
    requires a != b && a.Length == b.Length && HalfTurn(w, a.Length)
    modifies a, b
    ensures forall k | 0 <= k < a.Length :: a[k] == Dft(View(old(a[..]), 0), a.Length, w, k)
  {
    hide Mul, Pow, Dft, Neg, RootOf;
    HalfTurnIsRootOf(w, a.Length);
    var src := StockhamStages((i: int) => ONE, a, b, Twos(a.Length), w);
    if src == b {
      forall i | 0 <= i < a.Length {
        a[i] := b[i];
      }
    }
  }
}

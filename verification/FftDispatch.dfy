/** Size-based routing of the FFT, and its host-side drivers. */
module FftDispatch {
  import opened Bluestein
  import opened ComplexSums
  import opened FourStep
  import opened FourierSpec
  import opened IndexArith
  import opened Options
  import opened RadixPlanner
  import opened StockhamKernel

  datatype FftError = Unsupported(n: int)

  // ----- specification -----

  /** `dft_reference`: the inverse uses the conjugate root and divides by `n`. */
  ghost function Reference(x: int -> Complex, n: int, w: Complex, inverse: bool, k: int): Complex
    requires n > 0
  {
    if inverse then Scale(1.0 / n as real, Dft(x, n, Conj(w), k)) else Dft(x, n, w, k)
  }

  ghost predicate Transformed(out: seq<Complex>, input: seq<Complex>, w: Complex, inverse: bool) {
    |out| == |input| &&
    forall k | 0 <= k < |out| :: out[k] == Reference(View(input, 0), |input|, w, inverse, k)
  }

  /** Sizes that no smooth kernel covers. */
  ghost predicate NeedsBluestein(n: nat)
    requires n >= 1
  {
    !IsPow2(n) && (n > FFT_BASE_MAX || !Smooth(n))
  }

  ghost predicate Rejected(n: int) {
    n <= 0 || (IsPow2(n) && n > MAX_POINTS) || (NeedsBluestein(n) && NextPow2(2 * n - 1) > MAX_POINTS)
  }

  // ----- inverse by conjugation -----

  function ConjugateAll(d: seq<Complex>): (out: seq<Complex>)
    ensures |out| == |d|
  {
    seq(|d|, i requires 0 <= i < |d| => Conj(d[i]))
  }

  /** `ifft(x) == conj(fft(conj(x))) / n`, as the drivers compute it. */
  function UndoConjugate(d: seq<Complex>): (out: seq<Complex>)
    ensures |out| == |d|
  {
    if d == [] then [] else
    seq(|d|, i requires 0 <= i < |d| => Scale(1.0 / |d| as real, Conj(d[i])))
  }

  lemma InverseByConjugation(input: seq<Complex>, d: seq<Complex>, w: Complex)
    requires Transformed(d, ConjugateAll(input), w, false)
    ensures Transformed(UndoConjugate(d), input, w, true)
  {
    hide Scale, Conj, Dft, Pow;
    var f := View(input, 0);
    var staged := View(ConjugateAll(input), 0);
    var out := UndoConjugate(d);
    forall k | 0 <= k < |out|
      ensures out[k] == Reference(f, |input|, w, true, k)
    {
      forall t | 0 <= t < |input|
        ensures staged(t) == Conjugated(f)(t)
      {
      }
      DftCong(staged, Conjugated(f), |input|, w, k);
      ConjugateTransform(f, |input|, w, k);
      assert d[k] == Dft(staged, |input|, w, k);
    }
  }

  /** The inverse transform undoes the forward one, at every size. */
  lemma RoundTrip(x: seq<Complex>, spectrum: seq<Complex>, back: seq<Complex>, w: Complex)
    requires Transformed(spectrum, x, w, false) && Transformed(back, spectrum, w, true)
    requires Primitive(w, |x|)
    ensures back == x
  {
    hide Scale, Conj, Dft, Pow, Mul, Primitive;
    var n := |x|;
    var f, X := View(x, 0), View(spectrum, 0);
    forall k | 0 <= k < n
      ensures back[k] == x[k]
    {
      DftCong(X, Spectrum(f, n, w), n, Conj(w), k);
      Inversion(f, n, w, k);
      ScaleCancels(n as real, f(k));
    }
  }

  // ----- single-threadgroup kernels -----

  /** Mixed-radix kernel, `n <= 1024`. */
  method MixedRadix(input: seq<Complex>, inverse: bool, radices: seq<nat>, root: int -> Complex) returns (out: seq<Complex>)
    requires UnitRoots(root) && |input| >= 1 && |input| == Product(radices)
    requires forall i | 0 <= i < |radices| :: 2 <= radices[i] <= 8
    ensures Transformed(out, input, root(|input|), inverse)
  {
    hide Scale, Conj, Dft, Pow, Neg, UnitRoots;
    var w := root(|input|);
    UnitRoot(root, |input|);
    var staged := if inverse then ConjugateAll(input) else input;
    var a := new Complex[|input|](i requires 0 <= i < |staged| => staged[i]);
    var b := new Complex[|input|](i => ZERO);
    assert a[..] == staged;
    var src := StockhamStages(root, a, b, radices, w);
    out := src[..];
    assert Transformed(out, staged, w, false);
    if inverse {
      InverseByConjugation(input, out, w);
      out := UndoConjugate(out);
    }
  }

  /** Power-of-two kernel, `n <= 1024`: the inverse flips the sign of the twiddles. */
  method StockhamBase(input: seq<Complex>, inverse: bool, w: Complex) returns (out: seq<Complex>)
    requires HalfTurn(w, |input|)
    ensures Transformed(out, input, w, inverse)
  {
    hide Scale, Conj, Dft, Pow, HalfTurn;
    if inverse {
      HalfTurnConj(w, |input|);
    }
    HalfTurnPow2(w, |input|);
    var v := if inverse then Conj(w) else w;
    var a := new Complex[|input|](i requires 0 <= i < |input| => input[i]);
    var b := new Complex[|input|](i => ZERO);
    assert a[..] == input;
    StockhamPow2(a, b, v);
    out := a[..];
    if inverse {
      out := seq(|input|, i requires 0 <= i < |out| => Scale(1.0 / |input| as real, out[i]));
    }
  }

  lemma HalfTurnConj(w: Complex, n: nat)
    requires HalfTurn(w, n)
    ensures HalfTurn(Conj(w), n)
  {
    hide Pow;
    ConjReal(ONE);
    if n > 1 {
      PowConj(w, n / 2);
      ConjReal(Neg(ONE));
    }
  }

  /** `fft_recursive_fourstep_buf`: stage, run the passes in place, unstage. */
  method FourStepTransform(input: seq<Complex>, inverse: bool, w: Complex) returns (out: seq<Complex>)
    requires HalfTurn(w, |input|) && |input| <= MAX_POINTS
    ensures Transformed(out, input, w, inverse)
  {
    hide Scale, Conj, Dft, Pow, HalfTurn, Levels;
    var n := |input|;
    var staged := if inverse then ConjugateAll(input) else input;
    var data := new Complex[n](i requires 0 <= i < |staged| => staged[i]);
    var scratch := new Complex[n](i => ZERO);
    assert data[..] == staged;
    LevelsWithinGuard(n);
    HalfTurnPow2(w, n);
    var ok := FftPass(data, scratch, n, 1, 0, w);
    out := data[..];
    forall k | 0 <= k < n
      ensures out[k] == Dft(View(staged, 0), n, w, k)
    {
      DivMod(0, k, n);
    }
    assert Transformed(out, staged, w, false);
    if inverse {
      InverseByConjugation(input, out, w);
      out := UndoConjugate(out);
    }
  }

  // ----- Bluestein, and the router -----

  lemma Pow2Root(root: int -> Complex, n: nat)
    requires UnitRoots(root) && IsPow2(n)
    ensures HalfTurn(root(n), n)
  {
    hide Pow;
    UnitRoot(root, n);
    FirstRoots(root);
  }

  lemma ChirpRoot(root: int -> Complex, n: nat)
    requires UnitRoots(root) && n >= 1
    ensures Pow(root(2 * n), 2 * n) == ONE && Pow(root(2 * n), 2) == root(n)
  {
    hide Pow, Neg;
    UnitRoot(root, 2 * n);
    SubdividedRoot(root, 2, n);
  }

  /** The filter with only the lags below `i` filled in. */
  ghost function PartialFilter(zeta: Complex, n: int, m: int, i: int, t: int): Complex
    requires n > 0
  {
    if t < i then Conj(Chirp(zeta, n, t)) else if m < t + i then Conj(Chirp(zeta, n, m - t)) else ZERO
  }

  /** The filter buffer: the conjugate chirp from the bottom up, and again from the top down. */
  method FillFilter(h: array<Complex>, b: seq<Complex>, zeta: Complex, n: nat)
    requires n > 0 && 2 * n <= h.Length + 1 && |b| == n
    requires forall t | 0 <= t < n :: b[t] == Chirp(zeta, n, t)
    requires forall t | 0 <= t < h.Length :: h[t] == ZERO
    modifies h
    ensures forall t | 0 <= t < h.Length :: h[t] == Filter(zeta, n, h.Length)(t)
  {
    hide Conj, Chirp;
    var m := h.Length;
    h[0] := Conj(b[0]);
    for i := 1 to n
      invariant forall t | 0 <= t < m :: h[t] == PartialFilter(zeta, n, m, i, t)
    {
      assert b[i] == Chirp(zeta, n, i);
      h[i] := Conj(b[i]);
      h[m - i] := Conj(b[i]);
      assert forall t | 0 <= t < m && t != i && t != m - i ::
        PartialFilter(zeta, n, m, i, t) == PartialFilter(zeta, n, m, i + 1, t);
    }
  }

  /** What the three length-`m` transforms and the demodulation compute. */
  lemma ChirpZCorrect(input: seq<Complex>, a: seq<Complex>, h: seq<Complex>, fa: seq<Complex>, fh: seq<Complex>,
                      c: seq<Complex>, conv: seq<Complex>, zeta: Complex, m: nat, w: Complex, k: nat)
    requires |input| >= 1 && 2 * |input| <= m + 1 && Pow(zeta, 2 * |input|) == ONE && HalfTurn(w, m)
    requires |a| == |h| == m
    requires forall t | 0 <= t < m :: a[t] == Modulated(View(input, 0), zeta, |input|)(t)
    requires forall t | 0 <= t < m :: h[t] == Filter(zeta, |input|, m)(t)
    requires Transformed(fa, a, w, false) && Transformed(fh, h, w, false)
    requires |c| == m && forall q | 0 <= q < m :: c[q] == Mul(fa[q], fh[q])
    requires Transformed(conv, c, w, true)
    requires k < |input|
    ensures Mul(Chirp(zeta, |input|, k), conv[k]) == Dft(View(input, 0), |input|, Pow(zeta, 2), k)
  {
    hide Scale, Conj, Dft, Pow, Mul, HalfTurn, Chirp, Circular, Filter, Modulated;
    var n := |input|;
    var x := View(input, 0);
    var A, H, C := Modulated(x, zeta, n), Filter(zeta, n, m), View(c, 0);
    forall q | 0 <= q < m
      ensures C(q) == Mul(Dft(A, m, w, q), Dft(H, m, w, q))
    {
      DftCong(View(a, 0), A, m, w, q);
      DftCong(View(h, 0), H, m, w, q);
    }
    HalfTurnPrimitive(w, m);
    ConvolveBySpectra(A, H, C, m, w, k);
    BluesteinCorrect(x, zeta, n, m, k);
  }

  /** `bluestein`: the forward chirp-z transform of any size `n >= 2`. */
  method ChirpZ(input: seq<Complex>, root: int -> Complex) returns (out: seq<Complex>)
    requires UnitRoots(root) && |input| >= 2
    requires NextPow2(2 * |input| - 1) <= MAX_POINTS
    ensures Transformed(out, input, root(|input|), false)
    decreases 1
  {
    hide Scale, Conj, Dft, Pow, Mul, UnitRoots, RootOf, HalfTurn, IsPow2, Chirp, Smooth;
    var n := |input|;
    var m := NextPow2(2 * n - 1);
    var zeta := root(2 * n);
    ChirpRoot(root, n);
    Pow2Root(root, m);
    var b := seq(n, t => Chirp(zeta, n, t));
    var a := new Complex[m](i => ZERO);
    for i := 0 to n
      invariant forall t | 0 <= t < m :: a[t] == if t < i then Modulated(View(input, 0), zeta, n)(t) else ZERO
    {
      a[i] := Mul(input[i], b[i]);
    }
    var h := new Complex[m](i => ZERO);
    FillFilter(h, b, zeta, n);
    var fa := FftGpu(a[..], m, false, root);
    var fh := FftGpu(h[..], m, false, root);
    var c := seq(m, i requires 0 <= i < |fa.value| && 0 <= i < |fh.value| => Mul(fa.value[i], fh.value[i]));
    var conv := FftGpu(c, m, true, root);
    out := seq(n, k requires 0 <= k < |b| && k < |conv.value| => Mul(b[k], conv.value[k]));
    forall k | 0 <= k < n
      ensures out[k] == Dft(View(input, 0), n, root(n), k)
    {
      ChirpZCorrect(input, a[..], h[..], fa.value, fh.value, c, conv.value, zeta, m, root(m), k);
    }
  }

  /** `bluestein_dispatch`: the size guard, and the inverse by conjugation. */
  method BluesteinDispatch(input: seq<Complex>, inverse: bool, root: int -> Complex)
    returns (r: Result<seq<Complex>, FftError>)
    requires UnitRoots(root)
    ensures r.Err? <==> |input| < 2 || NextPow2(2 * |input| - 1) > MAX_POINTS
    ensures r.Ok? ==> Transformed(r.value, input, root(|input|), inverse)
    decreases 2
  {
    hide Scale, Conj, Dft, UnitRoots, RootOf, IsPow2;
    if |input| < 2 || NextPow2(2 * |input| - 1) > MAX_POINTS {
      return Err(Unsupported(|input|));
    }
    if !inverse {
      var out := ChirpZ(input, root);
      return Ok(out);
    }
    var out := ChirpZ(ConjugateAll(input), root);
    InverseByConjugation(input, out, root(|input|));
    r := Ok(UndoConjugate(out));
  }

  /** `fft_gpu`: every accepted size is transformed to the naive reference, forward and
      inverse, whichever kernel the size is routed to. */
  method FftGpu(input: seq<Complex>, n: int, inverse: bool, root: int -> Complex)
    returns (r: Result<seq<Complex>, FftError>)
    requires UnitRoots(root) && (n >= 0 ==> |input| == n)
    ensures r.Err? <==> Rejected(n)
    ensures r.Ok? ==> Transformed(r.value, input, root(|input|), inverse)
    decreases if n >= 0 && IsPow2(n) then 0 else 3
  {
    hide Scale, Conj, Dft, Pow, UnitRoots, HalfTurn, IsPow2, Smooth, Transformed;
    if n <= 0 {
      return Err(Unsupported(n));
    }
    var w := root(n);
    if IsPow2(n) {
      Pow2Root(root, n);
      if n > FFT_BASE_MAX {
        if n > MAX_POINTS {
          return Err(Unsupported(n));
        }
        var out := FourStepTransform(input, inverse, w);
        return Ok(out);
      }
      var out := StockhamBase(input, inverse, w);
      return Ok(out);
    }
    if n > FFT_BASE_MAX {
      r := BluesteinDispatch(input, inverse, root);
      return;
    }
    Pow2One();
    var plan := Factorize(n);
    if plan.None? {
      r := BluesteinDispatch(input, inverse, root);
      return;
    }
    var out := MixedRadix(input, inverse, plan.value, root);
    return Ok(out);
  }

  lemma Pow2One()
    ensures IsPow2(1)
  {
  }
}

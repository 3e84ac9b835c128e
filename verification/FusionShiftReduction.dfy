/** Reductions of a shifted null-free column, which the route sends to the device as they are: exactly
    when the zeros that fill the head do no harm. */
module FusionShiftReduction {
  import opened FusionAcceptance
  import opened FusionAnalyzer
  import opened FusionCompile
  import opened FusionDispatch
  import opened FusionHeads
  import opened FusionIr
  import opened FusionNullSafety
  import opened FusionNulls
  import opened FusionReduction
  import opened FusionReference
  import opened FusionScanLimits
  import opened FusionSound
  import opened Options

  /** The numbers the device sees: the head filled with zeros. */
  function Filled(xs: seq<real>, w: nat): (zs: seq<real>)
    ensures |zs| == |xs|
  {
    Constants(0.0, |xs| - |Surviving(xs, w)|) + Surviving(xs, w)
  }

  // ----- sums -----

  lemma {:induction false} TotalOfZeros(k: nat)
    ensures Total(Constants(0.0, k)) == 0.0
  {
    if k > 0 {
      TotalOfZeros(k - 1);
      assert Constants(0.0, k)[..k - 1] == Constants(0.0, k - 1);
    }
  }

  lemma {:induction false} TotalFilled(k: nat, ys: seq<real>)
    ensures Total(Constants(0.0, k) + ys) == Total(ys)
  {
    if ys == [] {
      TotalOfZeros(k);
      assert Constants(0.0, k) + ys == Constants(0.0, k);
    } else {
      var m := |ys| - 1;
      TotalFilled(k, ys[..m]);
      assert (Constants(0.0, k) + ys)[..k + m] == Constants(0.0, k) + ys[..m];
    }
  }

  function Squares(xs: seq<real>): (out: seq<real>)
    ensures |out| == |xs|
  {
    seq(|xs|, i requires 0 <= i < |xs| => SquareOf(xs[i]))
  }

  lemma SquaresFilled(k: nat, ys: seq<real>)
    ensures Squares(Constants(0.0, k) + ys) == Constants(0.0, k) + Squares(ys)
  {
    var zs := Constants(0.0, k) + ys;
    forall i | 0 <= i < |zs|
      ensures Squares(zs)[i] == (Constants(0.0, k) + Squares(ys))[i]
    {
      if i < k {
        assert zs[i] == 0.0 && 0.0 * 0.0 == 0.0;
      }
    }
  }

  // ----- extremes -----

  lemma {:induction false} LeastSpec(xs: seq<real>)
    requires xs != []
    ensures Least(xs) in xs && forall i | 0 <= i < |xs| :: Least(xs) <= xs[i]
  {
    var m := |xs| - 1;
    if m > 0 {
      LeastSpec(xs[..m]);
    }
  }

  lemma {:induction false} GreatestSpec(xs: seq<real>)
    requires xs != []
    ensures Greatest(xs) in xs && forall i | 0 <= i < |xs| :: Greatest(xs) >= xs[i]
  {
    var m := |xs| - 1;
    if m > 0 {
      GreatestSpec(xs[..m]);
    }
  }

  /** Constants join the numbers: the minimum stays exactly when one of them is not positive. */
  lemma LeastFilled(k: nat, ys: seq<real>)
    requires k > 0 && ys != []
    ensures Least(Constants(0.0, k) + ys) == Least(ys) <==> exists i | 0 <= i < |ys| :: ys[i] <= 0.0
  {
    hide Least;
    var zs := Constants(0.0, k) + ys;
    LeastSpec(zs);
    LeastSpec(ys);
    assert zs[0] == 0.0;
    assert forall i | 0 <= i < |ys| :: zs[k + i] == ys[i];
    assert forall i | 0 <= i < |zs| :: zs[i] == 0.0 || (k <= i && zs[i] == ys[i - k]);
  }

  lemma GreatestFilled(k: nat, ys: seq<real>)
    requires k > 0 && ys != []
    ensures Greatest(Constants(0.0, k) + ys) == Greatest(ys) <==> exists i | 0 <= i < |ys| :: ys[i] >= 0.0
  {
    hide Greatest;
    var zs := Constants(0.0, k) + ys;
    GreatestSpec(zs);
    GreatestSpec(ys);
    assert zs[0] == 0.0;
    assert forall i | 0 <= i < |ys| :: zs[k + i] == ys[i];
    assert forall i | 0 <= i < |zs| :: zs[i] == 0.0 || (k <= i && zs[i] == ys[i - k]);
  }

  // ----- means -----

  lemma QuotientsEqual(s: real, n: real, m: real)
    requires n > m > 0.0
    ensures s / n == s / m <==> s == 0.0
  {
    if s / n == s / m {
      QuotientTimes(s, n);
      QuotientTimes(s, m);
      ScaledDifference(s / n, n, m, s);
    }
  }

  lemma QuotientTimes(s: real, n: real)
    requires n > 0.0
    ensures (s / n) * n == s
  {
  }

  lemma ScaledDifference(q: real, n: real, m: real, s: real)
    requires q * n == s && q * m == s && n > m
    ensures s == 0.0
  {
    var d := n - m;
    assert q * n == q * m + q * d;
    ZeroFactor(q, d);
    assert 0.0 * n == 0.0;
  }

  lemma ZeroFactor(q: real, d: real)
    requires q * d == 0.0 && d > 0.0
    ensures q == 0.0
  {
  }

  // ----- variances -----

  /** The sum of squared deviations from any centre. */
  lemma {:induction false} DeviationsFrom(xs: seq<real>, c: real)
    ensures Total(Deviations(xs, c)) == Centred(Total(Squares(xs)), Total(xs), |xs| as real, c)
  {
    hide Total, Deviations, Squares, Centred;
    if xs == [] {
      NothingToAdd(xs, c);
    } else {
      var m := |xs| - 1;
      var t, x := xs[..m], xs[m];
      DeviationsFrom(t, c);
      PrefixSquares(xs, c);
      LastAdded(Deviations(xs, c));
      LastAdded(Squares(xs));
      LastAdded(xs);
      assert |xs| as real == |t| as real + 1.0;
      DeviationStep(Total(Squares(t)), Total(t), |t| as real, c, x);
    }
  }

  /** Squared deviations from a centre, from the sums. */
  function Centred(q: real, s: real, n: real, c: real): real {
    q - 2.0 * c * s + n * (c * c)
  }

  lemma NothingToAdd(xs: seq<real>, c: real)
    requires xs == []
    ensures Total(Deviations(xs, c)) == Centred(Total(Squares(xs)), Total(xs), |xs| as real, c)
  {
  }

  lemma LastAdded(xs: seq<real>)
    requires xs != []
    ensures Total(xs) == Total(xs[..|xs| - 1]) + xs[|xs| - 1]
  {
  }

  lemma PrefixSquares(xs: seq<real>, c: real)
    requires xs != []
    ensures var m := |xs| - 1;
            Deviations(xs, c)[..m] == Deviations(xs[..m], c) && Squares(xs)[..m] == Squares(xs[..m])
            && Deviations(xs, c)[m] == SquareOf(xs[m] - c) && Squares(xs)[m] == SquareOf(xs[m])
  {
    hide SquareOf;
  }

  lemma DeviationStep(q: real, s: real, n: real, c: real, x: real)
    ensures Centred(q, s, n, c) + SquareOf(x - c) == Centred(q + SquareOf(x), s + x, n + 1.0, c)
  {
  }

  lemma SpreadDef(xs: seq<real>)
    requires xs != []
    ensures Spread(xs) == Total(Deviations(xs, Average(xs))) && Average(xs) == Total(xs) / |xs| as real
  {
  }

  /** The spread is the sum of squares less the squared sum over the count. */
  lemma SpreadForm(xs: seq<real>)
    requires xs != []
    ensures Spread(xs) == Total(Squares(xs)) - SquareOf(Total(xs)) / |xs| as real
  {
    hide Total, Deviations, Squares, Spread, Average, Centred;
    SpreadDef(xs);
    DeviationsFrom(xs, Average(xs));
    CentredForm(Total(Squares(xs)), Total(xs), |xs| as real, Average(xs));
  }

  lemma CentredForm(q: real, s: real, n: real, c: real)
    requires n > 0.0 && c == s / n
    ensures Centred(q, s, n, c) == q - SquareOf(s) / n
  {
    assert c * n == s;
    assert n * (c * c) == s * c;
    assert s * s / n == s * c;
  }

  /** A sample variance times its denominators. */
  lemma ClearedVariance(q: real, t: real, n: real, x: real, c: real, a: real)
    requires n > 1.0 && x == (q - t / n) / (n - 1.0) && c == n * (n - 1.0) && a == n * q - t
    ensures c * x == a && c > 0.0
  {
    var k, v := n - 1.0, q - t / n;
    QuotientTimes(t, n);
    QuotientTimes(v, k);
    ProductPositive(n, k);
    assert x * k == v;
    assert n * v == n * q - (t / n) * n;
    RealAssociates(n, k, x);
    assert k * x == x * k;
  }

  lemma Factored(q: real, t: real, n: real, m: real, a: real, b: real, cn: real, cm: real, d: real, gap: real)
    requires d == m - n && a == n * q - t && b == m * q - t && cn == n * (n - 1.0) && cm == m * (m - 1.0)
    requires gap == n * m * q - (n + m - 1.0) * t
    ensures a * cm - b * cn == d * gap
  {
  }

  lemma Cancels(c: real, x: real, y: real)
    requires c > 0.0 || c < 0.0
    ensures c * x == c * y <==> x == y
  {
    if c * x == c * y {
      assert c * (x - y) == 0.0;
    }
  }

  /** `n m Q = (n + m - 1) S^2`. */
  predicate Balanced(n: real, m: real, q: real, t: real) {
    n * m * q == (n + m - 1.0) * t
  }

  /** Two sample variances of the same sum and sum of squares, over different counts. */
  lemma VariancesEqual(q: real, t: real, n: real, m: real)
    requires n > m > 1.0
    ensures (q - t / n) / (n - 1.0) == (q - t / m) / (m - 1.0) <==> Balanced(n, m, q, t)
  {
    VariancesDiffer(q, t, n, m, (q - t / n) / (n - 1.0), (q - t / m) / (m - 1.0), n * m * q - (n + m - 1.0) * t);
  }

  lemma VariancesDiffer(q: real, t: real, n: real, m: real, x: real, y: real, gap: real)
    requires n > m > 1.0 && x == (q - t / n) / (n - 1.0) && y == (q - t / m) / (m - 1.0)
    requires gap == n * m * q - (n + m - 1.0) * t
    ensures x == y <==> gap == 0.0
  {
    var a, b, cn, cm, d := n * q - t, m * q - t, n * (n - 1.0), m * (m - 1.0), m - n;
    ClearedVariance(q, t, n, x, cn, a);
    ClearedVariance(q, t, m, y, cm, b);
    Factored(q, t, n, m, a, b, cn, cm, d, gap);
    GapDecides(cn, cm, x, y, a, b, d, gap);
  }

  lemma GapDecides(cn: real, cm: real, x: real, y: real, a: real, b: real, d: real, gap: real)
    requires cn > 0.0 && cm > 0.0 && cn * x == a && cm * y == b && a * cm - b * cn == d * gap && d < 0.0
    ensures x == y <==> gap == 0.0
  {
    CrossMultiplied(cn, cm, x, y, a, b);
    Cancels(d, gap, 0.0);
    assert d * 0.0 == 0.0;
  }

  lemma CrossMultiplied(cn: real, cm: real, x: real, y: real, a: real, b: real)
    requires cn > 0.0 && cm > 0.0 && cn * x == a && cm * y == b
    ensures x == y <==> a * cm - b * cn == 0.0
  {
    var c := cn * cm;
    ProductPositive(cn, cm);
    assert c * x == a * cm by {
      Reordered(cn, cm, x);
    }
    assert c * y == b * cn by {
      Reordered(cm, cn, y);
      assert c == cm * cn;
    }
    Cancels(c, x, y);
  }

  lemma Reordered(a: real, b: real, x: real)
    ensures (a * b) * x == (a * x) * b
  {
  }

  // ----- exactly when -----

  /** What can be looked up before the call: whether the zeros at the head are harmless. */
  predicate HarmlessHead(op: ReduceOp, xs: seq<real>, w: nat) {
    var n, ys := |xs|, Surviving(xs, w);
    w == 0 || n == 0 ||
    match op
    case Sum => true
    case Mean => w < n && Total(ys) == 0.0
    case Min => w < n && exists i | 0 <= i < |ys| :: ys[i] <= 0.0
    case Max => w < n && exists i | 0 <= i < |ys| :: ys[i] >= 0.0
    case Var => n == 1 || (|ys| >= 2 && HarmlessSpread(ys, n))
    case Std => n == 1 || (|ys| >= 2 && HarmlessSpread(ys, n))
  }

  /** The filled head does not change the variance, by the count, the sum and the sum of squares of the
      surviving numbers. */
  predicate HarmlessSpread(ys: seq<real>, n: nat) {
    Balanced(n as real, |ys| as real, Total(Squares(ys)), SquareOf(Total(ys)))
  }

  /** The answer of the device for a shifted column of numbers. */
  function AnswerOver(op: ReduceOp, root: real -> real, zs: seq<real>): Option<real> {
    Finish(op, root, |zs|, if zs == [] then 0.0 else DeviceReduce(op, root, zs))
  }

  lemma AnswerOfOwn(op: ReduceOp, root: real -> real, zs: seq<real>)
    requires RootLaw(root)
    ensures AnswerOver(op, root, zs) == ReduceNumbers(op, root, zs)
  {
    hide DeviceReduce, Finish, RootLaw, ReduceNumbers;
    var col := seq(|zs|, i requires 0 <= i < |zs| => Val(Num(zs[i])));
    AllNumbers(col, zs);
    FinishIsPolars(op, root, col, if zs == [] then 0.0 else DeviceReduce(op, root, zs));
  }

  lemma SpreadsEqual(q: real, t: real, n: real, m: real, a: real, b: real)
    requires n > m > 1.0 && a == q - t / n && b == q - t / m
    ensures a / (n - 1.0) == b / (m - 1.0) <==> Balanced(n, m, q, t)
  {
    hide Balanced;
    VariancesEqual(q, t, n, m);
  }

  lemma SpreadOfFilled(ys: seq<real>, k: nat)
    requires |ys| >= 2 && k > 0
    ensures var n, m := (k + |ys|) as real, |ys| as real;
            Spread(Constants(0.0, k) + ys) / (n - 1.0) == Spread(ys) / (m - 1.0) <==> HarmlessSpread(ys, k + |ys|)
  {
    hide Total, Squares, Spread, SquareOf, Balanced;
    var zs := Constants(0.0, k) + ys;
    SpreadForm(zs);
    SpreadForm(ys);
    TotalFilled(k, ys);
    SquaresFilled(k, ys);
    TotalFilled(k, Squares(ys));
    SpreadsEqual(Total(Squares(ys)), SquareOf(Total(ys)), (k + |ys|) as real, |ys| as real, Spread(zs), Spread(ys));
  }

  lemma VarOverShift(root: real -> real, ys: seq<real>, k: nat)
    requires k > 0 && k + |ys| >= 2 && RootLaw(root)
    ensures ReduceNumbers(Var, root, Constants(0.0, k) + ys) == ReduceNumbers(Var, root, ys) <==> |ys| >= 2 && HarmlessSpread(ys, k + |ys|)
    ensures ReduceNumbers(Std, root, Constants(0.0, k) + ys) == ReduceNumbers(Std, root, ys) <==> |ys| >= 2 && HarmlessSpread(ys, k + |ys|)
  {
    hide Spread, HarmlessSpread, RootLaw, Constants;
    var zs := Constants(0.0, k) + ys;
    if |ys| >= 2 {
      SpreadOfFilled(ys, k);
      assert (|zs| - 1) as real == (k + |ys|) as real - 1.0 && (|ys| - 1) as real == |ys| as real - 1.0;
      SpreadNonNegative(zs);
      SpreadNonNegative(ys);
      var a, b := Spread(zs) / (|zs| - 1) as real, Spread(ys) / (|ys| - 1) as real;
      QuotientNonNegative(Spread(zs), (|zs| - 1) as real);
      QuotientNonNegative(Spread(ys), (|ys| - 1) as real);
      RootInjective(root, a, b);
      assert ReduceNumbers(Var, root, zs) == Some(a) && ReduceNumbers(Var, root, ys) == Some(b);
      assert ReduceNumbers(Std, root, zs) == Some(root(a)) && ReduceNumbers(Std, root, ys) == Some(root(b));
    }
  }

  lemma MeanOverShift(root: real -> real, ys: seq<real>, k: nat)
    requires k > 0
    ensures ReduceNumbers(Mean, root, Constants(0.0, k) + ys) == ReduceNumbers(Mean, root, ys) <==> ys != [] && Total(ys) == 0.0
  {
    hide Total, Constants;
    TotalFilled(k, ys);
    if ys != [] {
      QuotientsEqual(Total(ys), (k + |ys|) as real, |ys| as real);
    }
  }

  lemma NumbersOverShift(op: ReduceOp, root: real -> real, xs: seq<real>, w: nat)
    requires RootLaw(root)
    ensures ReduceNumbers(op, root, Filled(xs, w)) == ReduceNumbers(op, root, Surviving(xs, w)) <==> HarmlessHead(op, xs, w)
  {
    hide RootLaw, HarmlessSpread, Total, Spread, Least, Greatest, Constants;
    var ys := Surviving(xs, w);
    var k := |xs| - |ys|;
    assert Filled(xs, w) == Constants(0.0, k) + ys;
    if k == 0 {
      assert Constants(0.0, k) + ys == ys;
    } else {
      match op
      case Sum => TotalFilled(k, ys);
      case Mean => MeanOverShift(root, ys, k);
      case Min =>
        if ys != [] {
          LeastFilled(k, ys);
        }
      case Max =>
        if ys != [] {
          GreatestFilled(k, ys);
        }
      case Var =>
        if |xs| >= 2 {
          VarOverShift(root, ys, k);
        }
      case Std =>
        if |xs| >= 2 {
          VarOverShift(root, ys, k);
        }
    }
  }

  // ----- the expression -----

  lemma ShiftedReals(sem: Sem, frame: Frame, x: string, xs: seq<real>, w: nat)
    requires RealColumn(frame, x, xs)
    ensures DeviceReals(sem, frame, ShiftOf(x, w)) == Filled(xs, w)
  {
    hide PEval, DEval, Constants;
    ShiftedOperand(sem, frame, x, w);
  }

  lemma NoNumbers()
    ensures Numbers([]) == []
  {
  }

  lemma {:induction false} HeadNumbers(w: nat, ys: seq<real>, m: nat)
    requires m <= w + |ys|
    ensures Numbers(HeadNulls(w, ys)[..m]) == if m <= w then [] else ys[..m - w]
  {
    hide Numbers;
    var col := HeadNulls(w, ys);
    if m == 0 {
      NoNumbers();
    } else {
      HeadNumbers(w, ys, m - 1);
      assert col[..m] == col[..m - 1] + [col[m - 1]];
      NumbersAppend(col[..m - 1], col[m - 1]);
      if m > w {
        assert ys[..m - w] == ys[..m - 1 - w] + [ys[m - 1 - w]];
      }
    }
  }

  lemma SurvivingNumbers(sem: Sem, frame: Frame, x: string, xs: seq<real>, w: nat)
    requires RealColumn(frame, x, xs)
    ensures Numbers(PolarsColumn(sem, frame, ShiftOf(x, w))) == Surviving(xs, w)
  {
    hide PEval, DEval, Numbers;
    ShiftedOperand(sem, frame, x, w);
    var col, ys, m := PolarsColumn(sem, frame, ShiftOf(x, w)), Surviving(xs, w), Emptied(xs, w);
    assert col == HeadNulls(m, ys);
    HeadNumbers(m, ys, |xs|);
    assert col[..|xs|] == col && ys[..|ys|] == ys;
  }

  lemma ShiftIsAccepted(ctx: Ctx, x: string, w: nat)
    requires ctx.gather.None? && x in ctx.schema
    ensures Analyze(ctx, ShiftOf(x, w)).Some?
  {
    hide Analyze;
    ShiftOfIsChain(x, w);
    ShiftIsViewed(x, w);
    AcceptsExactly(ShiftView(x, w), ctx, ShiftOf(x, w));
  }

  /** A reduction of a shifted null-free column is accepted and routed to the device as it is, and its
      scalar is Polars' if and only if the zeros that fill the head are harmless: always for a sum, and for
      the others by the exact condition on the numbers that remain. */
  lemma ShiftReductionExactly(ctx: Ctx, op: ReduceOp, root: real -> real, sem: Sem, frame: Frame, x: string, xs: seq<real>, w: nat)
    requires ctx.gather.None? && x in ctx.schema && RealColumn(frame, x, xs) && RootLaw(root)
    ensures var e := ShiftOf(x, w);
            Analyze(ctx, e).Some? && Reads(e) == {x} && NullFree(frame, Reads(e)) && RouteReduction(true, e) == OnDevice(false) &&
            ((DeviceAnswer(op, root, sem, StagedFrame(frame, RouteReduction(true, e), Reads(e)), e)
              == PolarsReduce(op, root, PolarsColumn(sem, frame, e)))
             <==> HarmlessHead(op, xs, w))
  {
    hide Analyze, Finish, DeviceReduce, ReduceNumbers, Numbers, PolarsColumn, DeviceReals, HarmlessHead, RootLaw, Filled, Surviving;
    ShiftIsAccepted(ctx, x, w);
    ShiftOfIsChain(x, w);
    ShiftedReals(sem, frame, x, xs, w);
    SurvivingNumbers(sem, frame, x, xs, w);
    AnswerOfOwn(op, root, Filled(xs, w));
    NumbersOverShift(op, root, xs, w);
  }

  // ----- a constant added -----

  lemma {:induction false} TotalRaised(zs: seq<real>, k: real)
    ensures Total(Raised(zs, k)) == Total(zs) + |zs| as real * k
  {
    if zs != [] {
      var m := |zs| - 1;
      TotalRaised(zs[..m], k);
      assert Raised(zs, k)[..m] == Raised(zs[..m], k);
      OneMore(m, k);
    }
  }

  lemma QuotientRaised(t: real, n: real, k: real)
    requires n > 0.0
    ensures (t + n * k) / n == t / n + k
  {
    var q := t / n;
    assert t + n * k == (q + k) * n;
  }

  lemma AverageRaised(zs: seq<real>, k: real)
    requires zs != []
    ensures Average(Raised(zs, k)) == Average(zs) + k
  {
    hide Total, Raised;
    TotalRaised(zs, k);
    QuotientRaised(Total(zs), |zs| as real, k);
  }

  lemma SpreadRaised(zs: seq<real>, k: real)
    requires zs != []
    ensures Spread(Raised(zs, k)) == Spread(zs)
  {
    hide Average, Total, SquareOf;
    AverageRaised(zs, k);
    var a := Average(zs);
    assert forall i | 0 <= i < |zs| :: zs[i] + k - (a + k) == zs[i] - a;
    assert Deviations(Raised(zs, k), a + k) == Deviations(zs, a);
  }

  lemma {:induction false} ExtremesRaised(zs: seq<real>, k: real)
    requires zs != []
    ensures Least(Raised(zs, k)) == Least(zs) + k && Greatest(Raised(zs, k)) == Greatest(zs) + k
  {
    var m := |zs| - 1;
    if m > 0 {
      ExtremesRaised(zs[..m], k);
      assert Raised(zs, k)[..m] == Raised(zs[..m], k);
    }
  }

  /** Adding a constant to the numbers: sums grow with their count, moments about zero by the constant, and
      spreads not at all. */
  function RaisedAnswer(op: ReduceOp, answer: Option<real>, n: nat, k: real): Option<real> {
    if answer.None? || op.Var? || op.Std? then answer
    else if op.Sum? then Some(answer.value + n as real * k)
    else Some(answer.value + k)
  }

  lemma ReduceRaised(op: ReduceOp, root: real -> real, zs: seq<real>, k: real)
    ensures ReduceNumbers(op, root, Raised(zs, k)) == RaisedAnswer(op, ReduceNumbers(op, root, zs), |zs|, k)
  {
    hide Total, Average, Spread, Least, Greatest;
    TotalRaised(zs, k);
    if zs != [] {
      AverageRaised(zs, k);
      SpreadRaised(zs, k);
      ExtremesRaised(zs, k);
    }
  }

  /** What can be looked up before reducing `x.shift(w) + k`. */
  predicate HarmlessRaisedHead(op: ReduceOp, xs: seq<real>, w: nat, k: real) {
    if op.Sum? then k == 0.0 || w == 0 || |xs| == 0 else HarmlessHead(op, xs, w)
  }

  lemma CountsDiffer(n: nat, m: nat, k: real)
    requires m <= n
    ensures n as real * k == m as real * k <==> k == 0.0 || n == m
  {
    var d := (n - m) as real;
    assert n as real * k - m as real * k == d * k;
    if d * k == 0.0 && k != 0.0 {
      assert d == (d * k) / k;
    }
  }

  lemma RaisedOverShift(op: ReduceOp, root: real -> real, xs: seq<real>, w: nat, k: real)
    requires RootLaw(root)
    ensures ReduceNumbers(op, root, Raised(Filled(xs, w), k)) == ReduceNumbers(op, root, Raised(Surviving(xs, w), k))
       <==> HarmlessRaisedHead(op, xs, w, k)
  {
    hide RootLaw, HarmlessHead, Total, Spread, Least, Greatest, Average, Filled;
    var zs, ys := Filled(xs, w), Surviving(xs, w);
    ReduceRaised(op, root, zs, k);
    ReduceRaised(op, root, ys, k);
    NumbersOverShift(op, root, xs, w);
    if op.Sum? {
      SumIsHarmless(xs, w);
      CountsDiffer(|zs|, |ys|, k);
    } else {
      RaisedAlike(op, ReduceNumbers(op, root, zs), ReduceNumbers(op, root, ys), |zs|, |ys|, k);
    }
  }

  lemma SumIsHarmless(xs: seq<real>, w: nat)
    ensures HarmlessHead(Sum, xs, w)
  {
  }

  lemma RaisedAlike(op: ReduceOp, a: Option<real>, b: Option<real>, n: nat, m: nat, k: real)
    requires !op.Sum?
    ensures RaisedAnswer(op, a, n, k) == RaisedAnswer(op, b, m, k) <==> a == b
  {
  }

  lemma RaisedValues(frame: Frame, x: string, xs: seq<real>, w: nat, k: real)
    requires RealColumn(frame, x, xs)
    ensures DeviceReals(REFERENCE, frame, ShiftedPlus(x, w, k)) == Raised(Filled(xs, w), k)
    ensures Numbers(PolarsColumn(REFERENCE, frame, ShiftedPlus(x, w, k))) == Raised(Surviving(xs, w), k)
  {
    hide PEval, DEval, REFERENCE, Numbers, ShiftedPlus;
    var e, ys, m := ShiftedPlus(x, w, k), Raised(Surviving(xs, w), k), Emptied(xs, w);
    PlusIsHeaded(frame, x, xs, w, k);
    assert Constants(k, m) + ys == Raised(Filled(xs, w), k);
    assert DeviceReals(REFERENCE, frame, e) == Constants(k, m) + ys;
    var col := PolarsColumn(REFERENCE, frame, e);
    assert col == HeadNulls(m, ys);
    HeadNumbers(m, ys, |xs|);
    assert col[..|xs|] == col && ys[..|ys|] == ys;
  }

  /** The same reductions of a shift plus a constant: the constant fills the head, so a sum is ahead by one
      for every row emptied, and the others are right exactly when they were without it. */
  lemma ShiftedPlusReductionExactly(ctx: Ctx, op: ReduceOp, root: real -> real, frame: Frame, x: string, xs: seq<real>,
                                    w: nat, k: real)
    requires ctx.gather.None? && x in ctx.schema && RealColumn(frame, x, xs) && RootLaw(root)
    ensures var e := ShiftedPlus(x, w, k);
            Analyze(ctx, e).Some? && NullFree(frame, Reads(e)) && RouteReduction(true, e) == OnDevice(false) &&
            ((DeviceAnswer(op, root, REFERENCE, StagedFrame(frame, RouteReduction(true, e), Reads(e)), e)
              == PolarsReduce(op, root, PolarsColumn(REFERENCE, frame, e)))
             <==> HarmlessRaisedHead(op, xs, w, k))
  {
    hide Analyze, Finish, DeviceReduce, ReduceNumbers, Numbers, PolarsColumn, DeviceReals, HarmlessRaisedHead, RootLaw, Filled,
      Surviving, REFERENCE, ShiftedPlus, Raised, Viewed, Supported, Maskable, Reads, NoShift;
    var e := ShiftedPlus(x, w, k);
    ShiftIsMaskable(x, w, k);
    AcceptsExactly(PlusView(x, w, k), ctx, e);
    ColumnHasNoNull(frame, x, xs);
    RaisedValues(frame, x, xs, w, k);
    AnswerOfOwn(op, root, Raised(Filled(xs, w), k));
    RaisedOverShift(op, root, xs, w, k);
  }
}

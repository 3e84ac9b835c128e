/** Parameters that the lowering drops: the decimals of `round`, and the base of a logarithm near `e`. */
module FusionParameterLimits {
  import ComplexSums
  import opened FusionAcceptance
  import opened FusionAgreement
  import opened FusionCompile
  import opened FusionDispatch
  import opened FusionHeads
  import opened FusionIr
  import opened FusionLimits
  import opened FusionNullSafety
  import opened FusionNulls
  import opened FusionReference
  import opened FusionSound
  import opened Options

  // ----- functions of one column -----

  /** A function of one column, at a row. */
  lemma FunctionAtRow(sem: Sem, frame: Frame, x: string, xs: seq<real>, f: seq<Cell> -> Cell, op: OpId, i: nat)
    requires RealColumn(frame, x, xs) && i < frame.n
    ensures PAt(PElementwise(frame.n, Lifted(f), [PRows(frame.col(x))]), i) == Val(f([Num(xs[i])]))
    ensures At(Elementwise(sem, frame.n, op, [Rows(StageCells(frame.col(x)))]), i) == sem.apply(op, [Num(xs[i])])
  {
    hide Lift;
    var ps, ds := [PRows(frame.col(x))], [Rows(StageCells(frame.col(x)))];
    assert ps[0].PRows? && ds[0].Rows?;
    assert PCellsAt(ps, i) == [Val(Num(xs[i]))] && CellsAt(ds, i) == [Num(xs[i])];
    LiftOneValue(f, Num(xs[i]));
  }

  lemma RealIsNullFree(frame: Frame, x: string, xs: seq<real>)
    requires RealColumn(frame, x, xs)
    ensures NullFree(frame, {x})
  {
  }

  lemma LiftOneValue(f: seq<Cell> -> Cell, c: Cell)
    ensures Lift(f, [Val(c)]) == Val(f([c]))
  {
    var cells := [Val(c)];
    assert seq(|cells|, k requires 0 <= k < |cells| => if cells[k].Val? then cells[k].c else NaN) == [c];
  }

  // ----- rounding -----

  /** `x.round(d)`. */
  function Rounded(x: string, d: nat): Expr {
    Function(Mapped(Round, d), [Column(0, x)])
  }

  /** Within half a unit of the `d`-th decimal of a whole number. */
  predicate NearWhole(x: real, d: nat) {
    -0.5 <= Magnified(x - HalfEven(x) as real, Ten(d)) <= 0.5
  }

  lemma HalfEvenNear(x: real)
    ensures -0.5 <= x - HalfEven(x) as real <= 0.5
  {
  }

  /** Halves next to an even number round to it. */
  lemma HalfToEven(x: real, m: int)
    requires m % 2 == 0 && -0.5 <= x - m as real <= 0.5
    ensures HalfEven(x) == m
  {
  }

  lemma TenIsEven(d: nat)
    requires d > 0
    ensures exists t: int :: t >= 5 && Ten(d) == (2 * t) as real
  {
    if d == 1 {
      assert Ten(1) == (2 * 5) as real;
    } else {
      TenIsEven(d - 1);
      var t: int :| t >= 5 && Ten(d - 1) == (2 * t) as real;
      assert Ten(d) == (2 * (10 * t)) as real;
    }
  }

  /** Rounding to `d` decimals gives the nearest whole number exactly if the number is near it. */
  lemma RoundsAlike(x: real, d: nat)
    ensures RoundTo(x, d) == RoundTo(x, 0) <==> d == 0 || NearWhole(x, d)
  {
    if d > 0 {
      TenIsEven(d);
      var t: int :| t >= 5 && Ten(d) == (2 * t) as real;
      hide HalfEven, Ten, Magnified, Reduced;
      WholeRounding(x);
      ScaledWhole(x, HalfEven(x), t, Ten(d));
      ScaledDown(HalfEven(Magnified(x, Ten(d))) as real, Ten(d), HalfEven(x) as real);
    }
  }

  lemma WholeRounding(x: real)
    ensures RoundTo(x, 0) == HalfEven(x) as real
  {
    hide HalfEven;
    assert Magnified(x, Ten(0)) == x;
  }

  lemma ScaledDown(a: real, p: real, m: real)
    requires p >= 1.0
    ensures Reduced(a, p) == m <==> a == Magnified(m, p)
  {
    var q := a / p;
    assert a == q * p;
    if a == m * p {
      assert (q - m) * p == 0.0;
    }
  }

  lemma {:induction false} RealProduct(a: nat, b: int)
    ensures (a * b) as real == a as real * b as real
  {
    if a > 0 {
      RealProduct(a - 1, b);
      assert a * b == (a - 1) * b + b;
      StepProduct((a - 1) as real, b as real);
    }
  }

  lemma StepProduct(a: real, b: real)
    ensures (a + 1.0) * b == a * b + b
  {
  }

  lemma Spaced(x: real, m: real, p: real)
    ensures Magnified(x, p) - Magnified(m, p) == Magnified(x - m, p)
  {
  }

  lemma EvenMultiple(m: int, t: int)
    ensures (m * (2 * t)) % 2 == 0
  {
    assert m * (2 * t) == 2 * (m * t);
  }

  lemma ScaledWhole(x: real, m: int, t: nat, p: real)
    requires p == (2 * t) as real
    ensures HalfEven(Magnified(x, p)) as real == Magnified(m as real, p) <==> -0.5 <= Magnified(x - m as real, p) <= 0.5
  {
    var k := m * (2 * t);
    assert Magnified(m as real, p) == k as real by {
      RealProduct(2 * t, m);
      Swapped(2 * t, m);
    }
    EvenMultiple(m, t);
    hide HalfEven, Magnified;
    Spaced(x, m as real, p);
    HalfEvenNear(Magnified(x, p));
    if -0.5 <= Magnified(x, p) - k as real <= 0.5 {
      HalfToEven(Magnified(x, p), k);
    }
  }

  lemma Swapped(a: int, b: int)
    ensures a * b == b * a && a as real * b as real == b as real * a as real
  {
  }

  /** `round` with decimals is accepted and sent to the device, which rounds to whole numbers: right exactly
      if every number is near one. */
  lemma RoundedExactly(ctx: Ctx, frame: Frame, x: string, xs: seq<real>, d: nat, spare: seq<Cell>)
    requires ctx.gather.None? && x in ctx.schema && RealColumn(frame, x, xs) && |spare| == frame.n
    ensures var e := Rounded(x, d);
            Bare(ctx, frame, e) &&
            (Delivered(REFERENCE, frame, e, RouteBinding(ctx, true, Reads(e), e), spare) == PolarsColumn(REFERENCE, frame, e)
             <==> d == 0 || forall i | 0 <= i < frame.n :: NearWhole(xs[i], d))
  {
    hide Analyze, Delivered, PolarsColumn, RoundTo, NearWhole, PEval, DEval, REFERENCE, Reads, RouteBinding, Viewed, Supported, NoShift,
      FrameEnv, NullFree;
    var e := Rounded(x, d);
    var view := (id: nat) => ColLeaf(x);
    OneColumn(e, x, view);
    RealIsNullFree(frame, x, xs);
    RoutedBare(ctx, frame, e, view, x);
    DeliveredByRow(REFERENCE, frame, e, spare);
    forall i | 0 <= i < frame.n
      ensures PAt(PEval(REFERENCE, frame, e), i) == Val(At(DEval(FrameEnv(REFERENCE, frame), e), i)) <==> d == 0 || NearWhole(xs[i], d)
    {
      RoundedAtRow(frame, x, xs, d, i);
      RoundsAlike(xs[i], d);
    }
    assert RouteBinding(ctx, true, Reads(e), e) == Unmasked;
    if d != 0 && exists i | 0 <= i < frame.n :: !NearWhole(xs[i], d) {
      var i :| 0 <= i < frame.n && !NearWhole(xs[i], d);
      assert PAt(PEval(REFERENCE, frame, e), i) != Val(At(DEval(FrameEnv(REFERENCE, frame), e), i));
    } else {
      forall i | 0 <= i < frame.n
        ensures PAt(PEval(REFERENCE, frame, e), i) == Val(At(DEval(FrameEnv(REFERENCE, frame), e), i))
      {
        assert d == 0 || NearWhole(xs[i], d);
      }
    }
  }

  lemma OneColumn(e: Expr, x: string, view: nat -> Leaf)
    requires e.Function? && e.fn.Mapped? && e.args == [Column(0, x)] && view(0) == ColLeaf(x)
    ensures Viewed(view, e) && Supported(e) && NoShift(e) && Reads(e) == {x}
  {
    var rest := e.args[1..];
    assert rest == [];
    assert Viewed(view, e.args[0]) && Supported(e.args[0]) && NoShift(e.args[0]) && Reads(e.args[0]) == {x};
    assert ViewedAll(view, rest) && SupportedAll(rest) && NoShiftAll(rest) && ReadsAll(rest) == {};
    assert ViewedAll(view, e.args) && SupportedAll(e.args) && NoShiftAll(e.args) && ReadsAll(e.args) == {x};
  }

  lemma RoundReference(x: real, d: nat)
    ensures REFERENCE.mapped(Round, d, [Num(x)]) == Num(RoundTo(x, d))
    ensures REFERENCE.apply(Pw(Round), [Num(x)]) == Num(RoundTo(x, 0))
  {
  }

  lemma RoundedAtRow(frame: Frame, x: string, xs: seq<real>, d: nat, i: nat)
    requires RealColumn(frame, x, xs) && i < frame.n
    ensures PAt(PEval(REFERENCE, frame, Rounded(x, d)), i) == Val(Num(RoundTo(xs[i], d)))
    ensures At(DEval(FrameEnv(REFERENCE, frame), Rounded(x, d)), i) == Num(RoundTo(xs[i], 0))
  {
    hide RoundTo, PElementwise, Elementwise;
    var e := Rounded(x, d);
    assert e.args[1..] == [];
    assert PEvalAll(REFERENCE, frame, e.args[1..]) == [] && DEvalAll(FrameEnv(REFERENCE, frame), e.args[1..]) == [];
    assert PEvalAll(REFERENCE, frame, e.args) == [PRows(frame.col(x))];
    assert DEvalAll(FrameEnv(REFERENCE, frame), e.args) == [Rows(StageCells(frame.col(x)))];
    FunctionAtRow(REFERENCE, frame, x, xs, MappedTo(REFERENCE, Round, d), Pw(Round), i);
    RoundReference(xs[i], d);
    hide REFERENCE;
  }

  /** A failing input: 1.25 rounded to one decimal is 1.2, and the device gives 1. */
  lemma RoundedInput()
    ensures RoundTo(1.25, 1) == 1.2 && RoundTo(1.25, 0) == 1.0 && !NearWhole(1.25, 1)
  {
    assert Ten(1) == 10.0 && Ten(0) == 1.0;
    assert 12.5.Floor == 12 && 1.25.Floor == 1;
  }

  // ----- logarithms -----

  /** `x.log(base)`. */
  function LogOf(x: string, base: real): Expr {
    Function(LogFn, [Column(0, x), Literal(1, FloatLit(base))])
  }

  /** Both engines compute logarithms from one function; `NATURAL_BASE` is the base of the device's. Numbers
      that have no logarithm give NaN in both. */
  ghost predicate Logarithms(sem: Sem, ln: real -> real) {
    ln(NATURAL_BASE) == 1.0 && (forall x: real | x > 0.0 :: (ln(x) == 0.0 <==> x == 1.0) && (ln(x) == 1.0 <==> x == NATURAL_BASE)) &&
    (forall x: real :: sem.apply(LogE, [Num(x)]) == if x > 0.0 then Num(ln(x)) else NaN) &&
    forall base: real, x: real | base > 1.0 :: sem.log(base, Num(x)) == if x > 0.0 then Num(Quotient(ln(x), ln(base))) else NaN
  }

  function Quotient(a: real, b: real): real {
    if b == 0.0 then 0.0 else a / b
  }

  lemma QuotientIsOwn(a: real, b: real)
    requires b != 0.0
    ensures Quotient(a, b) == a <==> a == 0.0 || b == 1.0
  {
    var q := a / b;
    TimesQuotient(a, b, q);
    ComplexSums.KeepsExactly(b, q);
    if a == 0.0 {
      ComplexSums.RealNoZeroDivisors(b, q);
    }
  }

  lemma TimesQuotient(a: real, b: real, q: real)
    requires b != 0.0 && q == a / b
    ensures b * q == a
  {
  }

  lemma LogAtRow(sem: Sem, frame: Frame, x: string, xs: seq<real>, base: real, i: nat)
    requires RealColumn(frame, x, xs) && i < frame.n && LogOp(LogOf(x, base).args) == Some(LogE)
    ensures PAt(PEval(sem, frame, LogOf(x, base)), i) == Val(sem.log(base, Num(xs[i])))
    ensures At(DEval(FrameEnv(sem, frame), LogOf(x, base)), i) == sem.apply(LogE, [Num(xs[i])])
  {
    hide PElementwise, Elementwise;
    var e := LogOf(x, base);
    assert LogBase(e.args) == base && FnOp(e.fn, e.args) == LogE;
    FunctionAtRow(sem, frame, x, xs, LogTo(sem, base), LogE, i);
  }

  /** Its logarithm is zero in every base, or it has none. */
  predicate BaseFree(x: real) {
    x <= 0.0 || x == 1.0
  }

  lemma LogsAlike(sem: Sem, ln: real -> real, base: real, x: real)
    requires Logarithms(sem, ln) && base > 1.0
    ensures sem.log(base, Num(x)) == sem.apply(LogE, [Num(x)]) <==> base == NATURAL_BASE || BaseFree(x)
  {
    if x > 0.0 {
      QuotientIsOwn(ln(x), ln(base));
    }
  }

  /** A base within a billionth of `e` is accepted and taken for it: right exactly if it is the base of the
      device's logarithm, or no number has a logarithm other than zero. */
  lemma LogExactly(ctx: Ctx, sem: Sem, ln: real -> real, frame: Frame, x: string, xs: seq<real>, base: real, spare: seq<Cell>)
    requires ctx.gather.None? && x in ctx.schema && RealColumn(frame, x, xs) && |spare| == frame.n && Logarithms(sem, ln)
    requires -0.000000001 < base - NATURAL_BASE < 0.000000001
    ensures var e := LogOf(x, base);
            Bare(ctx, frame, e) &&
            (Delivered(sem, frame, e, RouteBinding(ctx, true, Reads(e), e), spare) == PolarsColumn(sem, frame, e)
             <==> base == NATURAL_BASE || forall i | 0 <= i < frame.n :: BaseFree(xs[i]))
  {
    hide Analyze, Delivered, PolarsColumn, PEval, DEval, Reads, RouteBinding, Viewed, Supported, NoShift, FrameEnv, NullFree,
      Logarithms, LogOf, LogOp, BaseFree;
    var e := LogOf(x, base);
    var view := (id: nat) => if id == 0 then ColLeaf(x) else LitLeaf(base);
    LogIsBare(x, base, view);
    RealIsNullFree(frame, x, xs);
    RoutedBare(ctx, frame, e, view, x);
    DeliveredByRow(sem, frame, e, spare);
    forall i | 0 <= i < frame.n
      ensures PAt(PEval(sem, frame, e), i) == Val(At(DEval(FrameEnv(sem, frame), e), i))
         <==> base == NATURAL_BASE || BaseFree(xs[i])
    {
      LogAtRow(sem, frame, x, xs, base, i);
      LogsAlike(sem, ln, base, xs[i]);
    }
    assert RouteBinding(ctx, true, Reads(e), e) == Unmasked;
    if base != NATURAL_BASE && exists i | 0 <= i < frame.n :: !BaseFree(xs[i]) {
      var i :| 0 <= i < frame.n && !BaseFree(xs[i]);
      assert PAt(PEval(sem, frame, e), i) != Val(At(DEval(FrameEnv(sem, frame), e), i));
    } else {
      forall i | 0 <= i < frame.n
        ensures PAt(PEval(sem, frame, e), i) == Val(At(DEval(FrameEnv(sem, frame), e), i))
      {
        assert base == NATURAL_BASE || BaseFree(xs[i]);
      }
    }
  }

  lemma LogIsBare(x: string, base: real, view: nat -> Leaf)
    requires view(0) == ColLeaf(x) && view(1) == LitLeaf(base) && -0.000000001 < base - NATURAL_BASE < 0.000000001
    ensures var e := LogOf(x, base);
            Viewed(view, e) && Supported(e) && NoShift(e) && Reads(e) == {x} && LogOp(e.args) == Some(LogE)
  {
    var args := LogOf(x, base).args;
    assert Viewed(view, args[0]) && Viewed(view, args[1]) && NoShift(args[0]) && NoShift(args[1]);
    assert Supported(args[0]) && Reads(args[0]) == {x} && Reads(args[1]) == {};
    PairOfArguments(view, args[0], args[1]);
    hide ViewedAll, NoShiftAll, ReadsAll;
  }

  lemma PairOfArguments(view: nat -> Leaf, a: Expr, b: Expr)
    ensures ViewedAll(view, [a, b]) <==> Viewed(view, a) && Viewed(view, b)
    ensures NoShiftAll([a, b]) <==> NoShift(a) && NoShift(b)
    ensures ReadsAll([a, b]) == Reads(a) + Reads(b)
  {
    hide Viewed, NoShift, Reads;
    assert [a, b][1..] == [b] && [b][1..] == [];
    assert ViewedAll(view, [b]) <==> Viewed(view, b);
    assert NoShiftAll([b]) <==> NoShift(b);
    assert ReadsAll([b]) == Reads(b);
  }
}

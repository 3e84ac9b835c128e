/** Conditions `FusedColumn` is proved under, on comparisons, conditions and masks: where each of them fails,
    and exactly when the device still compares, decides or masks as Polars does. */
module FusionLimits {
  import Comparisons
  import opened FusionAcceptance
  import opened FusionAgreement
  import opened FusionCompile
  import opened FusionDispatch
  import opened FusionHeads
  import opened FusionIr
  import opened FusionMask
  import opened FusionNullSafety
  import opened FusionNulls
  import opened FusionReference
  import opened FusionSound
  import opened FusionValidity
  import opened Options

  // ----- conditions of `when` -----

  /** The device takes the then-branch at row `i` of a comparison. */
  predicate Taken(op: BinOp, a: Cell, b: Cell) {
    a.Num? && b.Num? && Compare(op, a.x, b.x)
  }

  /** At no row with a null operand does the device take the then-branch. */
  ghost predicate FalseAtNulls(n: nat, op: BinOp, p: PArr, d: Arr, q: PArr, f: Arr) {
    forall i | Row(n, [p, q], i) && (PAt(p, i).Null? || PAt(q, i).Null?) :: !Taken(op, At(d, i), At(f, i))
  }

  /** A comparison decides as Polars does exactly when it is false on the device at every row where an
      operand is null. */
  lemma ComparisonDecidesExactly(sem: Sem, n: nat, op: BinOp, p: PArr, d: Arr, q: PArr, f: Arr)
    requires NanFalse(op) && CompareLaw(sem) && ArrRel(Weak, p, d, n) && ArrRel(Weak, q, f, n) && NoNaN(p) && NoNaN(q)
    ensures CondRel(PElementwise(n, PBin(sem, op), [p, q]), Elementwise(sem, n, Bin(op), [d, f]), n)
       <==> FalseAtNulls(n, op, p, d, q, f)
  {
    hide PBin, CompareLaw, NoNaN, SameChoice, ArrRel, PElementwise, Elementwise, Taken;
    var ps, ds := [p, q], [d, f];
    assert ArrRelAll(Weak, ps, ds, n);
    SameShapes(Weak, ps, ds, n);
    forall i | Row(n, ps, i)
      ensures SameChoice(PBin(sem, op)(PCellsAt(ps, i)), sem.apply(Bin(op), CellsAt(ds, i)))
         <==> (PAt(p, i).Null? || PAt(q, i).Null? ==> !Taken(op, At(d, i), At(f, i)))
    {
      RowRel(Weak, ps, ds, n, i);
      var pc, dc := PCellsAt(ps, i), CellsAt(ds, i);
      assert pc == [PAt(p, i), PAt(q, i)] && dc == [At(d, i), At(f, i)];
      assert CellRel(Weak, pc[0], dc[0]) && CellRel(Weak, pc[1], dc[1]);
      NoNaNAt(p, i);
      NoNaNAt(q, i);
      RowDecides(sem, op, PAt(p, i), At(d, i), PAt(q, i), At(f, i));
    }
    ChoicesByRow(sem, n, op, ps, ds);
  }

  lemma NoNaNAt(p: PArr, i: int)
    requires NoNaN(p)
    ensures PAt(p, i) != Val(NaN)
  {
  }

  /** An elementwise condition is the same choice at every row, or at the one row of scalars. */
  lemma ChoicesByRow(sem: Sem, n: nat, op: BinOp, ps: seq<PArr>, ds: seq<Arr>)
    requires AnyPRows(ps) <==> AnyRows(ds)
    ensures CondRel(PElementwise(n, PBin(sem, op), ps), Elementwise(sem, n, Bin(op), ds), n)
       <==> forall i | Row(n, ps, i) :: SameChoice(PBin(sem, op)(PCellsAt(ps, i)), sem.apply(Bin(op), CellsAt(ds, i)))
  {
    hide PBin, SameChoice, AnyPRows, AnyRows, PCellsAt, CellsAt;
    var pe, de := PElementwise(n, PBin(sem, op), ps), Elementwise(sem, n, Bin(op), ds);
    if !AnyPRows(ps) {
      assert Row(n, ps, 0);
      assert forall i | Row(n, ps, i) :: i == 0;
    } else {
      assert forall i | 0 <= i < n :: Row(n, ps, i);
      assert forall i | Row(n, ps, i) ::
          pe.cells[i] == PBin(sem, op)(PCellsAt(ps, i)) && de.cells[i] == sem.apply(Bin(op), CellsAt(ds, i));
    }
  }

  lemma RowDecides(sem: Sem, op: BinOp, p: PCell, d: Cell, q: PCell, f: Cell)
    requires NanFalse(op) && CompareLaw(sem) && CellRel(Weak, p, d) && CellRel(Weak, q, f) && p != Val(NaN) && q != Val(NaN)
    ensures SameChoice(PBin(sem, op)([p, q]), sem.apply(Bin(op), [d, f]))
       <==> (p.Null? || q.Null? ==> !Taken(op, d, f))
  {
    hide PBin, CompareLaw, Compare;
    CompareVerdicts(sem, op, p, q, d, f);
    CompareAt(sem, op, d, f);
  }

  /** Against a literal only the rows' own nulls matter. */
  lemma LiteralDecides(sem: Sem, n: nat, op: BinOp, p: PArr, d: Arr, b: real)
    requires NanFalse(op) && CompareLaw(sem) && p.PRows? && ArrRel(Weak, p, d, n) && NoNaN(p)
    ensures CondRel(PElementwise(n, PBin(sem, op), [p, PScalar(Val(Num(b)))]),
                    Elementwise(sem, n, Bin(op), [d, Scalar(Num(b))]), n)
       <==> FalseAtOwnNulls(n, op, p, d, b)
  {
    hide PBin, CompareLaw, PElementwise, Elementwise, CondRel, ArrRel, NoNaN, FalseAtNulls, FalseAtOwnNulls;
    var q, f := PScalar(Val(Num(b))), Scalar(Num(b));
    LiteralIsRelated(n, b);
    ComparisonDecidesExactly(sem, n, op, p, d, q, f);
    LiteralRows(n, op, p, d, b);
  }

  /** At no null of its own column does the device take the then-branch. */
  ghost predicate FalseAtOwnNulls(n: nat, op: BinOp, p: PArr, d: Arr, b: real) {
    p.PRows? && d.Rows? && |p.cells| == n == |d.cells| && forall i | 0 <= i < n && p.cells[i].Null? :: !Taken(op, d.cells[i], Num(b))
  }

  lemma LiteralIsRelated(n: nat, b: real)
    ensures ArrRel(Weak, PScalar(Val(Num(b))), Scalar(Num(b)), n) && NoNaN(PScalar(Val(Num(b))))
  {
  }

  lemma LiteralRows(n: nat, op: BinOp, p: PArr, d: Arr, b: real)
    requires p.PRows? && ArrRel(Weak, p, d, n)
    ensures var q, f := PScalar(Val(Num(b))), Scalar(Num(b));
            FalseAtNulls(n, op, p, d, q, f) <==> FalseAtOwnNulls(n, op, p, d, b)
  {
    hide Taken;
    var q, f := PScalar(Val(Num(b))), Scalar(Num(b));
    var ps := [p, q];
    assert ps[0].PRows?;
    assert forall i | 0 <= i < n :: Row(n, ps, i) && PAt(p, i) == p.cells[i] && At(d, i) == d.cells[i];
    assert forall i | Row(n, ps, i) :: 0 <= i < n;
  }

  /** `when(x.shift(w) <op> b)`. */
  function ShiftedCondition(name: BinName, x: string, w: nat, b: real): Expr {
    Binary(name, ShiftOf(x, w), Literal(2, FloatLit(b)))
  }

  /** A comparison of a shift is decided as Polars decides it exactly when the zero that
      fills its head does not satisfy it; the analyzer accepts it either way. */
  lemma ShiftedConditionExactly(sem: Sem, frame: Frame, name: BinName, x: string, w: nat, b: real)
    requires BinOpId(name).Some? && NanFalse(BinOpId(name).value) && CompareLaw(sem) && FrameShape(frame)
    requires Val(NaN) !in frame.col(x)
    ensures var c := ShiftedCondition(name, x, w, b);
            NanSafePredicate(c) &&
            (CondRel(PEval(sem, frame, c), DEval(FrameEnv(sem, frame), c), frame.n)
             <==> w == 0 || frame.n == 0 || !Compare(BinOpId(name).value, 0.0, b))
  {
    hide CompareLaw, Compare, PBin, PEval, DEval, CondRel, PElementwise, Elementwise, NoNaN, ArrRel;
    var op := BinOpId(name).value;
    var col := frame.col(x);
    assert |col| == frame.n;
    var c := ShiftedCondition(name, x, w, b);
    var p, d := PShift(PRows(col), w), ShiftArr(Rows(StageCells(col)), w);
    ShiftedOperand(sem, frame, x, w);
    ComparedWithLiteral(sem, frame, c);
    ColumnStaged(col);
    ShiftRel(Weak, PRows(col), Rows(StageCells(col)), frame.n, w);
    ShiftHasNoNaN(col, w);
    LiteralDecides(sem, frame.n, op, p, d, b);
    assert frame.n > 0 && w > 0 ==> p.cells[0].Null? && d.cells[0] == Num(0.0);
    assert forall i | 0 <= i < frame.n && p.cells[i].Null? :: d.cells[i] == NaN || (i < w && d.cells[i] == Num(0.0));
  }

  lemma ColumnStaged(col: seq<PCell>)
    ensures ArrRel(Weak, PRows(col), Rows(StageCells(col)), |col|)
  {
  }

  lemma ComparedWithLiteral(sem: Sem, frame: Frame, c: Expr)
    requires c.Binary? && BinOpId(c.op).Some? && c.right.Literal? && c.right.value.FloatLit?
    ensures var op, b := BinOpId(c.op).value, c.right.value.x;
            PEval(sem, frame, c) == PElementwise(frame.n, PBin(sem, op), [PEval(sem, frame, c.left), PScalar(Val(Num(b)))])
            && DEval(FrameEnv(sem, frame), c)
            == Elementwise(sem, frame.n, Bin(op), [DEval(FrameEnv(sem, frame), c.left), Scalar(Num(b))])
  {
    hide PBin, PElementwise, Elementwise;
  }

  lemma ShiftHasNoNaN(col: seq<PCell>, w: nat)
    requires Val(NaN) !in col
    ensures NoNaN(PShift(PRows(col), w))
  {
  }

  /** An operand that is null where `col` is, and there holds the number `v` on the device. */
  ghost predicate NumberAtNulls(p: PArr, d: Arr, col: seq<PCell>, v: real) {
    p.PRows? && |p.cells| == |col| && d.Rows? && |d.cells| == |col| &&
    forall i | 0 <= i < |col| :: (p.cells[i].Null? <==> col[i].Null?) && (col[i].Null? ==> d.cells[i] == Num(v))
  }

  lemma NumberDecides(sem: Sem, n: nat, op: BinOp, p: PArr, d: Arr, b: real, col: seq<PCell>, v: real)
    requires NanFalse(op) && CompareLaw(sem) && ArrRel(Weak, p, d, n) && NoNaN(p) && NumberAtNulls(p, d, col, v)
    ensures CondRel(PElementwise(n, PBin(sem, op), [p, PScalar(Val(Num(b)))]),
                    Elementwise(sem, n, Bin(op), [d, Scalar(Num(b))]), n)
       <==> Null !in col || !Compare(op, v, b)
  {
    hide CompareLaw, PBin, NoNaN, CondRel, PElementwise, Elementwise, Compare;
    LiteralDecides(sem, n, op, p, d, b);
    if Null in col {
      var k :| 0 <= k < |col| && col[k] == Null;
      assert p.cells[k].Null? && d.cells[k] == Num(v);
    }
  }

  /** Casting a Float32 value to Float32 keeps it. */
  ghost predicate ExactCast(sem: Sem) {
    forall r: real :: sem.apply(CastF32, [Num(r)]) == Num(r)
  }

  /** `when((x <inner> k).cast(Float32) <op> b)`. */
  function CastCondition(inner: BinName, k: real, name: BinName, x: string, b: real): Expr {
    Binary(name, Cast(true, Binary(inner, Column(0, x), Literal(1, FloatLit(k)))), Literal(2, FloatLit(b)))
  }

  /** The device turns a comparison with a null into a number, which a second comparison
      may accept: the two engines take the same branches exactly when `x` has no null or
      that number is not accepted. */
  lemma CastConditionExactly(sem: Sem, frame: Frame, inner: BinName, k: real, name: BinName, x: string, b: real)
    requires BinOpId(inner).Some? && IsCompare(BinOpId(inner).value)
    requires BinOpId(name).Some? && NanFalse(BinOpId(name).value)
    requires Lawful(sem) && FrameShape(frame) && Val(NaN) !in frame.col(x)
    requires ExactCast(sem)
    ensures var c := CastCondition(inner, k, name, x, b);
            NanSafePredicate(c) &&
            (CondRel(PEval(sem, frame, c), DEval(FrameEnv(sem, frame), c), frame.n)
             <==> Null !in frame.col(x) || !Compare(BinOpId(name).value, if BinOpId(inner).value.Ne? then 1.0 else 0.0, b))
  {
    hide Lawful, CompareLaw, StrictLaw, ExactCast, Compare, PBin, PEval, DEval, CondRel, PElementwise, Elementwise, NoNaN,
      ArrRel, NumberAtNulls, ComparedCells, ComparedNumbers;
    var c := CastCondition(inner, k, name, x, b);
    var op, cmp := BinOpId(name).value, BinOpId(inner).value;
    var col := frame.col(x);
    var l := c.left;
    ComparedWithLiteral(sem, frame, c);
    ComparedColumn(sem, frame, cmp, col, k);
    OperandValues(sem, frame, inner, k, x);
    LawfulComparison(sem);
    NumberDecides(sem, frame.n, op, PEval(sem, frame, l), DEval(FrameEnv(sem, frame), l), b, col, if cmp.Ne? then 1.0 else 0.0);
  }

  lemma LawfulComparison(sem: Sem)
    requires Lawful(sem)
    ensures CompareLaw(sem) && StrictLaw(sem)
  {
  }

  /** One row of the casted comparison, in Polars and on the device. */
  function ComparedCell(cmp: BinOp, c: PCell, k: real): PCell {
    if c.Null? then Null else Val(Flag(TotalCompare(cmp, c.c, Num(k))))
  }

  function ComparedNumber(cmp: BinOp, c: PCell, k: real): Cell {
    if c.Null? || c.c.NaN? then Flag(cmp.Ne?) else Flag(Compare(cmp, c.c.x, k))
  }

  function ComparedCells(cmp: BinOp, col: seq<PCell>, k: real): (out: seq<PCell>)
    ensures |out| == |col| && forall i | 0 <= i < |col| :: out[i] == ComparedCell(cmp, col[i], k)
  {
    seq(|col|, i requires 0 <= i < |col| => ComparedCell(cmp, col[i], k))
  }

  function ComparedNumbers(cmp: BinOp, col: seq<PCell>, k: real): (out: seq<Cell>)
    ensures |out| == |col| && forall i | 0 <= i < |col| :: out[i] == ComparedNumber(cmp, col[i], k)
  {
    seq(|col|, i requires 0 <= i < |col| => ComparedNumber(cmp, col[i], k))
  }

  lemma ComparedColumn(sem: Sem, frame: Frame, cmp: BinOp, col: seq<PCell>, k: real)
    requires IsCompare(cmp) && Val(NaN) !in col && |col| == frame.n
    ensures var p, d := PRows(ComparedCells(cmp, col, k)),
                        Rows(ComparedNumbers(cmp, col, k));
            NumberAtNulls(p, d, col, if cmp.Ne? then 1.0 else 0.0) && ArrRel(Weak, p, d, frame.n) && NoNaN(p)
  {
    hide TotalCompare, Compare;
    forall i | 0 <= i < |col|
      ensures CellRel(Weak, ComparedCell(cmp, col[i], k), ComparedNumber(cmp, col[i], k))
    {
      assert col[i] in col;
      if col[i].Val? {
        OrdersAgree(cmp, col[i].c.x, k);
      }
    }
  }

  lemma OperandValues(sem: Sem, frame: Frame, inner: BinName, k: real, x: string)
    requires BinOpId(inner).Some? && IsCompare(BinOpId(inner).value) && Val(NaN) !in frame.col(x)
    requires Lawful(sem) && FrameShape(frame) && ExactCast(sem)
    ensures var e, cmp, col := Cast(true, Binary(inner, Column(0, x), Literal(1, FloatLit(k)))), BinOpId(inner).value, frame.col(x);
            |col| == frame.n
            && PEval(sem, frame, e) == PRows(ComparedCells(cmp, col, k))
            && DEval(FrameEnv(sem, frame), e) == Rows(ComparedNumbers(cmp, col, k))
  {
    hide Lawful, CompareLaw, StrictLaw, ExactCast, PBin, TotalCompare, Compare, PEval, DEval, PElementwise, Elementwise, ComparedCells,
      ComparedNumbers;
    var comparison := Binary(inner, Column(0, x), Literal(1, FloatLit(k)));
    var cmp, col := BinOpId(inner).value, frame.col(x);
    assert |col| == frame.n;
    LawfulComparison(sem);
    ComparedWithLiteral(sem, frame, comparison);
    ColumnValues(sem, frame, x);
    ComparedRows(sem, frame.n, cmp, col, k);
    CastRows(sem, frame, comparison);
  }

  lemma ColumnValues(sem: Sem, frame: Frame, x: string)
    ensures PEval(sem, frame, Column(0, x)) == PRows(frame.col(x))
    ensures DEval(FrameEnv(sem, frame), Column(0, x)) == Rows(StageCells(frame.col(x)))
  {
  }

  lemma ComparedRows(sem: Sem, n: nat, cmp: BinOp, col: seq<PCell>, k: real)
    requires IsCompare(cmp) && CompareLaw(sem) && |col| == n
    ensures PElementwise(n, PBin(sem, cmp), [PRows(col), PScalar(Val(Num(k)))])
         == PRows(ComparedCells(cmp, col, k))
    ensures Elementwise(sem, n, Bin(cmp), [Rows(StageCells(col)), Scalar(Num(k))])
         == Rows(ComparedNumbers(cmp, col, k))
  {
    hide PBin, CompareLaw, TotalCompare, Compare, ComparedCells, ComparedNumbers;
    var ps, ds := [PRows(col), PScalar(Val(Num(k)))], [Rows(StageCells(col)), Scalar(Num(k))];
    assert ps[0].PRows? && ds[0].Rows?;
    forall i | 0 <= i < n
      ensures PBin(sem, cmp)(PCellsAt(ps, i)) == ComparedCell(cmp, col[i], k)
      ensures sem.apply(Bin(cmp), CellsAt(ds, i)) == ComparedNumber(cmp, col[i], k)
    {
      assert PCellsAt(ps, i) == [col[i], Val(Num(k))] && CellsAt(ds, i) == [StageCell(col[i]), Num(k)];
      CompareNullable(sem, cmp, [col[i], Val(Num(k))]);
      CompareAt(sem, cmp, StageCell(col[i]), Num(k));
    }
    assert PElementwise(n, PBin(sem, cmp), ps).cells == ComparedCells(cmp, col, k);
    assert Elementwise(sem, n, Bin(cmp), ds).cells == ComparedNumbers(cmp, col, k);
  }

  /** The cast does nothing to numbers. */
  lemma CastRows(sem: Sem, frame: Frame, e: Expr)
    requires ExactCast(sem)
    requires PEval(sem, frame, e).PRows? && |PEval(sem, frame, e).cells| == frame.n
    requires DEval(FrameEnv(sem, frame), e).Rows? && |DEval(FrameEnv(sem, frame), e).cells| == frame.n
    requires forall i | 0 <= i < frame.n :: PEval(sem, frame, e).cells[i] != Val(NaN) && DEval(FrameEnv(sem, frame), e).cells[i] != NaN
    ensures PEval(sem, frame, Cast(true, e)) == PEval(sem, frame, e)
    ensures DEval(FrameEnv(sem, frame), Cast(true, e)) == DEval(FrameEnv(sem, frame), e)
  {
    hide Lift;
    var n, f := frame.n, Lifted(Applied(sem, CastF32));
    var p, d := PEval(sem, frame, e), DEval(FrameEnv(sem, frame), e);
    assert [p][0].PRows? && [d][0].Rows?;
    forall i | 0 <= i < n
      ensures f(PCellsAt([p], i)) == p.cells[i] && sem.apply(CastF32, CellsAt([d], i)) == d.cells[i]
    {
      assert PCellsAt([p], i) == [p.cells[i]] && CellsAt([d], i) == [d.cells[i]];
      assert d.cells[i] == Num(d.cells[i].x) && (p.cells[i].Val? ==> p.cells[i].c == Num(p.cells[i].c.x));
      LiftOne(Applied(sem, CastF32), p.cells[i]);
    }
    assert PElementwise(n, f, [p]).cells == p.cells;
    assert Elementwise(sem, n, CastF32, [d]).cells == d.cells;
  }

  lemma LiftOne(f: seq<Cell> -> Cell, c: PCell)
    ensures Lifted(f)([c]) == if c.Null? then Null else Val(f([c.c]))
  {
    var cells := [c];
    var cs := seq(|cells|, k requires 0 <= k < |cells| => if cells[k].Val? then cells[k].c else NaN);
    assert Null in cells <==> cells[0] == Null;
    assert c.Val? ==> cs == [c.c];
  }

  // ----- comparisons -----

  /** IEEE comparison and Polars' total order give the same verdict exactly here. */
  predicate OrdersMeet(op: BinOp, a: Cell, b: Cell) {
    Comparisons.NanHarmless(Comparison(op), a.NaN?, b.NaN?)
  }

  lemma ComparisonsAgreeExactly(sem: Sem, op: BinOp, a: Cell, b: Cell)
    requires IsCompare(op) && CompareLaw(sem)
    ensures PBin(sem, op)([Val(a), Val(b)]) == Val(sem.apply(Bin(op), [a, b])) <==> OrdersMeet(op, a, b)
  {
    hide CompareLaw, PBin;
    CompareAt(sem, op, a, b);
    CompareNullable(sem, op, [Val(a), Val(b)]);
  }

  // ----- columns delivered as they are -----

  /** Accepted, over columns without nulls, and sent to the device without a mask. */
  ghost predicate Bare(ctx: Ctx, frame: Frame, e: Expr) {
    Analyze(ctx, e).Some? && NullFree(frame, Reads(e)) && RouteBinding(ctx, true, Reads(e), e).Unmasked?
  }

  lemma RoutedBare(ctx: Ctx, frame: Frame, e: Expr, view: nat -> Leaf, x: string)
    requires Viewed(view, e) && ctx.gather.None? && x in ctx.schema && Reads(e) == {x} && NullFree(frame, {x})
    requires Supported(e) && NoShift(e)
    ensures Bare(ctx, frame, e)
  {
    hide Viewed, Analyze, Supported, NoShift, Reads;
    AcceptsExactly(view, ctx, e);
  }

  /** A column delivered as it is is Polars' exactly if every row's cell is. */
  lemma DeliveredByRow(sem: Sem, frame: Frame, e: Expr, spare: seq<Cell>)
    requires |spare| == frame.n
    ensures Delivered(sem, frame, e, Unmasked, spare) == PolarsColumn(sem, frame, e) <==>
      forall i | 0 <= i < frame.n :: PAt(PEval(sem, frame, e), i) == Val(At(DEval(FrameEnv(sem, frame), e), i))
  {
    hide PEval, DEval;
    var out, col := Delivered(sem, frame, e, Unmasked, spare), PolarsColumn(sem, frame, e);
    DeliveredCells(sem, frame, e, spare);
    hide Delivered, PolarsColumn;
    if out == col {
      forall i | 0 <= i < frame.n
        ensures PAt(PEval(sem, frame, e), i) == Val(At(DEval(FrameEnv(sem, frame), e), i))
      {
        assert out[i] == col[i];
      }
    } else {
      var i :| 0 <= i < frame.n && out[i] != col[i];
      assert PAt(PEval(sem, frame, e), i) != Val(At(DEval(FrameEnv(sem, frame), e), i));
    }
  }

  lemma DeliveredCells(sem: Sem, frame: Frame, e: Expr, spare: seq<Cell>)
    requires |spare| == frame.n
    ensures |Delivered(sem, frame, e, Unmasked, spare)| == frame.n
    ensures forall i | 0 <= i < frame.n ::
      Delivered(sem, frame, e, Unmasked, spare)[i] == Val(At(DEval(FrameEnv(sem, frame), e), i)) &&
      PolarsColumn(sem, frame, e)[i] == PAt(PEval(sem, frame, e), i)
  {
    hide PEval, DEval;
  }

  /** `x <name> k`. */
  function ComparedWith(name: BinName, x: string, k: real): Expr {
    Binary(name, Column(0, x), Literal(1, FloatLit(k)))
  }

  /** A comparison of a null-free column with a literal is accepted and delivered as it is: right exactly if
      no row holds a NaN on which the orders part. */
  lemma ComparedColumnExactly(ctx: Ctx, sem: Sem, frame: Frame, name: BinName, x: string, k: real, spare: seq<Cell>)
    requires ctx.gather.None? && x in ctx.schema && FrameShape(frame) && NullFree(frame, {x}) && |spare| == frame.n
    requires BinOpId(name).Some? && IsCompare(BinOpId(name).value) && CompareLaw(sem)
    ensures var e := ComparedWith(name, x, k);
            Bare(ctx, frame, e) &&
            (Delivered(sem, frame, e, RouteBinding(ctx, true, Reads(e), e), spare) == PolarsColumn(sem, frame, e)
             <==> forall i | 0 <= i < frame.n :: OrdersMeet(BinOpId(name).value, frame.col(x)[i].c, Num(k)))
  {
    hide Analyze, Delivered, PolarsColumn, PEval, DEval, RouteBinding, CompareLaw, OrdersMeet;
    var e, op := ComparedWith(name, x, k), BinOpId(name).value;
    var view := (id: nat) => if id == 0 then ColLeaf(x) else LitLeaf(k);
    assert Viewed(view, e.left) && Viewed(view, e.right) && Reads(e) == {x};
    RoutedBare(ctx, frame, e, view, x);
    DeliveredByRow(sem, frame, e, spare);
    forall i | 0 <= i < frame.n
      ensures PAt(PEval(sem, frame, e), i) == Val(At(DEval(FrameEnv(sem, frame), e), i)) <==> OrdersMeet(op, frame.col(x)[i].c, Num(k))
    {
      ComparedAtRow(sem, frame, name, x, k, i);
    }
    if exists i | 0 <= i < frame.n :: !OrdersMeet(op, frame.col(x)[i].c, Num(k)) {
      var i :| 0 <= i < frame.n && !OrdersMeet(op, frame.col(x)[i].c, Num(k));
      assert PAt(PEval(sem, frame, e), i) != Val(At(DEval(FrameEnv(sem, frame), e), i));
    }
  }

  lemma ComparedAtRow(sem: Sem, frame: Frame, name: BinName, x: string, k: real, i: nat)
    requires FrameShape(frame) && NullFree(frame, {x}) && i < frame.n
    requires BinOpId(name).Some? && IsCompare(BinOpId(name).value) && CompareLaw(sem)
    ensures var e := ComparedWith(name, x, k);
            PAt(PEval(sem, frame, e), i) == Val(At(DEval(FrameEnv(sem, frame), e), i))
            <==> OrdersMeet(BinOpId(name).value, frame.col(x)[i].c, Num(k))
  {
    hide CompareLaw, PBin, OrdersMeet, PElementwise, Elementwise, PEval, DEval;
    var e, op, col := ComparedWith(name, x, k), BinOpId(name).value, frame.col(x);
    assert |col| == frame.n && col[i] in col && x in {x};
    ComparedWithLiteral(sem, frame, e);
    ColumnValues(sem, frame, x);
    ComparedRow(sem, frame.n, op, col, k, i);
    ComparisonsAgreeExactly(sem, op, col[i].c, Num(k));
  }

  lemma ComparedRow(sem: Sem, n: nat, op: BinOp, col: seq<PCell>, k: real, i: nat)
    requires i < n == |col| && col[i].Val?
    ensures PAt(PElementwise(n, PBin(sem, op), [PRows(col), PScalar(Val(Num(k)))]), i) == PBin(sem, op)([col[i], Val(Num(k))])
    ensures At(Elementwise(sem, n, Bin(op), [Rows(StageCells(col)), Scalar(Num(k))]), i) == sem.apply(Bin(op), [col[i].c, Num(k)])
  {
    hide PBin;
    var ps, ds := [PRows(col), PScalar(Val(Num(k)))], [Rows(StageCells(col)), Scalar(Num(k))];
    assert ps[0].PRows? && ds[0].Rows?;
    assert PCellsAt(ps, i) == [col[i], Val(Num(k))] && CellsAt(ds, i) == [col[i].c, Num(k)];
  }

  // ----- masks -----

  /** A validity graph over no column writes one cell of the mask buffer, so every row is
      decided by the graph, whatever the buffer held, exactly when there is at most one. */
  lemma ScalarMaskExactly(n: nat, valid: bool)
    ensures (forall spare: seq<Cell> | |spare| == n ::
               NullWhere(Written(spare, ToArr(BScalar(valid)))) == seq(n, i => !valid))
       <==> n <= 1
  {
    var stale := seq(n, i => Flag(!valid));
    if n > 1 {
      assert NullWhere(Written(stale, ToArr(BScalar(valid))))[1] == valid;
      assert seq(n, i => !valid)[1] == !valid;
    } else {
      forall spare: seq<Cell> | |spare| == n
        ensures NullWhere(Written(spare, ToArr(BScalar(valid)))) == seq(n, i => !valid)
      {
        assert n == 1 ==> Written(spare, ToArr(BScalar(valid)))[0] == Flag(valid);
      }
    }
  }

  /** An expression that reads no column is one cell on the device, and so is its mask. */
  lemma {:induction false} ReadingNothingIsScalar(sem: Sem, frame: Frame, e: Expr)
    requires Supported(e) && Reads(e) == {}
    ensures DEval(FrameEnv(sem, frame), e).Scalar? && BEval(sem, frame, e).BScalar?
    decreases e, 1
  {
    hide BAndAll;
    var env := FrameEnv(sem, frame);
    match e
    case Literal(_, _) =>
    case Binary(_, l, r) =>
      ReadingNothingIsScalar(sem, frame, l);
      ReadingNothingIsScalar(sem, frame, r);
      AndKeepsScalar(frame.n, BScalar(true), [BEval(sem, frame, l), BEval(sem, frame, r)]);
    case Cast(_, arg) => ReadingNothingIsScalar(sem, frame, arg);
    case Function(fn, args) => FunctionOfNothing(sem, frame, e);
    case Ternary(c, t, f) =>
      ReadingNothingIsScalar(sem, frame, c);
      ReadingNothingIsScalar(sem, frame, t);
      ReadingNothingIsScalar(sem, frame, f);
  }

  lemma {:induction false} FunctionOfNothing(sem: Sem, frame: Frame, e: Expr)
    requires e.Function? && Supported(e) && Reads(e) == {}
    ensures DEval(FrameEnv(sem, frame), e).Scalar? && BEval(sem, frame, e).BScalar?
    decreases e, 0
  {
    hide BAndAll, SupportedAll, ReadsAll, LogOp;
    var env, fn, args := FrameEnv(sem, frame), e.fn, e.args;
    if fn.ShiftFn? || fn.LogFn? {
      ParameterIsLiteral(e);
      ReadingNothingIsScalar(sem, frame, args[0]);
      ValueAndLiteral(sem, frame, args);
    } else {
      SupportedArguments(e);
      ReadingNothingAreScalars(sem, frame, args);
      assert DEvalAll(env, args)[0] == DEval(env, args[0]);
    }
    if !fn.ShiftFn? {
      AndKeepsScalar(frame.n, BScalar(true), BEvalAll(sem, frame, args));
    }
  }

  lemma SupportedArguments(e: Expr)
    requires e.Function? && Supported(e) && !e.fn.ShiftFn? && !e.fn.LogFn?
    ensures SupportedAll(e.args)
  {
  }

  lemma ValueAndLiteral(sem: Sem, frame: Frame, args: seq<Expr>)
    requires |args| == 2 && args[1].Literal? && BEval(sem, frame, args[0]).BScalar?
    ensures forall k | 0 <= k < 2 :: BEvalAll(sem, frame, args)[k].BScalar?
  {
    assert args[1..] == [args[1]];
    assert BEvalAll(sem, frame, args[1..])[0] == BEval(sem, frame, args[1]);
  }

  lemma {:induction false} ReadingNothingAreScalars(sem: Sem, frame: Frame, es: seq<Expr>)
    requires SupportedAll(es) && ReadsAll(es) == {}
    ensures forall k | 0 <= k < |es| :: DEvalAll(FrameEnv(sem, frame), es)[k].Scalar? && BEvalAll(sem, frame, es)[k].BScalar?
    decreases es, 0
  {
    if es != [] {
      ReadingNothingIsScalar(sem, frame, es[0]);
      ReadingNothingAreScalars(sem, frame, es[1..]);
    }
  }

  lemma {:induction false} AndKeepsScalar(n: nat, acc: BArr, bs: seq<BArr>)
    requires acc.BScalar? && forall k | 0 <= k < |bs| :: bs[k].BScalar?
    ensures BAndAll(n, acc, bs).BScalar?
    decreases |bs|
  {
    if bs != [] {
      AndKeepsScalar(n, BAnd(n, acc, bs[0]), bs[1..]);
    }
  }

  /** With two rows or more what is delivered for such an expression depends on what the buffer held. */
  lemma StaleMask(sem: Sem, frame: Frame, e: Expr, graph: Graph)
    requires Supported(e) && Reads(e) == {} && frame.n > 1
    ensures exists spare: seq<Cell> ::
      |spare| == frame.n && Delivered(sem, frame, e, ValidityMask(graph), spare) != PolarsColumn(sem, frame, e)
  {
    hide PEval, DEval, BEval, PolarsColumn, DeviceValues, Masked, NullWhere, Written, Supported, Reads, ToArr, Delivered;
    var ones, zeros := seq(frame.n, i => Flag(true)), seq(frame.n, i => Flag(false));
    ReadingNothingIsScalar(sem, frame, e);
    StaleDelivery(sem, frame, e, graph, ones);
    StaleDelivery(sem, frame, e, graph, zeros);
    assert |ones| == frame.n && |zeros| == frame.n;
    assert Delivered(sem, frame, e, ValidityMask(graph), ones) != Delivered(sem, frame, e, ValidityMask(graph), zeros);
  }

  lemma StaleDelivery(sem: Sem, frame: Frame, e: Expr, graph: Graph, spare: seq<Cell>)
    requires BEval(sem, frame, e).BScalar? && |spare| == frame.n > 1
    ensures var out := Delivered(sem, frame, e, ValidityMask(graph), spare);
            |out| > 1 && (out[1].Null? <==> spare[1].Num? && spare[1].x < 0.5)
  {
    hide PEval, DEval, BEval, DeviceValues, Masked, NullWhere, Written, ToArr;
    StaleCell(DeviceValues(sem, frame, e), spare, BEval(sem, frame, e));
  }

  /** The second row is null if the buffer said so. */
  lemma StaleCell(values: seq<Cell>, spare: seq<Cell>, b: BArr)
    requires |values| == |spare| > 1 && b.BScalar?
    ensures Masked(values, NullWhere(Written(spare, ToArr(b))))[1].Null? <==> spare[1].Num? && spare[1].x < 0.5
  {
  }

  /** Whatever reads no column and is routed to a validity mask is delivered right for every buffer exactly
      if there is at most one row. */
  lemma ScalarMaskDelivers(view: nat -> Leaf, ctx: Ctx, confirmed: bool, e: Expr, sem: Sem, frame: Frame)
    requires Viewed(view, e) && ctx.gather.None? && Assumed(sem, frame, e) && Supported(e) && Reads(e) == {} && Trusted(true, e)
    requires RouteBinding(ctx, confirmed, Reads(e), e).ValidityMask?
    ensures BEval(sem, frame, e).BScalar?
    ensures (forall spare: seq<Cell> | |spare| == frame.n ::
               Delivered(sem, frame, e, RouteBinding(ctx, confirmed, Reads(e), e), spare) == PolarsColumn(sem, frame, e))
       <==> frame.n <= 1
  {
    hide Viewed, Lawful, FrameShape, PlainParameters, Ordinary, Supported, Reads, PEval, DEval, BEval, Maskable, Trusted,
      Masks, Related, Safe, Masked, PolarsColumn, DeviceValues, RouteBinding, AnalyzeValidity, NoShift, Delivered;
    ReadingNothingIsScalar(sem, frame, e);
    var graph := RouteBinding(ctx, confirmed, Reads(e), e).graph;
    if frame.n > 1 {
      StaleMask(sem, frame, e, graph);
    } else {
      forall spare: seq<Cell> | |spare| == frame.n
        ensures Delivered(sem, frame, e, ValidityMask(graph), spare) == PolarsColumn(sem, frame, e)
      {
        RoutedIsMaskable(ctx, confirmed, e);
        TrustedIsSafe(true, e);
        CleanReads(frame, e);
        SafeAgrees(sem, frame, true, e);
        MaskAgrees(sem, frame, true, e);
        OneCellDelivered(sem, frame, e, graph, spare);
      }
    }
  }

  lemma OneCellDelivered(sem: Sem, frame: Frame, e: Expr, graph: Graph, spare: seq<Cell>)
    requires |spare| == frame.n <= 1 && BEval(sem, frame, e).BScalar? && Related(Weak, sem, frame, e) && Masks(sem, frame, e)
    ensures Delivered(sem, frame, e, ValidityMask(graph), spare) == PolarsColumn(sem, frame, e)
  {
    hide PEval, DEval, BEval, PolarsColumn, DeviceValues, Masks, Related, Masked;
    var isNull := NullWhere(Written(spare, ToArr(BEval(sem, frame, e))));
    assert forall i | 0 <= i < frame.n :: isNull[i] <==> !BAt(BEval(sem, frame, e), i);
    MaskedColumn(sem, frame, e, DeviceValues(sem, frame, e), isNull);
  }

  /** `lit(v).shift(w)`. */
  function ShiftedLiteral(v: real, w: nat): Expr {
    Function(ShiftFn, [Literal(0, FloatLit(v)), Literal(1, IntLit(w))])
  }

  /** A shifted literal is such an expression: it is accepted, routed to a validity mask whatever is known of
      the columns, and right for every buffer exactly if there is at most one row. */
  lemma ShiftedLiteralExactly(ctx: Ctx, confirmed: bool, sem: Sem, frame: Frame, v: real, w: nat)
    requires ctx.gather.None? && Lawful(sem) && FrameShape(frame)
    ensures var e := ShiftedLiteral(v, w);
            Analyze(ctx, e).Some? && Reads(e) == {} && RouteBinding(ctx, confirmed, Reads(e), e).ValidityMask? &&
            BEval(sem, frame, e) == BScalar(w == 0) &&
            ((forall spare: seq<Cell> | |spare| == frame.n ::
                Delivered(sem, frame, e, RouteBinding(ctx, confirmed, Reads(e), e), spare) == PolarsColumn(sem, frame, e))
             <==> frame.n <= 1)
  {
    hide Lawful, FrameShape, Analyze, AnalyzeValidity, PolarsColumn, Delivered, PEval, DEval;
    var e := ShiftedLiteral(v, w);
    var view := (id: nat) => if id == 0 then LitLeaf(v) else LitLeaf(w as real);
    LiteralIsPlain(sem, frame, v, w, view);
    assert BEval(sem, frame, e.args[0]) == BScalar(true);
    hide Viewed, Supported, Maskable, Trusted, PlainParameters, Ordinary, NoShift, Reads;
    AcceptsExactly(view, ctx, e);
    ValidityAcceptsExactly(view, ctx, true, e);
    ScalarMaskDelivers(view, ctx, confirmed, e, sem, frame);
  }

  lemma LiteralIsPlain(sem: Sem, frame: Frame, v: real, w: nat, view: nat -> Leaf)
    requires view(0) == LitLeaf(v) && view(1) == LitLeaf(w as real)
    ensures var e := ShiftedLiteral(v, w);
            Viewed(view, e) && Supported(e) && Reads(e) == {} && PlainParameters(e) && Ordinary(sem, frame, e) && Trusted(true, e) &&
            Maskable(true, e) && !NoShift(e) && ShiftOffset(e.args) == Some(w)
  {
    var args := ShiftedLiteral(v, w).args;
    var rest := args[1..];
    assert rest == [args[1]] && rest[1..] == [];
    assert ViewedAll(view, rest[1..]) && PlainParametersAll(rest[1..]) && OrdinaryAll(sem, frame, rest[1..]) && TrustedAll(true, rest[1..]);
    assert ViewedAll(view, rest) && PlainParametersAll(rest) && OrdinaryAll(sem, frame, rest) && TrustedAll(true, rest);
    assert Maskable(true, args[0]) && Supported(args[0]) && Viewed(view, args[0]) && Trusted(true, args[0]) && Reads(args[0]) == {};
  }
}

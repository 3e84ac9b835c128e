/** What each named operator delivers over two columns of numbers, with the formulas written out. */
module FusionOperators {
  import opened FusionAcceptance
  import opened FusionAgreement
  import opened FusionCompile
  import opened FusionDispatch
  import opened FusionHeads
  import opened FusionIr
  import opened FusionLimits
  import opened FusionNullSafety
  import opened FusionNulls
  import opened FusionReference
  import opened FusionSound
  import opened Options

  /** `x <name> y`. */
  function OfColumns(name: BinName, x: string, y: string): Expr {
    Binary(name, Column(0, x), Column(1, y))
  }

  predicate IsBit(c: Cell, b: bool) {
    c == Num(if b then 1.0 else 0.0)
  }

  /** The value of `a <name> b`; division by zero has none here. */
  predicate IsResult(name: BinName, a: real, b: real, c: Cell) {
    match name
    case Plus => c == Num(a + b)
    case Minus => c == Num(a - b)
    case Multiply => c == Num(a * b)
    case Divide => b != 0.0 ==> c == Num(a / b)
    case TrueDivide => b != 0.0 ==> c == Num(a / b)
    case Modulus => b != 0.0 ==> c == Num(a - b * (a / b).Floor as real)
    case EqName => IsBit(c, a == b)
    case NotEq => IsBit(c, a != b)
    case LtName => IsBit(c, a < b)
    case LtEq => IsBit(c, a <= b)
    case GtName => IsBit(c, a > b)
    case GtEq => IsBit(c, a >= b)
    case And => IsBit(c, a != 0.0 && b != 0.0)
    case Or => IsBit(c, a != 0.0 || b != 0.0)
    case OtherName => false
  }

  lemma ResultsOnDevice(name: BinName, a: real, b: real)
    requires !name.OtherName?
    ensures BinOpId(name).Some? && IsResult(name, a, b, REFERENCE.apply(Bin(BinOpId(name).value), [Num(a), Num(b)]))
  {
    BinReference(BinOpId(name).value, Num(a), Num(b));
    hide REFERENCE;
  }

  lemma ResultsInPolars(name: BinName, a: real, b: real)
    requires !name.OtherName?
    ensures var p := PBin(REFERENCE, BinOpId(name).value)([Val(Num(a)), Val(Num(b))]); p.Val? && IsResult(name, a, b, p.c)
  {
    ResultsOnDevice(name, a, b);
    hide REFERENCE;
  }

  /** Two columns, at a row. */
  lemma BinaryAtRow(frame: Frame, name: BinName, x: string, y: string, xs: seq<real>, ys: seq<real>, i: nat)
    requires BinOpId(name).Some? && RealColumn(frame, x, xs) && RealColumn(frame, y, ys) && i < frame.n
    ensures var e, op := OfColumns(name, x, y), BinOpId(name).value;
            PAt(PEval(REFERENCE, frame, e), i) == PBin(REFERENCE, op)([Val(Num(xs[i])), Val(Num(ys[i]))]) &&
            At(DEval(FrameEnv(REFERENCE, frame), e), i) == REFERENCE.apply(Bin(op), [Num(xs[i]), Num(ys[i])])
  {
    hide REFERENCE, PBin;
    var ps, ds := [PRows(frame.col(x)), PRows(frame.col(y))], [Rows(StageCells(frame.col(x))), Rows(StageCells(frame.col(y)))];
    assert ps[0].PRows? && ds[0].Rows?;
    assert PCellsAt(ps, i) == [Val(Num(xs[i])), Val(Num(ys[i]))] && CellsAt(ds, i) == [Num(xs[i]), Num(ys[i])];
  }

  /** Every operator with a name is accepted over columns without nulls and runs without a mask, and the
      column delivered, like Polars', holds its result in every row. */
  lemma OperatorDelivers(ctx: Ctx, frame: Frame, name: BinName, x: string, y: string, xs: seq<real>, ys: seq<real>, spare: seq<Cell>)
    requires ctx.gather.None? && x in ctx.schema && y in ctx.schema && !name.OtherName? && |spare| == frame.n
    requires RealColumn(frame, x, xs) && RealColumn(frame, y, ys)
    ensures Bare(ctx, frame, OfColumns(name, x, y))
    ensures var e := OfColumns(name, x, y);
            var out, col := Delivered(REFERENCE, frame, e, RouteBinding(ctx, true, Reads(e), e), spare), PolarsColumn(REFERENCE, frame, e);
            |out| == |col| == frame.n &&
            forall i | 0 <= i < frame.n ::
              out[i].Val? && IsResult(name, xs[i], ys[i], out[i].c) && col[i].Val? && IsResult(name, xs[i], ys[i], col[i].c)
  {
    hide Analyze, Delivered, PolarsColumn, RouteBinding, PEval, DEval, REFERENCE, IsResult, PBin;
    var e := OfColumns(name, x, y);
    var view := (id: nat) => if id == 0 then ColLeaf(x) else ColLeaf(y);
    ResultsOnDevice(name, 0.0, 0.0);
    assert Viewed(view, e.left) && Viewed(view, e.right) && Reads(e) == {x, y};
    AcceptsExactly(view, ctx, e);
    assert RouteBinding(ctx, true, Reads(e), e) == Unmasked by { BareRoute(ctx, e); }
    DeliveredCells(REFERENCE, frame, e, spare);
    forall i | 0 <= i < frame.n
      ensures var out, col := Delivered(REFERENCE, frame, e, Unmasked, spare), PolarsColumn(REFERENCE, frame, e);
              out[i].Val? && IsResult(name, xs[i], ys[i], out[i].c) && col[i].Val? && IsResult(name, xs[i], ys[i], col[i].c)
    {
      BinaryAtRow(frame, name, x, y, xs, ys, i);
      ResultsOnDevice(name, xs[i], ys[i]);
      ResultsInPolars(name, xs[i], ys[i]);
    }
  }

  lemma BareRoute(ctx: Ctx, e: Expr)
    requires NoShift(e)
    ensures RouteBinding(ctx, true, Reads(e), e) == Unmasked
  {
  }

  // ----- comparisons that meet NaN -----

  /** Polars' order of cells: NaN is itself and above every number. */
  predicate Ordered(name: BinName, a: Cell, b: Cell) {
    match name
    case EqName => a == b
    case NotEq => a != b
    case LtName => a.Num? && (b.NaN? || a.x < b.x)
    case LtEq => b.NaN? || (a.Num? && a.x <= b.x)
    case GtName => b.Num? && (a.NaN? || a.x > b.x)
    case GtEq => a.NaN? || (b.Num? && a.x >= b.x)
    case _ => false
  }

  /** In Polars a comparison follows that order; on the device only `!=` holds of a NaN. */
  lemma NanOnTop(name: BinName, a: Cell, b: Cell)
    requires name in {EqName, NotEq, LtName, LtEq, GtName, GtEq}
    ensures BinOpId(name).Some?
    ensures PBin(REFERENCE, BinOpId(name).value)([Val(a), Val(b)]) == Val(Num(if Ordered(name, a, b) then 1.0 else 0.0))
    ensures a.NaN? || b.NaN? ==> REFERENCE.apply(Bin(BinOpId(name).value), [a, b]) == Num(if name == NotEq then 1.0 else 0.0)
  {
    InOrder(name, a, b);
    var op := BinOpId(name).value;
    ComparedReference(op, a, b);
    hide REFERENCE, PBin, TotalCompare, Ordered, BinOpId;
    CompareNullable(REFERENCE, op, [Val(a), Val(b)]);
  }

  lemma InOrder(name: BinName, a: Cell, b: Cell)
    requires name in {EqName, NotEq, LtName, LtEq, GtName, GtEq}
    ensures BinOpId(name).Some? && IsCompare(BinOpId(name).value)
    ensures TotalCompare(BinOpId(name).value, a, b) == Ordered(name, a, b)
    ensures BinOpId(name).value.Ne? == (name == NotEq)
  {
  }

  // ----- three-valued connectives -----

  /** A nullable truth value in a column. */
  function Truth(b: Option<bool>): PCell {
    match b
    case None => Null
    case Some(t) => Val(Num(if t then 1.0 else 0.0))
  }

  /** Polars' `and` and `or` by their tables: false decides a conjunction and true a disjunction, alone. */
  lemma KleeneTable(a: Option<bool>, b: Option<bool>)
    ensures Truth(None) == Null && Truth(Some(true)) == Val(Num(1.0)) && Truth(Some(false)) == Val(Num(0.0))
    ensures PBin(REFERENCE, BinOpId(And).value)([Truth(a), Truth(b)]) ==
            if a == Some(false) || b == Some(false) then Truth(Some(false))
            else if a.None? || b.None? then Null
            else Truth(Some(true))
    ensures PBin(REFERENCE, BinOpId(Or).value)([Truth(a), Truth(b)]) ==
            if a == Some(true) || b == Some(true) then Truth(Some(true))
            else if a.None? || b.None? then Null
            else Truth(Some(false))
  {
    LogicalIsKleene(LogicalAnd, Truth(a), Truth(b));
    LogicalIsKleene(LogicalOr, Truth(a), Truth(b));
    hide REFERENCE, PBin;
    ByTruth(a);
    ByTruth(b);
  }

  lemma LogicalIsKleene(op: BinOp, p: PCell, q: PCell)
    requires IsLogical(op)
    ensures PBin(REFERENCE, op)([p, q]) == Kleene(op, p, q)
  {
    hide REFERENCE, Kleene;
    var cells := [p, q];
    assert |cells| == 2;
  }

  lemma ByTruth(a: Option<bool>)
    ensures a == None || a == Some(true) || a == Some(false)
  {
    if a.Some? {
      var t := a.value;
      if t {
        assert a == Some(true);
      } else {
        assert a == Some(false);
      }
    }
  }

  // ----- literals -----

  /** What a literal is to both engines. */
  lemma LiteralDelivers(frame: Frame, v: LitVal)
    ensures PEval(REFERENCE, frame, Literal(0, v)) == PScalar(
              match v
              case IntLit(i) => Val(Num(i as real))
              case FloatLit(x) => Val(Num(x))
              case BoolLit(true) => Val(Num(1.0))
              case BoolLit(false) => Val(Num(0.0))
              case NullLit => Null)
    ensures !v.NullLit? ==> PEval(REFERENCE, frame, Literal(0, v)) == PScalar(Val(DEval(FrameEnv(REFERENCE, frame), Literal(0, v)).c))
  {
  }
}

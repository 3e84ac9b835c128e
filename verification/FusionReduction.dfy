/** Reductions of a chain over nullable columns: dropping the rows with a null input and
    reducing on the device, against computing the chain with nulls and skipping them. */
module FusionReduction {
  import opened FusionAcceptance
  import opened FusionAgreement
  import opened FusionAnalyzer
  import opened FusionCompile
  import opened FusionDispatch
  import opened FusionHeads
  import opened FusionIr
  import opened FusionMask
  import opened FusionNullSafety
  import opened FusionNulls
  import opened FusionSound
  import opened FusionValidity
  import opened Options

  // ----- reductions -----

  datatype ReduceOp = Sum | Mean | Min | Max | Std | Var

  function Total(xs: seq<real>): real {
    if xs == [] then 0.0 else Total(xs[..|xs| - 1]) + xs[|xs| - 1]
  }

  function Least(xs: seq<real>): real
    requires xs != []
  {
    var m := |xs| - 1;
    if m == 0 then xs[0] else var rest := Least(xs[..m]); if xs[m] < rest then xs[m] else rest
  }

  function Greatest(xs: seq<real>): real
    requires xs != []
  {
    var m := |xs| - 1;
    if m == 0 then xs[0] else var rest := Greatest(xs[..m]); if xs[m] > rest then xs[m] else rest
  }

  function Average(xs: seq<real>): real
    requires xs != []
  {
    Total(xs) / |xs| as real
  }

  /** The sum of squared deviations from the average. */
  function Spread(xs: seq<real>): real
    requires xs != []
  {
    Total(Deviations(xs, Average(xs)))
  }

  function Deviations(xs: seq<real>, m: real): (out: seq<real>)
    ensures |out| == |xs|
  {
    seq(|xs|, i requires 0 <= i < |xs| => SquareOf(xs[i] - m))
  }

  function SquareOf(x: real): real {
    x * x
  }

  /** The device reduces with population moments (`ddof=0`). */
  function DeviceReduce(op: ReduceOp, root: real -> real, xs: seq<real>): real
    requires xs != []
  {
    match op
    case Sum => Total(xs)
    case Mean => Average(xs)
    case Min => Least(xs)
    case Max => Greatest(xs)
    case Var => Spread(xs) / |xs| as real
    case Std => root(Spread(xs) / |xs| as real)
  }

  /** Polars skips nulls and uses sample moments (`ddof=1`); an empty sum is zero, every other
      reduction of too few values is null. */
  function PolarsReduce(op: ReduceOp, root: real -> real, col: seq<PCell>): Option<real> {
    ReduceNumbers(op, root, Numbers(col))
  }

  function ReduceNumbers(op: ReduceOp, root: real -> real, xs: seq<real>): Option<real> {
    match op
    case Sum => Some(Total(xs))
    case Mean => if xs == [] then None else Some(Average(xs))
    case Min => if xs == [] then None else Some(Least(xs))
    case Max => if xs == [] then None else Some(Greatest(xs))
    case Var => if |xs| < 2 then None else Some(Spread(xs) / (|xs| - 1) as real)
    case Std => if |xs| < 2 then None else Some(root(Spread(xs) / (|xs| - 1) as real))
  }

  /** The numbers of a column that holds numbers and nulls, nulls skipped. */
  function Numbers(col: seq<PCell>): seq<real> {
    if col == [] then []
    else
      var m := |col| - 1;
      Numbers(col[..m]) + (if col[m].Val? && col[m].c.Num? then [col[m].c.x] else [])
  }

  function Scaled(x: real, factor: real): real {
    x * factor
  }

  /** The square root of a number that has one. */
  ghost predicate RootLaw(root: real -> real) {
    forall a: real | a >= 0.0 :: root(a) >= 0.0 && root(a) * root(a) == a
  }

  lemma {:induction false} TotalNonNegative(xs: seq<real>)
    requires forall i | 0 <= i < |xs| :: xs[i] >= 0.0
    ensures Total(xs) >= 0.0
  {
    if xs != [] {
      TotalNonNegative(xs[..|xs| - 1]);
    }
  }

  lemma SquareNonNegative(x: real)
    ensures SquareOf(x) >= 0.0
  {
  }

  lemma SpreadNonNegative(xs: seq<real>)
    requires xs != []
    ensures Spread(xs) >= 0.0
  {
    hide Average, Total;
    var m := Average(xs);
    forall i | 0 <= i < |xs|
      ensures Deviations(xs, m)[i] >= 0.0
    {
      SquareNonNegative(xs[i] - m);
    }
    TotalNonNegative(Deviations(xs, m));
  }

  lemma QuotientCancels(s: real, n: real, m: real)
    requires n > 0.0 && m > 0.0
    ensures Scaled(s / n, n / m) == s / m
  {
    assert (s / n) * (n / m) == ((s / n) * n) / m;
  }

  lemma QuotientNonNegative(a: real, b: real)
    requires a >= 0.0 && b > 0.0
    ensures a / b >= 0.0
  {
  }

  lemma RootAt(root: real -> real, a: real)
    requires RootLaw(root) && a >= 0.0
    ensures root(a) >= 0.0 && root(a) * root(a) == a
  {
  }

  lemma ProductNonNegative(a: real, b: real)
    requires a >= 0.0 && b >= 0.0
    ensures a * b >= 0.0
  {
  }

  lemma ProductGrows(x: real, y: real)
    requires 0.0 <= x < y
    ensures x * x < y * y
  {
    var d := y - x;
    assert y * y == x * x + (x + x + d) * d;
    ProductPositive(x + x + d, d);
  }

  lemma ProductPositive(a: real, b: real)
    requires a > 0.0 && b > 0.0
    ensures a * b > 0.0
  {
  }

  lemma SquaresEqual(x: real, y: real)
    requires x >= 0.0 && y >= 0.0 && x * x == y * y
    ensures x == y
  {
    if x < y {
      ProductGrows(x, y);
    } else if y < x {
      ProductGrows(y, x);
    }
  }

  lemma SquareOfProduct(x: real, y: real, product: real, square: real)
    requires product == x * y && square == y * y
    ensures product * product == (x * x) * square
  {
    RealAssociates(y, x, y);
    RealAssociates(x, y, y);
    assert y * product == x * square;
    RealAssociates(x, y, product);
    RealAssociates(x, x, square);
  }

  lemma RealAssociates(a: real, b: real, c: real)
    ensures (a * b) * c == a * (b * c)
  {
  }

  /** Square roots are multiplicative, and tell their arguments apart. */
  lemma RootOfProduct(root: real -> real, a: real, b: real)
    requires RootLaw(root) && a >= 0.0 && b >= 0.0
    ensures root(Scaled(a, b)) == Scaled(root(a), root(b))
  {
    hide RootLaw;
    ProductNonNegative(a, b);
    RootAt(root, a);
    RootAt(root, b);
    RootAt(root, a * b);
    var x, y := root(a), root(b);
    ProductNonNegative(x, y);
    SquareOfProduct(x, y, x * y, y * y);
    SquaresEqual(root(a * b), x * y);
  }

  lemma RootInjective(root: real -> real, a: real, b: real)
    requires RootLaw(root) && a >= 0.0 && b >= 0.0
    ensures root(a) == root(b) <==> a == b
  {
    hide RootLaw;
    RootAt(root, a);
    RootAt(root, b);
  }

  // ----- rows -----

  /** An elementwise chain looks at one row at a time. */
  lemma {:induction false} SameRow(sem: Sem, f: Frame, g: Frame, e: Expr, i: int, j: int)
    requires NullMode(e) == Some(false) && FrameShape(f) && FrameShape(g) && 0 <= i < f.n && 0 <= j < g.n
    requires forall c | c in Reads(e) :: f.col(c)[i] == g.col(c)[j]
    ensures PAt(PEval(sem, f, e), i) == PAt(PEval(sem, g, e), j)
    ensures PEval(sem, f, e).PRows? <==> PEval(sem, g, e).PRows?
    decreases e
  {
    hide FrameShape, PBin, Lifted, PElementwise, PAt;
    match e
    case Column(_, name) => ColumnRow(f, g, name, i, j);
    case Literal(_, v) => ScalarRow(if v.NullLit? then Null else Val(Num(FloatOf(v))), i, j);
    case Binary(op, l, r) =>
      SameRow(sem, f, g, l, i, j);
      SameRow(sem, f, g, r, i, j);
      ElementwiseRow(f.n, g.n, PBin(sem, BinOpId(op).value), [PEval(sem, f, l), PEval(sem, f, r)],
                     [PEval(sem, g, l), PEval(sem, g, r)], i, j);
    case Cast(_, arg) =>
      SameRow(sem, f, g, arg, i, j);
      ElementwiseRow(f.n, g.n, Lifted(Applied(sem, CastF32)), [PEval(sem, f, arg)], [PEval(sem, g, arg)], i, j);
    case Function(fn, args) => FunctionRow(sem, f, g, e, i, j);
  }

  ghost predicate MatchingRows(ps: seq<PArr>, qs: seq<PArr>, i: int, j: int) {
    |ps| == |qs| && forall k | 0 <= k < |ps| :: PAt(ps[k], i) == PAt(qs[k], j) && (ps[k].PRows? <==> qs[k].PRows?)
  }

  lemma ColumnRow(f: Frame, g: Frame, name: string, i: int, j: int)
    requires FrameShape(f) && FrameShape(g) && 0 <= i < f.n && 0 <= j < g.n && f.col(name)[i] == g.col(name)[j]
    ensures PAt(PRows(f.col(name)), i) == PAt(PRows(g.col(name)), j)
  {
  }

  lemma ScalarRow(c: PCell, i: int, j: int)
    ensures PAt(PScalar(c), i) == PAt(PScalar(c), j)
  {
  }

  lemma {:induction false} FunctionRow(sem: Sem, f: Frame, g: Frame, e: Expr, i: int, j: int)
    requires e.Function? && NullMode(e) == Some(false) && FrameShape(f) && FrameShape(g) && 0 <= i < f.n && 0 <= j < g.n
    requires forall c | c in Reads(e) :: f.col(c)[i] == g.col(c)[j]
    ensures PAt(PEval(sem, f, e), i) == PAt(PEval(sem, g, e), j)
    ensures PEval(sem, f, e).PRows? <==> PEval(sem, g, e).PRows?
    decreases e, 0
  {
    hide FrameShape, PBin, Lifted, PElementwise, PAt;
    var fn, args := e.fn, e.args;
    if args == [] {
      ScalarRow(Null, i, j);
    } else {
      SameRows(sem, f, g, args, i, j);
      var ps, qs := PEvalAll(sem, f, args), PEvalAll(sem, g, args);
      assert ps[0] == PEval(sem, f, args[0]) && qs[0] == PEval(sem, g, args[0]);
      match fn
      case LogFn =>
        assert PAt(ps[0], i) == PAt(qs[0], j);
        ElementwiseRow(f.n, g.n, Lifted(LogTo(sem, LogBase(args))), [ps[0]], [qs[0]], i, j);
      case PowFn => ElementwiseRow(f.n, g.n, Lifted(Applied(sem, Pow)), ps, qs, i, j);
      case Mapped(op, d) => ElementwiseRow(f.n, g.n, Lifted(MappedTo(sem, op, d)), ps, qs, i, j);
    }
  }

  lemma {:induction false} SameRows(sem: Sem, f: Frame, g: Frame, es: seq<Expr>, i: int, j: int)
    requires NullModeAll(es) == Some(false) && FrameShape(f) && FrameShape(g) && 0 <= i < f.n && 0 <= j < g.n
    requires forall c | c in ReadsAll(es) :: f.col(c)[i] == g.col(c)[j]
    ensures MatchingRows(PEvalAll(sem, f, es), PEvalAll(sem, g, es), i, j)
    decreases es
  {
    hide FrameShape, PAt;
    if es != [] {
      SameRow(sem, f, g, es[0], i, j);
      SameRows(sem, f, g, es[1..], i, j);
      var ps, qs := PEvalAll(sem, f, es), PEvalAll(sem, g, es);
      assert ps == [PEval(sem, f, es[0])] + PEvalAll(sem, f, es[1..]);
      assert qs == [PEval(sem, g, es[0])] + PEvalAll(sem, g, es[1..]);
      forall k | 0 <= k < |es|
        ensures PAt(ps[k], i) == PAt(qs[k], j) && (ps[k].PRows? <==> qs[k].PRows?)
      {
        if k > 0 {
          assert ps[k] == PEvalAll(sem, f, es[1..])[k - 1] && qs[k] == PEvalAll(sem, g, es[1..])[k - 1];
        }
      }
    }
  }

  lemma ElementwiseRow(n: nat, m: nat, f: seq<PCell> -> PCell, ps: seq<PArr>, qs: seq<PArr>, i: int, j: int)
    requires 0 <= i < n && 0 <= j < m && MatchingRows(ps, qs, i, j)
    ensures PAt(PElementwise(n, f, ps), i) == PAt(PElementwise(m, f, qs), j)
    ensures PElementwise(n, f, ps).PRows? <==> PElementwise(m, f, qs).PRows?
  {
    assert PCellsAt(ps, i) == PCellsAt(qs, j);
    assert AnyPRows(ps) <==> AnyPRows(qs);
    if !AnyPRows(ps) {
      assert forall k | 0 <= k < |ps| :: !ps[k].PRows? && PAt(ps[k], 0) == PAt(ps[k], i) && PAt(qs[k], 0) == PAt(qs[k], j);
      assert PCellsAt(ps, 0) == PCellsAt(ps, i) && PCellsAt(qs, 0) == PCellsAt(qs, j);
    }
  }

  // ----- dropping rows -----

  /** The rows before `m` at which every one of `cols` is valid. */
  function Kept(frame: Frame, cols: set<string>, m: nat): (ks: seq<nat>)
    ensures forall k | 0 <= k < |ks| :: ks[k] < m && AllValid(frame, cols, ks[k])
  {
    if m == 0 then []
    else Kept(frame, cols, m - 1) + (if AllValid(frame, cols, m - 1) then [m - 1] else [])
  }

  function Selected(col: seq<PCell>, ks: seq<nat>): (out: seq<PCell>)
    ensures |out| == |ks|
  {
    seq(|ks|, k requires 0 <= k < |ks| => if ks[k] < |col| then col[ks[k]] else Null)
  }

  /** `drop_nulls(subset=cols)`. */
  function Dropped(frame: Frame, cols: set<string>): Frame {
    var ks := Kept(frame, cols, frame.n);
    Frame(|ks|, name => Selected(frame.col(name), ks))
  }

  lemma DroppedFrame(frame: Frame, cols: set<string>)
    requires FrameShape(frame)
    ensures FrameShape(Dropped(frame, cols)) && NullFree(Dropped(frame, cols), cols)
  {
    var ks := Kept(frame, cols, frame.n);
    forall c | c in cols
      ensures Null !in Dropped(frame, cols).col(c)
    {
      assert forall k | 0 <= k < |ks| :: AllValid(frame, cols, ks[k]) && frame.col(c)[ks[k]].Val?;
    }
  }

  function NumberOf(c: PCell): seq<real> {
    if c.Val? && c.c.Num? then [c.c.x] else []
  }

  lemma NumbersAppend(col: seq<PCell>, c: PCell)
    ensures Numbers(col + [c]) == Numbers(col) + NumberOf(c)
  {
    assert (col + [c])[..|col|] == col;
  }

  lemma {:induction false} KeptNumbers(frame: Frame, cols: set<string>, col: seq<PCell>, m: nat)
    requires m <= |col| == frame.n && forall i | 0 <= i < |col| :: col[i].Null? <==> !AllValid(frame, cols, i)
    ensures Numbers(col[..m]) == Numbers(Selected(col, Kept(frame, cols, m)))
  {
    hide Numbers, AllValid;
    if m == 0 {
      assert col[..m] == Selected(col, []);
    } else {
      KeptNumbers(frame, cols, col, m - 1);
      var before := Kept(frame, cols, m - 1);
      assert col[..m] == col[..m - 1] + [col[m - 1]];
      NumbersAppend(col[..m - 1], col[m - 1]);
      if AllValid(frame, cols, m - 1) {
        assert Selected(col, before + [m - 1]) == Selected(col, before) + [col[m - 1]];
        NumbersAppend(Selected(col, before), col[m - 1]);
      } else {
        assert col[m - 1].Null? && NumberOf(col[m - 1]) == [];
        assert Kept(frame, cols, m) == before;
      }
    }
  }

  lemma {:induction false} RowCount(sem: Sem, frame: Frame, e: Expr)
    requires NullMode(e) == Some(false) && FrameShape(frame)
    ensures PEval(sem, frame, e).PRows? ==> |PEval(sem, frame, e).cells| == frame.n
  {
  }

  /** Row `k` of the dropped frame is row `ks[k]` of the frame. */
  lemma DroppedRow(sem: Sem, frame: Frame, cols: set<string>, e: Expr, k: int)
    requires NullMode(e) == Some(false) && FrameShape(frame) && 0 <= k < Dropped(frame, cols).n
    ensures PAt(PEval(sem, Dropped(frame, cols), e), k) == PAt(PEval(sem, frame, e), Kept(frame, cols, frame.n)[k])
    ensures PEval(sem, Dropped(frame, cols), e).PRows? <==> PEval(sem, frame, e).PRows?
  {
    hide NullMode, PEval, Kept, NullFree;
    var ks := Kept(frame, cols, frame.n);
    DroppedFrame(frame, cols);
    SameRow(sem, Dropped(frame, cols), frame, e, k, ks[k]);
  }

  lemma NoNaNDropped(sem: Sem, frame: Frame, cols: set<string>, e: Expr)
    requires NullMode(e) == Some(false) && FrameShape(frame) && Dropped(frame, cols).n > 0 && NoNaN(PEval(sem, frame, e))
    ensures NoNaN(PEval(sem, Dropped(frame, cols), e))
  {
    hide NullMode, PEval, NullFree, Kept;
    var d := Dropped(frame, cols);
    DroppedFrame(frame, cols);
    RowCount(sem, d, e);
    forall i: int
      ensures PAt(PEval(sem, d, e), i) != Val(NaN)
    {
      if 0 <= i < d.n {
        DroppedRow(sem, frame, cols, e, i);
      } else {
        DroppedRow(sem, frame, cols, e, 0);
      }
    }
  }

  lemma {:induction false} OrdinaryDropped(sem: Sem, frame: Frame, cols: set<string>, e: Expr)
    requires NullMode(e) == Some(false) && FrameShape(frame) && Dropped(frame, cols).n > 0 && Ordinary(sem, frame, e)
    ensures Ordinary(sem, Dropped(frame, cols), e)
    decreases e
  {
    hide FrameShape, Dropped, NoNaN, PEval;
    match e
    case Binary(op, l, r) =>
      OrdinaryDropped(sem, frame, cols, l);
      OrdinaryDropped(sem, frame, cols, r);
      if IsCompare(BinOpId(op).value) {
        NoNaNDropped(sem, frame, cols, l);
        NoNaNDropped(sem, frame, cols, r);
      }
    case Cast(_, arg) => OrdinaryDropped(sem, frame, cols, arg);
    case Function(_, args) => OrdinaryAllDropped(sem, frame, cols, args);
    case _ =>
  }

  lemma {:induction false} OrdinaryAllDropped(sem: Sem, frame: Frame, cols: set<string>, es: seq<Expr>)
    requires NullModeAll(es) == Some(false) && FrameShape(frame) && Dropped(frame, cols).n > 0 && OrdinaryAll(sem, frame, es)
    ensures OrdinaryAll(sem, Dropped(frame, cols), es)
    decreases es
  {
    hide FrameShape, Dropped;
    if es != [] {
      OrdinaryDropped(sem, frame, cols, es[0]);
      OrdinaryAllDropped(sem, frame, cols, es[1..]);
    }
  }

  /** Dropping the rows with a null input leaves exactly the numbers that a null-skipping
      reduction of the chain sees, in the same order. */
  lemma DropNullsKeepsNumbers(sem: Sem, frame: Frame, e: Expr)
    requires Assumed(sem, frame, e) && Supported(e) && NullMode(e) == Some(false)
    ensures Numbers(PolarsColumn(sem, Dropped(frame, Reads(e)), e)) == Numbers(PolarsColumn(sem, frame, e))
  {
    hide Lawful, FrameShape, PlainParameters, Ordinary, Supported, Reads, PEval, BEval, NullMode, Safe, Numbers, AllValid, Kept,
      Masks;
    var col, cols := PolarsColumn(sem, frame, e), Reads(e);
    var d, ks := Dropped(frame, Reads(e)), Kept(frame, Reads(e), frame.n);
    ElementwiseIsSafe(e);
    MaskAgrees(sem, frame, false, e);
    forall i | 0 <= i < frame.n
      ensures col[i].Null? <==> !AllValid(frame, cols, i)
    {
      ElementwiseValidity(sem, frame, e, i);
      MaskAt(sem, frame, e, i);
    }
    KeptNumbers(frame, cols, col, frame.n);
    assert col[..frame.n] == col;
    forall k | 0 <= k < d.n
      ensures PAt(PEval(sem, d, e), k) == Selected(col, ks)[k]
    {
      DroppedRow(sem, frame, cols, e, k);
    }
    assert PolarsColumn(sem, d, e) == Selected(col, ks);
  }

  lemma MaskAt(sem: Sem, frame: Frame, e: Expr, i: int)
    requires Masks(sem, frame, e) && 0 <= i < frame.n
    ensures PAt(PEval(sem, frame, e), i).Null? <==> !BAt(BEval(sem, frame, e), i)
  {
    hide PEval, BEval;
  }

  // ----- one reduction -----

  lemma {:induction false} AllNumbers(col: seq<PCell>, xs: seq<real>)
    requires |col| == |xs| && forall i | 0 <= i < |xs| :: col[i] == Val(Num(xs[i]))
    ensures Numbers(col) == xs
  {
    if col != [] {
      var m := |col| - 1;
      AllNumbers(col[..m], xs[..m]);
    }
  }

  function RealOf(c: Cell): real {
    if c.Num? then c.x else 0.0
  }

  /** What the device reduces. */
  function DeviceReals(sem: Sem, frame: Frame, e: Expr): (xs: seq<real>)
    ensures |xs| == frame.n
  {
    seq(frame.n, i requires 0 <= i < frame.n => RealOf(DeviceValues(sem, frame, e)[i]))
  }

  /** On a null-free frame the values of a chain without positive shifts are its numbers. */
  lemma DeviceNumbers(sem: Sem, frame: Frame, e: Expr)
    requires Assumed(sem, frame, e) && Supported(e) && Unshifted(e) && NullFree(frame, Reads(e)) && NoNaN(PEval(sem, frame, e))
    ensures Numbers(PolarsColumn(sem, frame, e)) == DeviceReals(sem, frame, e)
  {
    hide Lawful, FrameShape, PlainParameters, Ordinary, Supported, Reads, PEval, DEval, Unshifted, NullFree, DeviceValues, NoMask;
    UnmaskedColumn(sem, frame, e);
    var col, values := PolarsColumn(sem, frame, e), DeviceValues(sem, frame, e);
    forall i | 0 <= i < frame.n
      ensures col[i] == Val(Num(RealOf(values[i])))
    {
      assert col[i] == Masked(values, NoMask(frame.n))[i] == Val(values[i]);
      assert PAt(PEval(sem, frame, e), i) != Val(NaN);
    }
    AllNumbers(col, DeviceReals(sem, frame, e));
  }

  /** The executor's answer from the reduced value: small counts first, then the correction. */
  function Finish(op: ReduceOp, root: real -> real, count: nat, raw: real): Option<real> {
    var n := count as real;
    if count == 0 then (if op.Sum? then Some(0.0) else None)
    else if (op.Std? || op.Var?) && count < 2 then None
    else if op.Var? then Some(Scaled(raw, n / (count - 1) as real))
    else if op.Std? then Some(Scaled(raw, root(n / (count - 1) as real)))
    else Some(raw)
  }

  lemma FinishVar(root: real -> real, count: nat, s: real)
    requires count >= 2
    ensures Finish(Var, root, count, s / count as real) == Some(s / (count - 1) as real)
  {
    hide Scaled;
    var n, m := count as real, (count - 1) as real;
    QuotientCancels(s, n, m);
    assert Finish(Var, root, count, s / n) == Some(Scaled(s / n, n / m));
  }

  lemma FinishStd(root: real -> real, count: nat, s: real)
    requires count >= 2 && s >= 0.0 && RootLaw(root)
    ensures Finish(Std, root, count, root(s / count as real)) == Some(root(s / (count - 1) as real))
  {
    hide RootLaw, Scaled;
    var n, m := count as real, (count - 1) as real;
    QuotientCancels(s, n, m);
    QuotientNonNegative(s, n);
    QuotientNonNegative(n, m);
    RootOfProduct(root, s / n, n / m);
    assert Finish(Std, root, count, root(s / n)) == Some(Scaled(root(s / n), root(n / m)));
  }

  /** With two values or more, the corrected device moments are Polars'. */
  lemma FinishMany(op: ReduceOp, root: real -> real, count: nat, s: real, raw: real)
    requires count >= 2 && s >= 0.0 && RootLaw(root)
    ensures !op.Var? && !op.Std? ==> Finish(op, root, count, raw) == Some(raw)
    ensures op.Var? && raw == s / count as real ==> Finish(op, root, count, raw) == Some(s / (count - 1) as real)
    ensures op.Std? && raw == root(s / count as real) ==> Finish(op, root, count, raw) == Some(root(s / (count - 1) as real))
  {
    hide RootLaw;
    FinishVar(root, count, s);
    FinishStd(root, count, s);
  }

  lemma FinishFew(op: ReduceOp, root: real -> real, count: nat, raw: real)
    requires count < 2
    ensures Finish(op, root, count, raw)
         == if op.Std? || op.Var? then None
            else if count == 1 then Some(raw)
            else if op.Sum? then Some(0.0) else None
  {
  }

  lemma FinishIsPolars(op: ReduceOp, root: real -> real, col: seq<PCell>, raw: real)
    requires RootLaw(root) && (Numbers(col) != [] ==> raw == DeviceReduce(op, root, Numbers(col)))
    ensures Finish(op, root, |Numbers(col)|, raw) == PolarsReduce(op, root, col)
  {
    hide Spread, RootLaw, Numbers, Average, Least, Greatest, Finish;
    var xs := Numbers(col);
    if |xs| >= 2 {
      SpreadNonNegative(xs);
      FinishMany(op, root, |xs|, Spread(xs), raw);
    } else {
      FinishFew(op, root, |xs|, raw);
    }
  }

  lemma {:induction false} ElementwiseHasNoShift(e: Expr)
    requires NullMode(e) == Some(false)
    ensures NoShift(e)
    decreases e
  {
    match e
    case Binary(_, l, r) =>
      ElementwiseHasNoShift(l);
      ElementwiseHasNoShift(r);
    case Cast(_, arg) => ElementwiseHasNoShift(arg);
    case Function(_, args) => ElementwiseHasNoShifts(args);
    case _ =>
  }

  lemma {:induction false} ElementwiseHasNoShifts(es: seq<Expr>)
    requires NullModeAll(es) == Some(false)
    ensures NoShiftAll(es)
    decreases es
  {
    if es != [] {
      ElementwiseHasNoShift(es[0]);
      ElementwiseHasNoShifts(es[1..]);
    }
  }

  datatype ReductionRoute = OnCpu | OnDevice(dropNulls: bool)

  /** `_route_fused_reduction` for a chain: shifts are not looked at. */
  function RouteReduction(confirmed: bool, e: Expr): ReductionRoute {
    if confirmed then OnDevice(false) else if NullMode(e) == Some(false) then OnDevice(true) else OnCpu
  }

  /** The frame a routed reduction stages. */
  function StagedFrame(frame: Frame, route: ReductionRoute, cols: set<string>): Frame {
    if route.OnDevice? && route.dropNulls then Dropped(frame, cols) else frame
  }

  /** The scalar the device path returns for a staged frame. */
  function DeviceAnswer(op: ReduceOp, root: real -> real, sem: Sem, frame: Frame, e: Expr): Option<real> {
    Finish(op, root, frame.n, if frame.n == 0 then 0.0 else DeviceReduce(op, root, DeviceReals(sem, frame, e)))
  }

  /** The conditions under which the scalar is Polars'. */
  ghost predicate Reducible(sem: Sem, frame: Frame, confirmed: bool, root: real -> real, e: Expr) {
    Assumed(sem, frame, e) && RootLaw(root) && NoNaN(PEval(sem, frame, e)) &&
    (confirmed ==> NullFree(frame, Reads(e)) && Unshifted(e))
  }

  lemma DeviceAnswerIsPolars(op: ReduceOp, root: real -> real, sem: Sem, frame: Frame, confirmed: bool, e: Expr)
    requires Reducible(sem, frame, confirmed, root, e) && Supported(e) && RouteReduction(confirmed, e).OnDevice?
    ensures DeviceAnswer(op, root, sem, StagedFrame(frame, RouteReduction(confirmed, e), Reads(e)), e)
         == PolarsReduce(op, root, PolarsColumn(sem, frame, e))
  {
    hide Lawful, PlainParameters, Ordinary, FrameShape, Reads, Unshifted, PEval, DeviceReals, PolarsColumn, NullMode, Supported, Numbers,
      DeviceReduce, RootLaw, Dropped, NullFree, Finish, PolarsReduce, NoNaN;
    var cols, fr := Reads(e), StagedFrame(frame, RouteReduction(confirmed, e), Reads(e));
    if !confirmed {
      DroppedFrame(frame, cols);
      DropNullsKeepsNumbers(sem, frame, e);
      ElementwiseHasNoShift(e);
      NoShiftIsUnshifted(e);
      if fr.n > 0 {
        OrdinaryDropped(sem, frame, cols, e);
        NoNaNDropped(sem, frame, cols, e);
      }
    }
    if fr.n > 0 {
      DeviceNumbers(sem, fr, e);
    } else {
      NoRows(sem, fr, e);
    }
    var raw := if fr.n == 0 then 0.0 else DeviceReduce(op, root, DeviceReals(sem, fr, e));
    FinishIsPolars(op, root, PolarsColumn(sem, frame, e), raw);
  }

  /** One chain reduction, from routing to the scalar: the device's answer over the staged frame, and
      where the conditions hold Polars'. */
  method ReduceChain(ctx: Ctx, confirmed: bool, op: ReduceOp, root: real -> real, e: Expr, sem: Sem, frame: Frame,
                     ghost view: nat -> Leaf)
    returns (r: Option<Option<real>>)
    requires Viewed(view, e) && ctx.gather.None?
    ensures r.Some? <==> Analyze(ctx, e).Some? && Reads(e) != {} && RouteReduction(confirmed, e).OnDevice?
    ensures r.Some? ==>
      r.value == DeviceAnswer(op, root, sem, StagedFrame(frame, RouteReduction(confirmed, e), Reads(e)), e)
    ensures r.Some? && Reducible(sem, frame, confirmed, root, e) ==>
      r.value == PolarsReduce(op, root, PolarsColumn(sem, frame, e))
  {
    hide Viewed, Analyze, Reads, PEval, DEval, RunGraph, Matches, WellLaidOut, FrameEnv, StagedColumns, PolarsColumn, NullMode,
      Supported, DeviceReduce, Dropped, Finish, PolarsReduce, Reducible, DeviceValues;
    var g := AnalyzeIr(ctx, e, view);
    if g.None? {
      return None;
    }
    AcceptedReads(view, ctx, e);
    var cols := StagedColumns(g.value.descriptors);
    var route := RouteReduction(confirmed, e);
    if cols == {} || route.OnCpu? {
      return None;
    }
    var fr := StagedFrame(frame, route, cols);
    var raw := 0.0;
    if fr.n > 0 {
      FrameEnvMatches(ctx, sem, fr);
      var value := RunGraph(FrameEnv(sem, fr), g.value).value;
      var xs := seq(fr.n, i => RealOf(At(value, i)));
      assert xs == DeviceReals(sem, fr, e);
      raw := DeviceReduce(op, root, xs);
    }
    if Reducible(sem, frame, confirmed, root, e) {
      DeviceAnswerIsPolars(op, root, sem, frame, confirmed, e);
    }
    return Some(Finish(op, root, fr.n, raw));
  }

  lemma NoRows(sem: Sem, frame: Frame, e: Expr)
    requires frame.n == 0
    ensures Numbers(PolarsColumn(sem, frame, e)) == []
  {
    hide PEval;
  }
}

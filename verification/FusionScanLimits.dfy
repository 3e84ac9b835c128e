/** Scans over shifted columns: Polars skips the nulls at the head, and the device scans what fills it. */
module FusionScanLimits {
  import ComplexSums
  import opened FusionAcceptance
  import opened FusionAgreement
  import opened FusionCompile
  import opened FusionDispatch
  import opened FusionHeads
  import opened FusionIr
  import opened FusionLimits
  import opened FusionNullSafety
  import opened FusionNulls
  import opened FusionReference
  import opened FusionSound
  import opened FusionValidity
  import opened Options

  // ----- scanning numbers -----

  function Combine(op: ScanOp, a: real, b: real): real {
    match op
    case CumSum => a + b
    case CumProd => a * b
    case CumMax => if a < b then b else a
    case CumMin => if a < b then a else b
  }

  /** The last value of a scan. */
  function Fold(op: ScanOp, zs: seq<real>): real
    requires zs != []
  {
    var m := |zs| - 1;
    if m == 0 then zs[0] else Combine(op, Fold(op, zs[..m]), zs[m])
  }

  lemma CombineAssociates(op: ScanOp, a: real, b: real, c: real)
    ensures Combine(op, Combine(op, a, b), c) == Combine(op, a, Combine(op, b, c))
  {
  }

  lemma FoldLast(op: ScanOp, zs: seq<real>, m: nat)
    requires 1 < m <= |zs|
    ensures Fold(op, zs[..m]) == Combine(op, Fold(op, zs[..m - 1]), zs[m - 1])
  {
    hide Combine;
    assert zs[..m][..m - 1] == zs[..m - 1];
  }

  /** A scan goes on from what its head came to. */
  lemma {:induction false} FoldSplit(op: ScanOp, hs: seq<real>, ys: seq<real>)
    requires hs != [] && ys != []
    ensures Fold(op, hs + ys) == Combine(op, Fold(op, hs), Fold(op, ys))
    decreases |ys|
  {
    hide Combine;
    var m := |ys| - 1;
    assert (hs + ys)[..|hs| + m] == hs + ys[..m];
    if m == 0 {
      assert hs + ys[..0] == hs;
    } else {
      FoldSplit(op, hs, ys[..m]);
      CombineAssociates(op, Fold(op, hs), Fold(op, ys[..m]), ys[m]);
    }
  }

  // ----- heads that do no harm -----

  /** A head that came to `h` does not change a scan that starts with `y`. */
  predicate HarmlessStart(op: ScanOp, h: real, y: real) {
    match op
    case CumSum => h == 0.0
    case CumProd => h == 1.0 || y == 0.0
    case CumMax => h <= y
    case CumMin => y <= h
  }

  lemma StartExactly(op: ScanOp, h: real, y: real)
    ensures Combine(op, h, y) == y <==> HarmlessStart(op, h, y)
  {
    if op == CumProd {
      ProductStart(h, y, h * y);
    }
  }

  lemma ProductStart(h: real, y: real, p: real)
    requires p == h * y
    ensures p == y <==> HarmlessStart(CumProd, h, y)
  {
    ComplexSums.KeepsExactly(h, y);
  }

  /** Then it changes none of its values. */
  lemma {:induction false} StartStays(op: ScanOp, h: real, ys: seq<real>, m: nat)
    requires 0 < m <= |ys| && Combine(op, h, ys[0]) == ys[0]
    ensures Combine(op, h, Fold(op, ys[..m])) == Fold(op, ys[..m])
  {
    hide Combine;
    if m > 1 {
      StartStays(op, h, ys, m - 1);
      FoldLast(op, ys, m);
      CombineAssociates(op, h, Fold(op, ys[..m - 1]), ys[m - 1]);
    }
  }

  // ----- both engines' scans -----

  function Nums(zs: seq<real>): (cells: seq<Cell>)
    ensures |cells| == |zs| && forall i | 0 <= i < |zs| :: cells[i] == Num(zs[i])
  {
    seq(|zs|, i requires 0 <= i < |zs| => Num(zs[i]))
  }

  /** Nulls, then numbers. */
  function HeadNulls(w: nat, ys: seq<real>): (cells: seq<PCell>)
    ensures |cells| == w + |ys| && forall i | 0 <= i < w + |ys| :: cells[i] == if i < w then Null else Val(Num(ys[i - w]))
  {
    seq(w + |ys|, i requires 0 <= i < w + |ys| => if i < w then Null else Val(Num(ys[i - w])))
  }

  lemma ScanStep(op: ScanOp, a: real, b: real)
    ensures REFERENCE.apply(Scan(op), [Num(a), Num(b)]) == Num(Combine(op, a, b))
  {
  }

  lemma ScanLast(op: ScanOp, d: seq<Cell>, m: nat)
    requires 1 < m <= |d|
    ensures ScanCells(REFERENCE, op, d[..m])[m - 1]
         == REFERENCE.apply(Scan(op), [ScanCells(REFERENCE, op, d[..m - 1])[m - 2], d[m - 1]])
  {
    hide REFERENCE;
    assert d[..m][..m - 1] == d[..m - 1];
  }

  /** A running value after one more cell. */
  function Joined(op: ScanOp, acc: Option<Cell>, c: PCell): Option<Cell> {
    if c.Null? then acc else Some(if acc.None? then c.c else REFERENCE.apply(Scan(op), [acc.value, c.c]))
  }

  lemma RunningLast(op: ScanOp, p: seq<PCell>, m: nat)
    requires 0 < m <= |p|
    ensures Running(REFERENCE, op, p[..m]) == Joined(op, Running(REFERENCE, op, p[..m - 1]), p[m - 1])
  {
    hide REFERENCE;
    assert p[..m][..m - 1] == p[..m - 1];
  }

  /** The device's scan, prefix by prefix. */
  lemma {:induction false} DeviceScans(op: ScanOp, zs: seq<real>, m: nat)
    requires 0 < m <= |zs|
    ensures ScanCells(REFERENCE, op, Nums(zs)[..m])[m - 1] == Num(Fold(op, zs[..m]))
  {
    hide REFERENCE, Nums, RefApply, Combine;
    var d := Nums(zs);
    if m == 1 {
      assert d[..1] == [d[0]];
    } else {
      hide ScanCells;
      DeviceScans(op, zs, m - 1);
      ScanLast(op, d, m);
      ScanStep(op, Fold(op, zs[..m - 1]), zs[m - 1]);
      FoldLast(op, zs, m);
    }
  }

  /** Polars' scan, prefix by prefix. */
  lemma {:induction false} PolarsScans(op: ScanOp, w: nat, ys: seq<real>, m: nat)
    requires m <= w + |ys|
    ensures Running(REFERENCE, op, HeadNulls(w, ys)[..m]) == if m <= w then None else Some(Num(Fold(op, ys[..m - w])))
  {
    hide REFERENCE, HeadNulls, RefApply, Combine;
    var p := HeadNulls(w, ys);
    if m > 0 {
      hide Running;
      PolarsScans(op, w, ys, m - 1);
      RunningLast(op, p, m);
      if m - 1 > w {
        ScanStep(op, Fold(op, ys[..m - 1 - w]), ys[m - 1 - w]);
        FoldLast(op, ys, m - w);
      }
    }
  }

  // ----- a scan over a filled head -----

  function ScanOf(op: ScanOp, arg: Expr): Expr {
    Function(Cumulative(op, false), [arg])
  }

  /** `arg` is null in its first rows, where the device holds `hs`, and after them both hold `ys`. */
  ghost predicate Headed(frame: Frame, arg: Expr, hs: seq<real>, ys: seq<real>) {
    |hs| + |ys| == frame.n && PEval(REFERENCE, frame, arg) == PRows(HeadNulls(|hs|, ys)) &&
    DEval(FrameEnv(REFERENCE, frame), arg) == Rows(Nums(hs + ys)) &&
    BEval(REFERENCE, frame, arg) == BRows(FromRow(frame.n, |hs|))
  }

  /** True from row `w` on. */
  function FromRow(n: nat, w: nat): (bs: seq<bool>)
    ensures |bs| == n && forall i | 0 <= i < n :: bs[i] <==> w <= i
  {
    seq(n, i => w <= i)
  }

  lemma ScanNode(frame: Frame, op: ScanOp, arg: Expr)
    ensures PEval(REFERENCE, frame, ScanOf(op, arg)) == PScan(REFERENCE, op, PEval(REFERENCE, frame, arg))
    ensures DEval(FrameEnv(REFERENCE, frame), ScanOf(op, arg)) == ScanArr(REFERENCE, op, DEval(FrameEnv(REFERENCE, frame), arg))
    ensures BEval(REFERENCE, frame, ScanOf(op, arg)) == BAnd(frame.n, BScalar(true), BEval(REFERENCE, frame, arg))
  {
    hide PScan, ScanArr, REFERENCE, BAnd;
    var b := BEval(REFERENCE, frame, arg);
    assert BEvalAll(REFERENCE, frame, [arg][1..]) == [];
    assert BEvalAll(REFERENCE, frame, [arg]) == [b];
    assert [b][0] == b && [b][1..] == [];
    assert BAndAll(frame.n, BScalar(true), [b]) == BAndAll(frame.n, BAnd(frame.n, BScalar(true), b), []);
  }

  /** Both results at a row. */
  lemma ScanAtRow(frame: Frame, op: ScanOp, arg: Expr, hs: seq<real>, ys: seq<real>, i: nat)
    requires Headed(frame, arg, hs, ys) && i < frame.n
    ensures PAt(PEval(REFERENCE, frame, ScanOf(op, arg)), i)
         == if i < |hs| then Null else Val(Num(Fold(op, ys[..i + 1 - |hs|])))
    ensures At(DEval(FrameEnv(REFERENCE, frame), ScanOf(op, arg)), i) == Num(Fold(op, (hs + ys)[..i + 1]))
  {
    hide REFERENCE, PEval, DEval, BEval, Nums, HeadNulls, Running, ScanCells, Fold;
    ScanNode(frame, op, arg);
    ScanPrefix(REFERENCE, op, Nums(hs + ys), i);
    DeviceScans(op, hs + ys, i + 1);
    PolarsScans(op, |hs|, ys, i + 1);
  }

  /** The device has Polars' value at every row where there is one. */
  ghost predicate AgreesWherePresent(frame: Frame, e: Expr) {
    forall i | 0 <= i < frame.n && PAt(PEval(REFERENCE, frame, e), i).Val? ::
      PAt(PEval(REFERENCE, frame, e), i) == Val(At(DEval(FrameEnv(REFERENCE, frame), e), i))
  }

  /** The device agrees with Polars if and only if there is no head, or nothing after it, or what the head
      comes to does not change the first value. */
  lemma ScanOverHeadExactly(frame: Frame, op: ScanOp, arg: Expr, hs: seq<real>, ys: seq<real>)
    requires Headed(frame, arg, hs, ys)
    ensures AgreesWherePresent(frame, ScanOf(op, arg)) <==> hs == [] || ys == [] || HarmlessStart(op, Fold(op, hs), ys[0])
  {
    hide REFERENCE, PEval, DEval, BEval, Combine, ScanOf, Headed;
    var w, e := |hs|, ScanOf(op, arg);
    assert w + |ys| == frame.n by { HeadedHeight(frame, arg, hs, ys); }
    forall i: nat | w <= i < frame.n
      ensures PAt(PEval(REFERENCE, frame, e), i).Val?
      ensures PAt(PEval(REFERENCE, frame, e), i) == Val(At(DEval(FrameEnv(REFERENCE, frame), e), i)) <==>
        w == 0 || Combine(op, Fold(op, hs), Fold(op, ys[..i + 1 - w])) == Fold(op, ys[..i + 1 - w])
    {
      ScanAtRow(frame, op, arg, hs, ys, i);
      assert (hs + ys)[..i + 1] == hs + ys[..i + 1 - w];
      if w == 0 {
        assert hs + ys[..i + 1 - w] == ys[..i + 1 - w];
      } else {
        FoldSplit(op, hs, ys[..i + 1 - w]);
      }
    }
    forall i: nat | i < w && i < frame.n
      ensures PAt(PEval(REFERENCE, frame, e), i).Null?
    {
      ScanAtRow(frame, op, arg, hs, ys, i);
    }
    if w > 0 && ys != [] {
      assert ys[..1] == [ys[0]];
      StartExactly(op, Fold(op, hs), ys[0]);
      if HarmlessStart(op, Fold(op, hs), ys[0]) {
        forall i: nat | w <= i < frame.n
          ensures PAt(PEval(REFERENCE, frame, e), i) == Val(At(DEval(FrameEnv(REFERENCE, frame), e), i))
        {
          var m := i + 1 - w;
          StartStays(op, Fold(op, hs), ys, m);
        }
      } else {
        assert PAt(PEval(REFERENCE, frame, e), w).Val? && w + 1 - w == 1;
      }
    }
  }

  lemma HeadedHeight(frame: Frame, arg: Expr, hs: seq<real>, ys: seq<real>)
    requires Headed(frame, arg, hs, ys)
    ensures |hs| + |ys| == frame.n
  {
  }

  /** Under its validity mask, whatever the buffer held, the column is Polars' exactly then. */
  lemma DeliveredScan(frame: Frame, op: ScanOp, arg: Expr, hs: seq<real>, ys: seq<real>, graph: Graph, spare: seq<Cell>)
    requires Headed(frame, arg, hs, ys) && |spare| == frame.n
    ensures Delivered(REFERENCE, frame, ScanOf(op, arg), ValidityMask(graph), spare) == PolarsColumn(REFERENCE, frame, ScanOf(op, arg))
       <==> AgreesWherePresent(frame, ScanOf(op, arg))
  {
    hide REFERENCE, PEval, DEval, BEval, Fold, ScanOf, DeviceValues, PolarsColumn, Nums, HeadNulls;
    var e, w := ScanOf(op, arg), |hs|;
    ScanNode(frame, op, arg);
    var b := BEval(REFERENCE, frame, e);
    RowsUnderTrue(frame.n, FromRow(frame.n, w));
    FlagsAreRead(spare, b);
    var out, col := Delivered(REFERENCE, frame, e, ValidityMask(graph), spare), PolarsColumn(REFERENCE, frame, e);
    forall i: nat | i < frame.n
      ensures out[i] == if i < w then Null else Val(At(DEval(FrameEnv(REFERENCE, frame), e), i))
      ensures col[i] == PAt(PEval(REFERENCE, frame, e), i) && (col[i].Null? <==> i < w)
    {
      ScanAtRow(frame, op, arg, hs, ys, i);
      ColumnCell(frame, e, i);
    }
    if AgreesWherePresent(frame, e) {
      assert forall i | 0 <= i < frame.n :: out[i] == col[i];
    } else {
      var i :| 0 <= i < frame.n && PAt(PEval(REFERENCE, frame, e), i).Val? &&
        PAt(PEval(REFERENCE, frame, e), i) != Val(At(DEval(FrameEnv(REFERENCE, frame), e), i));
      assert out[i] != col[i];
    }
  }

  lemma ColumnCell(frame: Frame, e: Expr, i: nat)
    requires i < frame.n
    ensures PolarsColumn(REFERENCE, frame, e)[i] == PAt(PEval(REFERENCE, frame, e), i)
  {
    hide PEval, REFERENCE;
  }

  // ----- heads of one constant -----

  function Constants(k: real, w: nat): (hs: seq<real>)
    ensures |hs| == w && forall i | 0 <= i < w :: hs[i] == k
  {
    seq(w, i => k)
  }

  lemma OneMore(m: nat, k: real)
    ensures m as real * k + k == (m + 1) as real * k
  {
  }

  lemma {:induction false} FoldConstants(op: ScanOp, k: real, w: nat)
    requires w > 0
    ensures Fold(op, Constants(k, w)) ==
            match op
            case CumSum => w as real * k
            case CumProd => ComplexSums.RealPow(k, w)
            case CumMax => k
            case CumMin => k
  {
    if w > 1 {
      FoldConstants(op, k, w - 1);
      assert Constants(k, w)[..w - 1] == Constants(k, w - 1);
      OneMore(w - 1, k);
    }
  }

  lemma {:induction false} PowerOfOpposite(k: real, w: nat)
    ensures ComplexSums.RealPow(-k, w) == if w % 2 == 0 then ComplexSums.RealPow(k, w) else -ComplexSums.RealPow(k, w)
  {
    if w > 0 {
      PowerOfOpposite(k, w - 1);
    }
  }

  lemma {:induction false} PowerOfOne(w: nat)
    ensures ComplexSums.RealPow(1.0, w) == 1.0
  {
    if w > 0 {
      PowerOfOne(w - 1);
    }
  }

  lemma PowerIsOne(k: real, w: nat)
    requires w > 0
    ensures ComplexSums.RealPow(k, w) == 1.0 <==> k == 1.0 || (k == -1.0 && w % 2 == 0)
  {
    hide ComplexSums.RealPow;
    PowerOfOne(w);
    PowerOfOpposite(-k, w);
    if k >= 0.0 {
      ComplexSums.RealPowBounds(k, w);
      PowerPositive(k, w);
    } else {
      ComplexSums.RealPowBounds(-k, w);
      PowerPositive(-k, w);
    }
  }

  lemma PowerPositive(k: real, w: nat)
    requires k >= 0.0 && w > 0 && (k < 1.0 ==> ComplexSums.RealPow(k, w) < 1.0) && (k > 1.0 ==> ComplexSums.RealPow(k, w) > 1.0)
    requires ComplexSums.RealPow(1.0, w) == 1.0
    ensures ComplexSums.RealPow(k, w) == 1.0 <==> k == 1.0
  {
    hide ComplexSums.RealPow;
  }

  lemma NoSum(w: nat, k: real)
    requires w > 0
    ensures w as real * k == 0.0 <==> k == 0.0
  {
    if w as real * k == 0.0 {
      ComplexSums.RealNoZeroDivisors(w as real, k);
    }
  }

  /** Scanning `xs` shifted by `w`, plus `k`: what can be looked up before the call. */
  predicate HarmlessScan(op: ScanOp, xs: seq<real>, k: real, w: nat) {
    w == 0 || |xs| <= w ||
    match op
    case CumSum => k == 0.0
    case CumProd => k == 1.0 || (k == -1.0 && w % 2 == 0) || xs[0] + k == 0.0
    case CumMax => xs[0] >= 0.0
    case CumMin => xs[0] <= 0.0
  }

  lemma ConstantHead(op: ScanOp, xs: seq<real>, k: real, w: nat)
    requires 0 < w < |xs|
    ensures HarmlessStart(op, Fold(op, Constants(k, w)), xs[0] + k) <==> HarmlessScan(op, xs, k, w)
  {
    hide Fold, Constants, ComplexSums.RealPow;
    FoldConstants(op, k, w);
    match op
    case CumSum => NoSum(w, k);
    case CumProd => PowerIsOne(k, w);
    case _ =>
  }

  // ----- shifts, and shifts plus a constant -----

  /** `x.shift(w) + k`. */
  function ShiftedPlus(x: string, w: nat, k: real): Expr {
    Binary(Plus, ShiftOf(x, w), Literal(2, FloatLit(k)))
  }

  /** The rows a shift by `w` empties, and below the numbers it leaves. */
  function Emptied(xs: seq<real>, w: nat): (m: nat)
    ensures m <= |xs|
  {
    if w < |xs| then w else |xs|
  }

  function Raised(xs: seq<real>, k: real): (out: seq<real>)
    ensures |out| == |xs| && forall i | 0 <= i < |xs| :: out[i] == xs[i] + k
  {
    seq(|xs|, i requires 0 <= i < |xs| => xs[i] + k)
  }

  function Surviving(xs: seq<real>, w: nat): (ys: seq<real>) {
    if w < |xs| then xs[..|xs| - w] else []
  }

  lemma ShiftIsHeaded(frame: Frame, x: string, xs: seq<real>, w: nat)
    requires RealColumn(frame, x, xs)
    ensures Headed(frame, ShiftOf(x, w), Constants(0.0, Emptied(xs, w)), Surviving(xs, w))
  {
    hide REFERENCE;
    var e, m := ShiftOf(x, w), Emptied(xs, w);
    ShiftedOperand(REFERENCE, frame, x, w);
    hide PEval, DEval;
    assert PShift(PRows(frame.col(x)), w).cells == HeadNulls(m, Surviving(xs, w));
    assert ShiftArr(Rows(StageCells(frame.col(x))), w).cells == Nums(Constants(0.0, m) + Surviving(xs, w));
    var b := BEval(REFERENCE, frame, e.args[0]);
    assert b == BRows(seq(frame.n, i => true)) by {
      assert forall i | 0 <= i < frame.n :: frame.col(x)[i].Val?;
    }
    assert BShift(b, w).bs == FromRow(frame.n, m);
  }

  lemma PlusNullable(a: PCell, k: real)
    requires a.Null? || a.c.Num?
    ensures PBin(REFERENCE, Add)([a, Val(Num(k))]) == if a.Null? then Null else Val(Num(a.c.x + k))
  {
    var cells := [a, Val(Num(k))];
    var op := Add;
    assert !IsLogical(op) && !IsCompare(op);
    if a.Val? {
      assert [cells[0].c, cells[1].c] == [a.c, Num(k)];
      BinReference(Add, a.c, Num(k));
    }
  }

  lemma PlusMask(frame: Frame, x: string, w: nat, k: real)
    ensures BEval(REFERENCE, frame, ShiftedPlus(x, w, k))
         == BAnd(frame.n, BAnd(frame.n, BScalar(true), BEval(REFERENCE, frame, ShiftOf(x, w))), BScalar(true))
  {
    hide REFERENCE, BAnd;
    var e := ShiftedPlus(x, w, k);
    var a, b := BEval(REFERENCE, frame, e.left), BEval(REFERENCE, frame, e.right);
    assert [a, b][1..] == [b] && [b][1..] == [];
    assert BAndAll(frame.n, BScalar(true), [a, b]) == BAndAll(frame.n, BAnd(frame.n, BScalar(true), a), [b]);
    var c := BAnd(frame.n, BScalar(true), a);
    assert BAndAll(frame.n, c, [b]) == BAndAll(frame.n, BAnd(frame.n, c, b), []);
  }

  /** The addition, row by row. */
  lemma PlusRows(n: nat, p: seq<PCell>, d: seq<Cell>, pout: seq<PCell>, dout: seq<Cell>, k: real)
    requires |p| == |d| == |pout| == |dout| == n
    requires forall i | 0 <= i < n :: d[i].Num? && (p[i].Null? || p[i].c.Num?) && dout[i] == Num(d[i].x + k)
    requires forall i | 0 <= i < n :: pout[i] == if p[i].Null? then Null else Val(Num(p[i].c.x + k))
    ensures PElementwise(n, PBin(REFERENCE, Add), [PRows(p), PScalar(Val(Num(k)))]) == PRows(pout)
    ensures Elementwise(REFERENCE, n, Bin(Add), [Rows(d), Scalar(Num(k))]) == Rows(dout)
  {
    hide REFERENCE, PBin;
    var ps, ds := [PRows(p), PScalar(Val(Num(k)))], [Rows(d), Scalar(Num(k))];
    assert ps[0].PRows? && ds[0].Rows?;
    forall i: nat | i < n
      ensures PBin(REFERENCE, Add)(PCellsAt(ps, i)) == pout[i]
      ensures REFERENCE.apply(Bin(Add), CellsAt(ds, i)) == dout[i]
    {
      assert PCellsAt(ps, i) == [p[i], Val(Num(k))] && CellsAt(ds, i) == [d[i], Num(k)];
      PlusNullable(p[i], k);
      BinReference(Add, d[i], Num(k));
    }
    assert PElementwise(n, PBin(REFERENCE, Add), ps).cells == pout;
    assert Elementwise(REFERENCE, n, Bin(Add), ds).cells == dout;
  }

  lemma RowsUnderTrue(n: nat, bs: seq<bool>)
    requires |bs| == n
    ensures BAnd(n, BScalar(true), BRows(bs)) == BRows(bs) == BAnd(n, BRows(bs), BScalar(true))
  {
    assert BAnd(n, BScalar(true), BRows(bs)).bs == bs;
    assert BAnd(n, BRows(bs), BScalar(true)).bs == bs;
  }

  lemma PlusIsHeaded(frame: Frame, x: string, xs: seq<real>, w: nat, k: real)
    requires RealColumn(frame, x, xs)
    ensures Headed(frame, ShiftedPlus(x, w, k), Constants(k, Emptied(xs, w)), Raised(Surviving(xs, w), k))
  {
    hide REFERENCE, PBin, PEval, DEval, BEval, PElementwise, Elementwise, BAnd;
    var n, m := frame.n, Emptied(xs, w);
    ShiftIsHeaded(frame, x, xs, w);
    ComparedWithLiteral(REFERENCE, frame, ShiftedPlus(x, w, k));
    PlusMask(frame, x, w, k);
    RowsUnderTrue(n, FromRow(n, m));
    PlusRows(n, HeadNulls(m, Surviving(xs, w)), Nums(Constants(0.0, m) + Surviving(xs, w)),
             HeadNulls(m, Raised(Surviving(xs, w), k)), Nums(Constants(k, m) + Raised(Surviving(xs, w), k)), k);
  }

  // ----- acceptance and route -----

  /** Accepted, over columns without nulls, and sent to the device with a validity mask. */
  ghost predicate Masking(ctx: Ctx, frame: Frame, e: Expr) {
    Analyze(ctx, e).Some? && NullFree(frame, Reads(e)) && RouteBinding(ctx, true, Reads(e), e).ValidityMask?
  }

  lemma RoutedToMask(ctx: Ctx, frame: Frame, e: Expr, view: nat -> Leaf)
    requires Viewed(view, e) && ctx.gather.None? && Reads(e) <= ctx.schema && NullFree(frame, Reads(e))
    requires Supported(e) && Maskable(true, e) && !NoShift(e)
    ensures Masking(ctx, frame, e)
  {
    hide Viewed, Analyze, AnalyzeValidity, Reads, Supported, Maskable, NoShift;
    AcceptsExactly(view, ctx, e);
    ValidityAcceptsExactly(view, ctx, true, e);
  }

  /** The arena that shows the leaves of `ShiftedPlus`. */
  ghost function PlusView(x: string, w: nat, k: real): nat -> Leaf {
    (id: nat) => if id == 0 then ColLeaf(x) else if id == 1 then LitLeaf(w as real) else LitLeaf(k)
  }

  lemma OneArgument(arg: Expr, view: nat -> Leaf)
    ensures ViewedAll(view, [arg]) <==> Viewed(view, arg)
    ensures MaskableAll(true, [arg]) <==> Maskable(true, arg)
    ensures NoShiftAll([arg]) <==> NoShift(arg)
    ensures ReadsAll([arg]) == Reads(arg)
  {
    hide Viewed, Maskable, NoShift, Reads;
    assert [arg][1..] == [];
    assert ViewedAll(view, [arg][1..]) && MaskableAll(true, [arg][1..]) && NoShiftAll([arg][1..]) && ReadsAll([arg][1..]) == {};
  }

  lemma ScanIsMaskable(op: ScanOp, arg: Expr, view: nat -> Leaf)
    requires Viewed(view, arg) && Supported(arg) && Maskable(true, arg) && !NoShift(arg)
    ensures var e := ScanOf(op, arg);
            Viewed(view, e) && Supported(e) && Maskable(true, e) && !NoShift(e) && Reads(e) == Reads(arg)
  {
    SupportedOne(arg);
    OneArgument(arg, view);
    hide ViewedAll, SupportedAll, MaskableAll, NoShiftAll, ReadsAll;
  }

  lemma ShiftIsMaskable(x: string, w: nat, k: real)
    ensures var e := ShiftOf(x, w); Viewed(ShiftView(x, w), e) && Supported(e) && Maskable(true, e) && !NoShift(e) && Reads(e) == {x}
    ensures var e := ShiftedPlus(x, w, k);
            Viewed(PlusView(x, w, k), e) && Supported(e) && Maskable(true, e) && !NoShift(e) && Reads(e) == {x}
  {
    ShiftOfIsChain(x, w);
    ShiftIsViewed(x, w);
    ShiftUnderPlus(x, w, k);
    var e := ShiftedPlus(x, w, k);
    assert Viewed(PlusView(x, w, k), e.right) && Maskable(true, e.right) && NoShift(e.right) && Supported(e.right) && Reads(e.right) == {};
    hide ShiftOf;
  }

  lemma ShiftUnderPlus(x: string, w: nat, k: real)
    ensures Viewed(PlusView(x, w, k), ShiftOf(x, w)) && Maskable(true, ShiftOf(x, w))
  {
    var e := ShiftOf(x, w);
    var args := e.args;
    var view := PlusView(x, w, k);
    assert Viewed(view, args[0]) && Viewed(view, args[1]) && Maskable(true, args[0]);
    assert args[1..] == [args[1]] && args[1..][1..] == [];
    assert ViewedAll(view, args[1..][1..]);
    assert ViewedAll(view, args[1..]);
  }

  // ----- exactly when -----

  /** Every scan over a shifted null-free column is accepted and masked, and the column delivered is Polars',
      whatever the mask buffer held, if and only if there is no head, or no row after it, or the zeros that
      fill it do no harm: in a sum always, in a product only before a zero, and in an extreme only if the
      first value is on its side of zero. */
  lemma ScanOfShiftExactly(ctx: Ctx, frame: Frame, op: ScanOp, x: string, xs: seq<real>, w: nat, spare: seq<Cell>)
    requires ctx.gather.None? && x in ctx.schema && RealColumn(frame, x, xs) && |spare| == frame.n
    ensures var e := ScanOf(op, ShiftOf(x, w));
            Masking(ctx, frame, e) && (AgreesWherePresent(frame, e) <==> HarmlessScan(op, xs, 0.0, w)) &&
            (Delivered(REFERENCE, frame, e, RouteBinding(ctx, true, Reads(e), e), spare) == PolarsColumn(REFERENCE, frame, e)
             <==> HarmlessScan(op, xs, 0.0, w))
  {
    hide REFERENCE, Analyze, AnalyzeValidity, Reads, Supported, Maskable, NoShift, Viewed, Headed, Delivered, PolarsColumn, ScanOf,
      AgreesWherePresent, HarmlessStart, HarmlessScan, RouteBinding, Fold;
    var e, m := ScanOf(op, ShiftOf(x, w)), Emptied(xs, w);
    ShiftIsMaskable(x, w, 0.0);
    ScanIsMaskable(op, ShiftOf(x, w), ShiftView(x, w));
    ColumnHasNoNull(frame, x, xs);
    RoutedToMask(ctx, frame, e, ShiftView(x, w));
    ShiftIsHeaded(frame, x, xs, w);
    HeadedScan(frame, op, ShiftOf(x, w), xs, 0.0, w, Surviving(xs, w));
    DeliveredScan(frame, op, ShiftOf(x, w), Constants(0.0, m), Surviving(xs, w), RouteBinding(ctx, true, Reads(e), e).graph, spare);
  }

  /** The same with a constant added to the shifted column, which fills the head in place of zero. */
  lemma ScanOfShiftedPlusExactly(ctx: Ctx, frame: Frame, op: ScanOp, x: string, xs: seq<real>, w: nat, k: real, spare: seq<Cell>)
    requires ctx.gather.None? && x in ctx.schema && RealColumn(frame, x, xs) && |spare| == frame.n
    ensures var e := ScanOf(op, ShiftedPlus(x, w, k));
            Masking(ctx, frame, e) && (AgreesWherePresent(frame, e) <==> HarmlessScan(op, xs, k, w)) &&
            (Delivered(REFERENCE, frame, e, RouteBinding(ctx, true, Reads(e), e), spare) == PolarsColumn(REFERENCE, frame, e)
             <==> HarmlessScan(op, xs, k, w))
  {
    hide REFERENCE, Analyze, AnalyzeValidity, Reads, Supported, Maskable, NoShift, Viewed, Headed, Delivered, PolarsColumn, ScanOf,
      AgreesWherePresent, HarmlessStart, HarmlessScan, RouteBinding, Fold, ShiftedPlus;
    var e, m := ScanOf(op, ShiftedPlus(x, w, k)), Emptied(xs, w);
    ShiftIsMaskable(x, w, k);
    ScanIsMaskable(op, ShiftedPlus(x, w, k), PlusView(x, w, k));
    ColumnHasNoNull(frame, x, xs);
    RoutedToMask(ctx, frame, e, PlusView(x, w, k));
    PlusIsHeaded(frame, x, xs, w, k);
    HeadedScan(frame, op, ShiftedPlus(x, w, k), xs, k, w, Raised(Surviving(xs, w), k));
    DeliveredScan(frame, op, ShiftedPlus(x, w, k), Constants(k, m), Raised(Surviving(xs, w), k),
                  RouteBinding(ctx, true, Reads(e), e).graph, spare);
  }

  lemma HeadedScan(frame: Frame, op: ScanOp, arg: Expr, xs: seq<real>, k: real, w: nat, ys: seq<real>)
    requires Headed(frame, arg, Constants(k, Emptied(xs, w)), ys) && |ys| == |xs| - Emptied(xs, w)
    requires ys != [] ==> ys[0] == xs[0] + k
    ensures AgreesWherePresent(frame, ScanOf(op, arg)) <==> HarmlessScan(op, xs, k, w)
  {
    hide REFERENCE, Headed, AgreesWherePresent, HarmlessStart, Fold, ScanOf;
    ScanOverHeadExactly(frame, op, arg, Constants(k, Emptied(xs, w)), ys);
    if 0 < w < |xs| {
      ConstantHead(op, xs, k, w);
    }
  }

  lemma ColumnHasNoNull(frame: Frame, x: string, xs: seq<real>)
    requires RealColumn(frame, x, xs)
    ensures NullFree(frame, {x})
  {
  }

  /** Where Polars has a running sum over a shift plus a constant, the device is `w` constants ahead of it. */
  lemma DeviceIsAhead(ys: seq<real>, w: nat, k: real, m: nat)
    requires w > 0 && 0 < m <= |ys|
    ensures Fold(CumSum, Constants(k, w) + ys[..m]) == Fold(CumSum, ys[..m]) + w as real * k
  {
    hide Fold;
    FoldSplit(CumSum, Constants(k, w), ys[..m]);
    FoldConstants(CumSum, k, w);
  }

  /** Inputs on which the products and extremes fail: Polars has the first value at row 1, the device zero. */
  lemma ScanOfShiftInputs(frame: Frame, op: ScanOp, x: string, y: real)
    requires RealColumn(frame, x, [y, 3.0])
    requires (op.CumProd? && y == 2.0) || (op.CumMin? && y == 2.0) || (op.CumMax? && y == -2.0)
    ensures var e := ScanOf(op, ShiftOf(x, 1));
            PAt(PEval(REFERENCE, frame, e), 1) == Val(Num(y)) && At(DEval(FrameEnv(REFERENCE, frame), e), 1) == Num(0.0)
  {
    hide REFERENCE, PEval, DEval, BEval;
    var xs := [y, 3.0];
    ShiftIsHeaded(frame, x, xs, 1);
    var hs, ys := Constants(0.0, 1), Surviving(xs, 1);
    assert Emptied(xs, 1) == 1 && hs == [0.0] && ys == [y];
    ScanAtRow(frame, op, ShiftOf(x, 1), hs, ys, 1);
    assert ys[..1] == [y] && (hs + ys)[..2] == [0.0, y];
    assert [0.0, y][..1] == [0.0];
  }
}

/** Where the device, given NaN for null, computes the value Polars computes. */
module FusionAgreement {
  import opened FusionIr
  import opened FusionNulls
  import opened Options

  // ----- relations between a nullable array and a device array -----

  /** How far the device cell is known: right where Polars has a value, and at a null also
      NaN, also zero, or there are no nulls. */
  datatype Kind = Weak | Strong | Zero | Exact

  predicate CellRel(kind: Kind, p: PCell, d: Cell) {
    (p.Val? ==> p.c == d) &&
    (p.Null? ==>
      match kind
      case Weak => true
      case Strong => d == NaN
      case Zero => d == Num(0.0)
      case Exact => false)
  }

  ghost predicate ArrRel(kind: Kind, p: PArr, d: Arr, n: nat) {
    match p
    case PScalar(c) => d.Scalar? && CellRel(kind, c, d.c)
    case PRows(cells) =>
      d.Rows? && |cells| == n && |d.cells| == n && forall i | 0 <= i < n :: CellRel(kind, cells[i], d.cells[i])
  }

  ghost predicate ArrRelAll(kind: Kind, ps: seq<PArr>, ds: seq<Arr>, n: nat) {
    |ps| == |ds| && forall k | 0 <= k < |ps| :: ArrRel(kind, ps[k], ds[k], n)
  }

  ghost predicate CellsRel(kind: Kind, ps: seq<PCell>, ds: seq<Cell>) {
    |ps| == |ds| && forall k | 0 <= k < |ps| :: CellRel(kind, ps[k], ds[k])
  }

  /** The rows at which an elementwise result is computed. */
  ghost predicate Row(n: nat, ps: seq<PArr>, i: int) {
    if AnyPRows(ps) then 0 <= i < n else i == 0
  }

  lemma RowRel(kind: Kind, ps: seq<PArr>, ds: seq<Arr>, n: nat, i: int)
    requires ArrRelAll(kind, ps, ds, n) && Row(n, ps, i)
    ensures CellsRel(kind, PCellsAt(ps, i), CellsAt(ds, i))
  {
    forall k | 0 <= k < |ps|
      ensures CellRel(kind, PAt(ps[k], i), At(ds[k], i))
    {
      assert ArrRel(kind, ps[k], ds[k], n);
    }
  }

  lemma SameShapes(kind: Kind, ps: seq<PArr>, ds: seq<Arr>, n: nat)
    requires ArrRelAll(kind, ps, ds, n)
    ensures AnyPRows(ps) <==> AnyRows(ds)
  {
    assert forall k | 0 <= k < |ps| :: ArrRel(kind, ps[k], ds[k], n) && (ps[k].PRows? <==> ds[k].Rows?);
  }

  /** Elementwise results are related when they are related row by row. */
  lemma ElementwiseRel(out: Kind, kind: Kind, sem: Sem, n: nat, f: seq<PCell> -> PCell, op: OpId,
                       ps: seq<PArr>, ds: seq<Arr>)
    requires ArrRelAll(kind, ps, ds, n)
    requires forall i | Row(n, ps, i) :: CellRel(out, f(PCellsAt(ps, i)), sem.apply(op, CellsAt(ds, i)))
    ensures ArrRel(out, PElementwise(n, f, ps), Elementwise(sem, n, op, ds), n)
  {
    hide CellRel, ArrRelAll, PCellsAt, CellsAt;
    SameShapes(kind, ps, ds, n);
    if AnyPRows(ps) {
      forall i | 0 <= i < n
        ensures CellRel(out, f(PCellsAt(ps, i)), sem.apply(op, CellsAt(ds, i)))
      {
        assert Row(n, ps, i);
      }
    } else {
      assert Row(n, ps, 0);
    }
  }

  // ----- cells -----

  /** A null-propagating function and the operator that computes it. */
  lemma LiftCell(kind: Kind, sem: Sem, f: seq<Cell> -> Cell, op: OpId, ps: seq<PCell>, ds: seq<Cell>)
    requires CellsRel(kind, ps, ds) && (kind.Strong? ==> Strict(op) && StrictLaw(sem)) && !kind.Zero?
    requires f(ds) == sem.apply(op, ds)
    ensures CellRel(kind, Lift(f, ps), sem.apply(op, ds))
  {
    if Null in ps {
      var k :| 0 <= k < |ps| && ps[k] == Null;
      assert CellRel(kind, ps[k], ds[k]);
      assert kind.Strong? ==> ds[k] == NaN && NaN in ds;
    } else {
      var cs := seq(|ps|, k requires 0 <= k < |ps| => if ps[k].Val? then ps[k].c else NaN);
      assert cs == ds;
    }
  }

  lemma PairCells(kind: Kind, ps: seq<PCell>, ds: seq<Cell>)
    requires CellsRel(kind, ps, ds) && |ps| == 2
    ensures CellRel(kind, ps[0], ds[0]) && CellRel(kind, ps[1], ds[1]) && ds == [ds[0], ds[1]]
  {
  }

  /** Arithmetic operators propagate null, and NaN. */
  lemma ArithmeticCell(kind: Kind, sem: Sem, op: BinOp, ps: seq<PCell>, ds: seq<Cell>)
    requires CellsRel(kind, ps, ds) && |ps| == 2 && !IsCompare(op) && !IsLogical(op) && !kind.Zero?
    requires StrictLaw(sem)
    ensures CellRel(kind, PBin(sem, op)(ps), sem.apply(Bin(op), ds))
  {
    PairCells(kind, ps, ds);
    assert Strict(Bin(op));
    if kind.Strong? && (ps[0].Null? || ps[1].Null?) {
      assert NaN in ds;
    }
  }

  lemma CompareAt(sem: Sem, op: BinOp, a: Cell, b: Cell)
    requires CompareLaw(sem) && IsCompare(op)
    ensures sem.apply(Bin(op), [a, b]) == Flag(if a.NaN? || b.NaN? then op.Ne? else Compare(op, a.x, b.x))
  {
  }

  lemma OrdersAgree(op: BinOp, x: real, y: real)
    requires IsCompare(op)
    ensures TotalCompare(op, Num(x), Num(y)) == Compare(op, x, y)
  {
  }

  lemma CompareNullable(sem: Sem, op: BinOp, cells: seq<PCell>)
    requires IsCompare(op) && |cells| == 2
    ensures PBin(sem, op)(cells) ==
            if cells[0].Null? || cells[1].Null? then Null else Val(Flag(TotalCompare(op, cells[0].c, cells[1].c)))
  {
    assert !IsLogical(op);
  }

  /** The device's verdict and Polars', when neither operand is a NaN value. */
  lemma CompareVerdicts(sem: Sem, op: BinOp, p: PCell, q: PCell, c: Cell, d: Cell)
    requires IsCompare(op) && CompareLaw(sem) && CellRel(Weak, p, c) && CellRel(Weak, q, d)
    requires p != Val(NaN) && q != Val(NaN)
    ensures p.Val? && q.Val? ==> PBin(sem, op)([p, q]) == Val(sem.apply(Bin(op), [c, d]))
    ensures p.Null? || q.Null? ==> PBin(sem, op)([p, q]) == Null
    ensures (c.NaN? || d.NaN?) && NanFalse(op) ==> sem.apply(Bin(op), [c, d]) == Num(0.0)
  {
    hide TotalCompare, Compare, CompareLaw, PBin;
    CompareAt(sem, op, c, d);
    CompareNullable(sem, op, [p, q]);
    if p.Val? && q.Val? {
      assert p.c == c == Num(c.x) && q.c == d == Num(d.x);
      OrdersAgree(op, c.x, d.x);
    }
  }

  /** On numbers the two orders agree; at a null the device result is not constrained. */
  lemma CompareCell(kind: Kind, sem: Sem, op: BinOp, ps: seq<PCell>, ds: seq<Cell>)
    requires CellsRel(kind, ps, ds) && |ps| == 2 && IsCompare(op) && CompareLaw(sem)
    requires ps[0] != Val(NaN) && ps[1] != Val(NaN)
    ensures CellRel(if kind.Exact? then Exact else Weak, PBin(sem, op)(ps), sem.apply(Bin(op), ds))
  {
    hide CompareLaw, PBin;
    PairCells(kind, ps, ds);
    assert ps == [ps[0], ps[1]];
    CompareVerdicts(sem, op, ps[0], ps[1], ds[0], ds[1]);
  }

  lemma LogicalCell(sem: Sem, op: BinOp, ps: seq<PCell>, ds: seq<Cell>)
    requires CellsRel(Exact, ps, ds) && |ps| == 2 && IsLogical(op) && LogicalLaw(sem)
    ensures CellRel(Exact, PBin(sem, op)(ps), sem.apply(Bin(op), ds))
  {
    PairCells(Exact, ps, ds);
    assert sem.apply(Bin(op), [ds[0], ds[1]]) ==
           Flag(if op.LogicalAnd? then Truthy(ds[0]) && Truthy(ds[1]) else Truthy(ds[0]) || Truthy(ds[1]));
  }

  // ----- conditions -----

  /** The device takes the branch Polars takes: a null condition is false on both sides. */
  predicate SameChoice(p: PCell, d: Cell) {
    (p.Val? && Truthy(p.c)) <==> Truthy(d)
  }

  ghost predicate CondRel(p: PArr, d: Arr, n: nat) {
    match p
    case PScalar(c) => d.Scalar? && SameChoice(c, d.c)
    case PRows(cells) =>
      d.Rows? && |cells| == n && |d.cells| == n && forall i | 0 <= i < n :: SameChoice(cells[i], d.cells[i])
  }

  lemma NanFalseCondition(sem: Sem, op: BinOp, ps: seq<PCell>, ds: seq<Cell>)
    requires CellsRel(Strong, ps, ds) && |ps| == 2 && NanFalse(op) && CompareLaw(sem)
    requires ps[0] != Val(NaN) && ps[1] != Val(NaN)
    ensures SameChoice(PBin(sem, op)(ps), sem.apply(Bin(op), ds))
  {
    hide CompareLaw, PBin;
    PairCells(Strong, ps, ds);
    assert ps == [ps[0], ps[1]];
    CompareVerdicts(sem, op, ps[0], ps[1], ds[0], ds[1]);
  }

  lemma CompareCondRel(sem: Sem, n: nat, op: BinOp, ps: seq<PArr>, ds: seq<Arr>)
    requires ArrRelAll(Strong, ps, ds, n) && |ps| == 2 && NanFalse(op) && CompareLaw(sem)
    requires forall i :: PAt(ps[0], i) != Val(NaN) && PAt(ps[1], i) != Val(NaN)
    ensures CondRel(PElementwise(n, PBin(sem, op), ps), Elementwise(sem, n, Bin(op), ds), n)
  {
    hide CellsRel, PBin, CompareLaw, ArrRelAll, SameChoice;
    SameShapes(Strong, ps, ds, n);
    var f := PBin(sem, op);
    forall i | Row(n, ps, i)
      ensures SameChoice(f(PCellsAt(ps, i)), sem.apply(Bin(op), CellsAt(ds, i)))
    {
      RowRel(Strong, ps, ds, n, i);
      assert PCellsAt(ps, i)[0] == PAt(ps[0], i) && PCellsAt(ps, i)[1] == PAt(ps[1], i);
      NanFalseCondition(sem, op, PCellsAt(ps, i), CellsAt(ds, i));
    }
    if AnyPRows(ps) {
      assert forall i | 0 <= i < n :: Row(n, ps, i);
    } else {
      assert Row(n, ps, 0);
    }
  }

  lemma ExactCondRel(p: PArr, d: Arr, n: nat)
    requires ArrRel(Exact, p, d, n)
    ensures CondRel(p, d, n)
  {
  }

  lemma WhereRel(kind: Kind, n: nat, pc: PArr, dc: Arr, pt: PArr, dt: Arr, pe: PArr, de: Arr)
    requires CondRel(pc, dc, n) && ArrRel(kind, pt, dt, n) && ArrRel(kind, pe, de, n)
    ensures ArrRel(kind, PWhere(n, pc, pt, pe), WhereArr(n, dc, dt, de), n)
  {
    hide CellRel;
    var ps, ds := [pc, pt, pe], [dc, dt, de];
    assert forall k | 0 <= k < 3 :: ps[k].PRows? <==> ds[k].Rows?;
    assert AnyPRows(ps) <==> AnyRows(ds);
    if AnyPRows(ps) {
      forall i | 0 <= i < n
        ensures CellRel(kind, PChoose(PAt(pc, i), PAt(pt, i), PAt(pe, i)), if Truthy(At(dc, i)) then At(dt, i) else At(de, i))
      {
        assert SameChoice(PAt(pc, i), At(dc, i));
        assert CellRel(kind, PAt(pt, i), At(dt, i)) && CellRel(kind, PAt(pe, i), At(de, i));
      }
    } else {
      assert ps[0].PScalar? && ps[1].PScalar? && ps[2].PScalar?;
      assert ds[0].Scalar? && ds[1].Scalar? && ds[2].Scalar?;
    }
  }

  // ----- shifts and scans -----

  /** A shift keeps the relation behind its head and zero-fills the head, where Polars has nulls. */
  lemma ShiftRel(kind: Kind, p: PArr, d: Arr, n: nat, w: nat)
    requires ArrRel(kind, p, d, n)
    ensures kind.Weak? ==> ArrRel(Weak, PShift(p, w), ShiftArr(d, w), n)
    ensures kind.Zero? || kind.Exact? ==> ArrRel(Zero, PShift(p, w), ShiftArr(d, w), n)
  {
  }

  lemma {:induction false} ExactScan(sem: Sem, op: ScanOp, ps: seq<PCell>, ds: seq<Cell>)
    requires |ps| == |ds| && ps != [] && forall i | 0 <= i < |ps| :: CellRel(Exact, ps[i], ds[i])
    ensures Running(sem, op, ps) == Some(ScanCells(sem, op, ds)[|ds| - 1])
  {
    var m := |ps| - 1;
    if m > 0 {
      ExactScan(sem, op, ps[..m], ds[..m]);
    }
  }

  lemma {:induction false} ScanPrefix(sem: Sem, op: ScanOp, ds: seq<Cell>, i: nat)
    requires i < |ds|
    ensures ScanCells(sem, op, ds)[i] == ScanCells(sem, op, ds[..i + 1])[i]
  {
    var m := |ds| - 1;
    if i < m {
      ScanPrefix(sem, op, ds[..m], i);
      assert ds[..m][..i + 1] == ds[..i + 1];
    } else {
      assert ds[..i + 1] == ds;
    }
  }

  lemma ExactScanRel(sem: Sem, op: ScanOp, p: PArr, d: Arr, n: nat)
    requires ArrRel(Exact, p, d, n)
    ensures ArrRel(Exact, PScan(sem, op, p), ScanArr(sem, op, d), n)
  {
    if p.PRows? {
      forall i | 0 <= i < n
        ensures CellRel(Exact, PScanAt(sem, op, p.cells, i), ScanCells(sem, op, d.cells)[i])
      {
        ScanPrefix(sem, op, d.cells, i);
        ExactScan(sem, op, p.cells[..i + 1], d.cells[..i + 1]);
      }
    }
  }

  /** Zeros at the nulls do not disturb a running sum. */
  lemma {:induction false} ZeroSum(sem: Sem, ps: seq<PCell>, ds: seq<Cell>)
    requires ArithmeticLaw(sem) && |ps| == |ds| && ps != []
    requires forall i | 0 <= i < |ps| :: CellRel(Zero, ps[i], ds[i])
    ensures ScanCells(sem, CumSum, ds)[|ds| - 1]
         == match Running(sem, CumSum, ps) case Some(c) => c case None => Num(0.0)
  {
    var m := |ps| - 1;
    assert CellRel(Zero, ps[m], ds[m]);
    if m == 0 {
      assert Running(sem, CumSum, ps[..0]) == None;
    } else {
      ZeroSum(sem, ps[..m], ds[..m]);
      var before := ScanCells(sem, CumSum, ds[..m])[m - 1];
      assert ScanCells(sem, CumSum, ds)[m] == sem.apply(Scan(CumSum), [before, ds[m]]);
      assert sem.apply(Scan(CumSum), [before, Num(0.0)]) == before;
      assert sem.apply(Scan(CumSum), [Num(0.0), ds[m]]) == ds[m];
    }
  }

  lemma ZeroSumRel(sem: Sem, p: PArr, d: Arr, n: nat)
    requires ArithmeticLaw(sem) && ArrRel(Zero, p, d, n)
    ensures ArrRel(Weak, PScan(sem, CumSum, p), ScanArr(sem, CumSum, d), n)
  {
    if p.PRows? {
      forall i | 0 <= i < n
        ensures CellRel(Weak, PScanAt(sem, CumSum, p.cells, i), ScanCells(sem, CumSum, d.cells)[i])
      {
        ScanPrefix(sem, CumSum, d.cells, i);
        ZeroSum(sem, p.cells[..i + 1], d.cells[..i + 1]);
      }
    }
  }
}

/** The null mask of a fused column is Polars' null mask. */
module FusionMask {
  import opened FusionAgreement
  import opened FusionIr
  import opened FusionNullSafety
  import opened FusionNulls
  import opened FusionValidity
  import opened FusionValiditySound
  import opened Options

  /** `b` is true exactly at the rows where `p` has a value. */
  ghost predicate ValidRel(p: PArr, b: BArr, n: nat) {
    match p
    case PScalar(c) => b.BScalar? && b.b == c.Val?
    case PRows(cells) => b.BRows? && |cells| == n && |b.bs| == n && forall i | 0 <= i < n :: b.bs[i] == cells[i].Val?
  }

  ghost predicate ValidRelAll(ps: seq<PArr>, bs: seq<BArr>, n: nat) {
    |ps| == |bs| && forall k | 0 <= k < |ps| :: ValidRel(ps[k], bs[k], n)
  }

  ghost predicate Masks(sem: Sem, frame: Frame, e: Expr) {
    ValidRel(PEval(sem, frame, e), BEval(sem, frame, e), frame.n)
  }

  ghost predicate MasksAll(sem: Sem, frame: Frame, es: seq<Expr>) {
    ValidRelAll(PEvalAll(sem, frame, es), BEvalAll(sem, frame, es), frame.n)
  }

  // ----- conjunctions -----

  predicate AnyBRows(bs: seq<BArr>) {
    exists k | 0 <= k < |bs| :: bs[k].BRows?
  }

  lemma {:induction false} AndAllRows(n: nat, acc: BArr, bs: seq<BArr>)
    requires BShape(n, acc) && BShapes(n, bs)
    ensures var r := BAndAll(n, acc, bs);
            BShape(n, r) && (r.BRows? <==> acc.BRows? || AnyBRows(bs))
            && forall i | (0 <= i < n || r.BScalar?) :: BAt(r, i) <==> BAt(acc, i) && forall k | 0 <= k < |bs| :: BAt(bs[k], i)
    decreases |bs|
  {
    if bs != [] {
      var acc' := BAnd(n, acc, bs[0]);
      var rest := bs[1..];
      assert BShape(n, bs[0]);
      assert BShapes(n, rest);
      AndAllRows(n, acc', rest);
      assert AnyBRows(bs) <==> bs[0].BRows? || AnyBRows(rest) by {
        if AnyBRows(bs) {
          var k :| 0 <= k < |bs| && bs[k].BRows?;
          assert k > 0 ==> rest[k - 1] == bs[k];
        }
        if AnyBRows(rest) {
          var k :| 0 <= k < |rest| && rest[k].BRows?;
          assert bs[k + 1] == rest[k];
        }
      }
      var r := BAndAll(n, acc, bs);
      forall i | 0 <= i < n || r.BScalar?
        ensures BAt(r, i) <==> BAt(acc, i) && forall k | 0 <= k < |bs| :: BAt(bs[k], i)
      {
        assert (forall k | 0 <= k < |bs| :: BAt(bs[k], i)) <==> BAt(bs[0], i) && (forall k | 0 <= k < |rest| :: BAt(rest[k], i)) by {
          assert forall k | 0 <= k < |rest| :: rest[k] == bs[k + 1];
          assert forall k | 1 <= k < |bs| :: bs[k] == rest[k - 1];
        }
      }
    }
  }

  /** An elementwise result is null at a row exactly when some argument is. */
  lemma ElementwiseMask(n: nat, f: seq<PCell> -> PCell, ps: seq<PArr>, bs: seq<BArr>)
    requires ValidRelAll(ps, bs, n)
    requires forall i | Row(n, ps, i) :: f(PCellsAt(ps, i)).Null? <==> Null in PCellsAt(ps, i)
    ensures ValidRel(PElementwise(n, f, ps), BAndAll(n, BScalar(true), bs), n)
  {
    hide BAndAll;
    assert forall k | 0 <= k < |ps| :: ValidRel(ps[k], bs[k], n);
    AndAllRows(n, BScalar(true), bs);
    assert AnyPRows(ps) <==> AnyBRows(bs) by {
      assert forall k | 0 <= k < |ps| :: ps[k].PRows? <==> bs[k].BRows?;
    }
    var r := BAndAll(n, BScalar(true), bs);
    forall i | Row(n, ps, i)
      ensures BAt(r, i) <==> f(PCellsAt(ps, i)).Val?
    {
      assert forall k | 0 <= k < |ps| :: PCellsAt(ps, i)[k] == PAt(ps[k], i);
      assert forall k | 0 <= k < |ps| :: BAt(bs[k], i) == PAt(ps[k], i).Val?;
    }
    if AnyPRows(ps) {
      assert forall i | 0 <= i < n :: Row(n, ps, i);
    } else {
      assert Row(n, ps, 0);
    }
  }

  lemma LiftNull(f: seq<Cell> -> Cell, cells: seq<PCell>)
    ensures Lifted(f)(cells).Null? <==> Null in cells
  {
  }

  lemma LiftedMask(n: nat, f: seq<Cell> -> Cell, ps: seq<PArr>, bs: seq<BArr>)
    requires ValidRelAll(ps, bs, n)
    ensures ValidRel(PElementwise(n, Lifted(f), ps), BAndAll(n, BScalar(true), bs), n)
  {
    hide ValidRelAll, PElementwise, BAndAll, Lifted;
    forall i | Row(n, ps, i)
      ensures Lifted(f)(PCellsAt(ps, i)).Null? <==> Null in PCellsAt(ps, i)
    {
      LiftNull(f, PCellsAt(ps, i));
    }
    ElementwiseMask(n, Lifted(f), ps, bs);
  }

  lemma BinNull(sem: Sem, op: BinOp, cells: seq<PCell>)
    requires |cells| == 2 && (IsLogical(op) ==> Null !in cells)
    ensures PBin(sem, op)(cells).Null? <==> Null in cells
  {
    assert Null in cells <==> cells[0] == Null || cells[1] == Null;
    if IsLogical(op) {
      assert cells[0] in cells && cells[1] in cells;
      assert PBin(sem, op)(cells) == Kleene(op, cells[0], cells[1]);
    }
  }

  // ----- one node at a time -----

  lemma ColumnMasks(sem: Sem, frame: Frame, e: Expr)
    requires e.Column? && FrameShape(frame)
    ensures Masks(sem, frame, e)
  {
    assert |frame.col(e.name)| == frame.n;
  }

  lemma BinaryMasks(sem: Sem, frame: Frame, e: Expr)
    requires e.Binary? && BinOpId(e.op).Some? && Masks(sem, frame, e.left) && Masks(sem, frame, e.right)
    requires IsLogical(BinOpId(e.op).value) ==> Related(Exact, sem, frame, e.left) && Related(Exact, sem, frame, e.right)
    ensures Masks(sem, frame, e)
  {
    hide ValidRel, PElementwise, BAndAll, PBin, DEval, PAt, CellRel;
    var op := BinOpId(e.op).value;
    var ps := [PEval(sem, frame, e.left), PEval(sem, frame, e.right)];
    var bs := [BEval(sem, frame, e.left), BEval(sem, frame, e.right)];
    assert ValidRelAll(ps, bs, frame.n);
    forall i | Row(frame.n, ps, i)
      ensures PBin(sem, op)(PCellsAt(ps, i)).Null? <==> Null in PCellsAt(ps, i)
    {
      if IsLogical(op) {
        var env := FrameEnv(sem, frame);
        var ds := [DEval(env, e.left), DEval(env, e.right)];
        assert ArrRelAll(Exact, ps, ds, frame.n);
        RowRel(Exact, ps, ds, frame.n, i);
        ExactHasNoNull(PCellsAt(ps, i), CellsAt(ds, i));
      }
      BinNull(sem, op, PCellsAt(ps, i));
    }
    ElementwiseMask(frame.n, PBin(sem, op), ps, bs);
  }

  lemma ExactHasNoNull(ps: seq<PCell>, ds: seq<Cell>)
    requires CellsRel(Exact, ps, ds)
    ensures Null !in ps
  {
    assert forall k | 0 <= k < |ps| :: CellRel(Exact, ps[k], ds[k]);
  }

  /** One argument: the conjunction is that argument's mask. */
  lemma UnaryMask(n: nat, f: seq<Cell> -> Cell, p: PArr, b: BArr)
    requires ValidRel(p, b, n)
    ensures ValidRel(PElementwise(n, Lifted(f), [p]), b, n)
  {
    hide PElementwise, Lifted;
    LiftedMask(n, f, [p], [b]);
    assert BAndAll(n, BAnd(n, BScalar(true), b), []) == BAnd(n, BScalar(true), b);
    assert [b][1..] == [];
    AndTrue(n, b);
  }

  lemma LogMasks(sem: Sem, frame: Frame, e: Expr)
    requires e.Function? && e.fn.LogFn? && LogOp(e.args).Some? && Masks(sem, frame, e.args[0])
    ensures Masks(sem, frame, e)
  {
    hide PElementwise, Lifted, LogTo;
    var b := BEval(sem, frame, e.args[0]);
    UnaryMask(frame.n, LogTo(sem, LogBase(e.args)), PEval(sem, frame, e.args[0]), b);
    assert e.args == [e.args[0], e.args[1]];
    assert e.args[1..] == [e.args[1]] && e.args[1..][1..] == [];
    assert BEvalAll(sem, frame, [e.args[1]]) == [BScalar(true)];
    var bs := BEvalAll(sem, frame, e.args);
    assert bs == [b, BScalar(true)];
    AndTrue(frame.n, b);
    assert bs[1..] == [BScalar(true)] && bs[1..][1..] == [];
    assert BAndAll(frame.n, BScalar(true), bs) == BAndAll(frame.n, b, [BScalar(true)]) == BAndAll(frame.n, b, []);
  }

  lemma ArgsMasks(sem: Sem, frame: Frame, e: Expr)
    requires e.Function? && (e.fn.Mapped? || e.fn.PowFn?) && e.args != [] && MasksAll(sem, frame, e.args)
    ensures Masks(sem, frame, e)
  {
    hide PElementwise, Lifted, BAndAll, ValidRel, Applied, MappedTo;
    var f := if e.fn.PowFn? then Applied(sem, Pow) else MappedTo(sem, e.fn.op, e.fn.decimals);
    LiftedMask(frame.n, f, PEvalAll(sem, frame, e.args), BEvalAll(sem, frame, e.args));
  }

  lemma ShiftMasks(sem: Sem, frame: Frame, e: Expr)
    requires e.Function? && e.fn.ShiftFn? && e.args != [] && Masks(sem, frame, e.args[0])
    ensures Masks(sem, frame, e)
  {
    hide ShiftOffset, PEvalAll, BEvalAll, PElementwise;
  }

  lemma ScanMasks(sem: Sem, frame: Frame, e: Expr)
    requires e.Function? && e.fn.Cumulative? && |e.args| == 1 && Masks(sem, frame, e.args[0])
    ensures Masks(sem, frame, e)
  {
    hide PElementwise, Running;
    var p, b := PEval(sem, frame, e.args[0]), BEval(sem, frame, e.args[0]);
    if p.PRows? {
      forall i | 0 <= i < |p.cells|
        ensures PScanAt(sem, e.fn.scan, p.cells, i).Val? == p.cells[i].Val?
      {
        if p.cells[i].Val? {
          RunningStarts(sem, e.fn.scan, p.cells[..i + 1]);
        }
      }
    }
    assert ValidRel(PScan(sem, e.fn.scan, p), b, frame.n);
    var bs := BEvalAll(sem, frame, e.args);
    assert e.args[1..] == [] && bs == [b] && bs[1..] == [];
    assert BAndAll(frame.n, BScalar(true), bs) == BAndAll(frame.n, BAnd(frame.n, BScalar(true), b), []);
    AndTrue(frame.n, b);
  }

  lemma TernaryMasks(sem: Sem, frame: Frame, e: Expr)
    requires e.Ternary? && Chooses(sem, frame, e.cond) && Masks(sem, frame, e.yes) && Masks(sem, frame, e.no)
    ensures Masks(sem, frame, e)
  {
    var c := DEval(FrameEnv(sem, frame), e.cond);
    WhereMask(frame.n, PEval(sem, frame, e.cond), c, PEval(sem, frame, e.yes), BEval(sem, frame, e.yes),
              PEval(sem, frame, e.no), BEval(sem, frame, e.no));
  }

  lemma WhereMask(n: nat, pc: PArr, dc: Arr, pt: PArr, bt: BArr, pe: PArr, be: BArr)
    requires CondRel(pc, dc, n) && ValidRel(pt, bt, n) && ValidRel(pe, be, n)
    ensures ValidRel(PWhere(n, pc, pt, pe), BWhere(n, dc, bt, be), n)
  {
    var ps := [pc, pt, pe];
    assert AnyPRows(ps) <==> pc.PRows? || pt.PRows? || pe.PRows? by {
      assert ps[0] == pc && ps[1] == pt && ps[2] == pe;
    }
    if AnyPRows(ps) {
      forall i | 0 <= i < n
        ensures (if Truthy(At(dc, i)) then BAt(bt, i) else BAt(be, i)) == PChoose(PAt(pc, i), PAt(pt, i), PAt(pe, i)).Val?
      {
        assert SameChoice(PAt(pc, i), At(dc, i));
      }
    }
  }

  // ----- whole expressions -----

  lemma {:induction false} ZeroFilledIsSafe(e: Expr)
    requires ZeroFilled(e)
    ensures Safe(true, e)
    decreases e
  {
    if e.Binary? {
      if ZeroFilled(e.left) && e.right.Literal? {
        ZeroFilledIsSafe(e.left);
      } else {
        ZeroFilledIsSafe(e.right);
      }
    } else if !Unshifted(e.args[0]) {
      ZeroFilledIsSafe(e.args[0]);
    }
  }

  /** For a safe expression the validity graph is 1 exactly at the rows Polars makes non-null. */
  lemma {:induction false} MaskAgrees(sem: Sem, frame: Frame, clean: bool, e: Expr)
    requires Given(sem, frame, e) && Safe(clean, e) && (clean ==> ColumnsClean(frame, e))
    ensures Masks(sem, frame, e)
    decreases e
  {
    hide Masks, Lawful, FrameShape, PEval, DEval, BEval, Chooses, Related;
    match e
    case Column(_, _) => ColumnMasks(sem, frame, e);
    case Literal(_, _) => LiteralMasks(sem, frame, e);
    case Binary(op, l, r) =>
      if clean && Unshifted(e) {
        ExactAgrees(sem, frame, l);
        ExactAgrees(sem, frame, r);
      }
      MaskAgrees(sem, frame, clean, l);
      MaskAgrees(sem, frame, clean, r);
      BinaryMasks(sem, frame, e);
    case Cast(_, arg) =>
      MaskAgrees(sem, frame, clean, arg);
      CastMasks(sem, frame, e);
    case Function(fn, args) =>
      FirstOf(sem, frame, args);
      match fn {
        case ShiftFn =>
          MaskAgrees(sem, frame, clean, args[0]);
          ShiftMasks(sem, frame, e);
        case LogFn =>
          MaskAgrees(sem, frame, clean, args[0]);
          LogMasks(sem, frame, e);
        case PowFn =>
          AllSafe(clean, e);
          MaskAllAgree(sem, frame, clean, args);
          ArgsMasks(sem, frame, e);
        case Mapped(_, _) =>
          AllSafe(clean, e);
          MaskAllAgree(sem, frame, clean, args);
          ArgsMasks(sem, frame, e);
        case Cumulative(_, _) =>
          if !Unshifted(e) {
            ZeroFilledIsSafe(args[0]);
          }
          MaskAgrees(sem, frame, clean, args[0]);
          ScanMasks(sem, frame, e);
      }
    case Ternary(c, t, f) =>
      DecidesAgrees(sem, frame, clean, c);
      MaskAgrees(sem, frame, clean, t);
      MaskAgrees(sem, frame, clean, f);
      TernaryMasks(sem, frame, e);
  }

  lemma LiteralMasks(sem: Sem, frame: Frame, e: Expr)
    requires e.Literal? && Supported(e)
    ensures Masks(sem, frame, e)
  {
  }

  lemma CastMasks(sem: Sem, frame: Frame, e: Expr)
    requires e.Cast? && Masks(sem, frame, e.arg)
    ensures Masks(sem, frame, e)
  {
    hide PElementwise, Lifted;
    UnaryMask(frame.n, Applied(sem, CastF32), PEval(sem, frame, e.arg), BEval(sem, frame, e.arg));
  }

  lemma AllSafe(clean: bool, e: Expr)
    requires e.Function? && (e.fn.PowFn? || e.fn.Mapped?) && Safe(clean, e)
    ensures SafeAll(clean, e.args)
  {
    if clean && Unshifted(e) {
      UnshiftedSafe(e.args);
    }
  }

  lemma {:induction false} UnshiftedSafe(es: seq<Expr>)
    requires UnshiftedAll(es)
    ensures SafeAll(true, es)
  {
    if es != [] {
      UnshiftedSafe(es[1..]);
    }
  }

  lemma {:induction false} MaskAllAgree(sem: Sem, frame: Frame, clean: bool, es: seq<Expr>)
    requires GivenAll(sem, frame, es) && SafeAll(clean, es) && (clean ==> ColumnsCleanAll(frame, es))
    ensures MasksAll(sem, frame, es)
    decreases es
  {
    hide Lawful, FrameShape, PEval, DEval, BEval, ValidRel;
    if es != [] {
      MaskAgrees(sem, frame, clean, es[0]);
      MaskAllAgree(sem, frame, clean, es[1..]);
    }
  }
}

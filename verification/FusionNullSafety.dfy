/** The expressions on which the device's values can be trusted at non-null rows. */
module FusionNullSafety {
  import opened FusionAgreement
  import opened FusionIr
  import opened FusionNulls
  import opened Options

  // ----- conditions on an expression -----

  /** No structural-null op: `has_structural_null_op` is false. */
  predicate NoShift(e: Expr)
    decreases e
  {
    match e
    case Binary(_, l, r) => NoShift(l) && NoShift(r)
    case Cast(_, arg) => NoShift(arg)
    case Function(fn, args) => !fn.ShiftFn? && NoShiftAll(args)
    case Ternary(c, t, f) => NoShift(c) && NoShift(t) && NoShift(f)
    case _ => true
  }

  predicate NoShiftAll(es: seq<Expr>)
    decreases es
  {
    es == [] || (NoShift(es[0]) && NoShiftAll(es[1..]))
  }

  /** The rows a shift moves its input by. */
  function Offset(args: seq<Expr>): nat {
    if ShiftOffset(args).Some? then ShiftOffset(args).value else 0
  }

  /** No shift by a positive number of rows. */
  predicate Unshifted(e: Expr)
    decreases e
  {
    match e
    case Binary(_, l, r) => Unshifted(l) && Unshifted(r)
    case Cast(_, arg) => Unshifted(arg)
    case Function(fn, args) => (fn.ShiftFn? ==> Offset(args) == 0) && UnshiftedAll(args)
    case Ternary(c, t, f) => Unshifted(c) && Unshifted(t) && Unshifted(f)
    case _ => true
  }

  predicate UnshiftedAll(es: seq<Expr>)
    decreases es
  {
    es == [] || (Unshifted(es[0]) && UnshiftedAll(es[1..]))
  }

  lemma {:induction false} NoShiftIsUnshifted(e: Expr)
    requires NoShift(e)
    ensures Unshifted(e)
    decreases e
  {
    match e
    case Binary(_, l, r) =>
      NoShiftIsUnshifted(l);
      NoShiftIsUnshifted(r);
    case Cast(_, arg) => NoShiftIsUnshifted(arg);
    case Function(_, args) => NoShiftAllUnshifted(args);
    case Ternary(c, t, f) =>
      NoShiftIsUnshifted(c);
      NoShiftIsUnshifted(t);
      NoShiftIsUnshifted(f);
    case _ =>
  }

  lemma {:induction false} NoShiftAllUnshifted(es: seq<Expr>)
    requires NoShiftAll(es)
    ensures UnshiftedAll(es)
    decreases es
  {
    if es != [] {
      NoShiftIsUnshifted(es[0]);
      NoShiftAllUnshifted(es[1..]);
    }
  }

  /** The nodes both passes accept. */
  predicate Supported(e: Expr)
    decreases e
  {
    match e
    case Column(_, _) => true
    case Literal(_, v) => !v.NullLit?
    case Binary(op, l, r) => BinOpId(op).Some? && Supported(l) && Supported(r)
    case Cast(toF32, arg) => toF32 && Supported(arg)
    case Function(fn, args) =>
      args != [] &&
      (match fn
       case ShiftFn => ShiftOffset(args).Some? && Supported(args[0])
       case LogFn => LogOp(args).Some? && Supported(args[0])
       case PowFn => |args| == 2 && SupportedAll(args)
       case Mapped(_, _) => SupportedAll(args)
       case Cumulative(_, reverse) => !reverse && SupportedAll(args)
       case UnknownFn => false)
    case Ternary(c, t, f) => Supported(c) && Supported(t) && Supported(f)
    case _ => false
  }

  predicate SupportedAll(es: seq<Expr>)
    decreases es
  {
    es == [] || (Supported(es[0]) && SupportedAll(es[1..]))
  }

  /** Parameters that the lowering drops have the values it assumes: `round` rounds to an
      integer, a logarithm's base is exactly the one its operator has, a scan has one input. */
  predicate PlainParameters(e: Expr)
    decreases e
  {
    match e
    case Binary(_, l, r) => PlainParameters(l) && PlainParameters(r)
    case Cast(_, arg) => PlainParameters(arg)
    case Function(fn, args) =>
      PlainParametersAll(args) && (fn.Mapped? && fn.op.Round? ==> fn.decimals == 0) &&
      (fn.Cumulative? ==> |args| == 1) && (fn.LogFn? && LogOp(args) == Some(LogE) ==> LogBase(args) == NATURAL_BASE)
    case Ternary(c, t, f) => PlainParameters(c) && PlainParameters(t) && PlainParameters(f)
    case _ => true
  }

  /** Every scan node has one input, as in Polars' IR. */
  predicate OneInputScans(e: Expr)
    decreases e
  {
    match e
    case Binary(_, l, r) => OneInputScans(l) && OneInputScans(r)
    case Cast(_, arg) => OneInputScans(arg)
    case Function(fn, args) => OneInputScansAll(args) && (fn.Cumulative? ==> |args| == 1)
    case Ternary(c, t, f) => OneInputScans(c) && OneInputScans(t) && OneInputScans(f)
    case _ => true
  }

  predicate OneInputScansAll(es: seq<Expr>)
    decreases es
  {
    es == [] || (OneInputScans(es[0]) && OneInputScansAll(es[1..]))
  }

  lemma {:induction false} PlainHasOneInputScans(e: Expr)
    requires PlainParameters(e)
    ensures OneInputScans(e)
    decreases e
  {
    match e
    case Binary(_, l, r) =>
      PlainHasOneInputScans(l);
      PlainHasOneInputScans(r);
    case Cast(_, arg) => PlainHasOneInputScans(arg);
    case Function(_, args) => PlainHaveOneInputScans(args);
    case Ternary(c, t, f) =>
      PlainHasOneInputScans(c);
      PlainHasOneInputScans(t);
      PlainHasOneInputScans(f);
    case _ =>
  }

  lemma {:induction false} PlainHaveOneInputScans(es: seq<Expr>)
    requires PlainParametersAll(es)
    ensures OneInputScansAll(es)
    decreases es
  {
    if es != [] {
      PlainHasOneInputScans(es[0]);
      PlainHaveOneInputScans(es[1..]);
    }
  }

  predicate PlainParametersAll(es: seq<Expr>)
    decreases es
  {
    es == [] || (PlainParameters(es[0]) && PlainParametersAll(es[1..]))
  }

  /** At every null of `e` the device holds NaN; `clean` says the columns have no nulls. */
  predicate Carries(clean: bool, e: Expr)
    decreases e
  {
    (clean && Unshifted(e)) ||
    match e
    case Column(_, _) => true
    case Literal(_, _) => true
    case Binary(op, l, r) =>
      BinOpId(op).Some? && !IsCompare(BinOpId(op).value) && !IsLogical(BinOpId(op).value) &&
      Carries(clean, l) && Carries(clean, r)
    case Cast(_, arg) => Carries(clean, arg)
    case Function(fn, args) =>
      if fn.Mapped? then CarriesAll(clean, args) else fn.LogFn? && args != [] && Carries(clean, args[0])
    case Ternary(c, t, f) => Decides(clean, c) && Carries(clean, t) && Carries(clean, f)
    case _ => false
  }

  predicate CarriesAll(clean: bool, es: seq<Expr>)
    decreases es
  {
    es == [] || (Carries(clean, es[0]) && CarriesAll(clean, es[1..]))
  }

  /** A condition that the device decides as Polars does: it has no nulls at all, or it is a
      comparison that is false on NaN, between operands that carry NaN at their nulls. */
  predicate Decides(clean: bool, c: Expr)
    decreases c
  {
    (clean && Unshifted(c)) ||
    (c.Binary? && BinOpId(c.op).Some? && NanFalse(BinOpId(c.op).value) && Carries(clean, c.left) && Carries(clean, c.right))
  }

  /** At every null of `e` the device holds zero: shifts of null-free input, and their multiples. */
  predicate ZeroFilled(e: Expr)
    decreases e
  {
    (e.Function? && e.fn.ShiftFn? && e.args != [] && (Unshifted(e.args[0]) || ZeroFilled(e.args[0]))) ||
    (e.Binary? && e.op.Multiply? &&
      ((ZeroFilled(e.left) && e.right.Literal?) || (e.left.Literal? && ZeroFilled(e.right))))
  }

  /** Wherever Polars has a value, the device has it. */
  predicate Safe(clean: bool, e: Expr)
    decreases e
  {
    (clean && Unshifted(e)) ||
    match e
    case Column(_, _) => true
    case Literal(_, _) => true
    case Binary(op, l, r) =>
      BinOpId(op).Some? && !IsLogical(BinOpId(op).value) && Safe(clean, l) && Safe(clean, r)
    case Cast(_, arg) => Safe(clean, arg)
    case Function(fn, args) =>
      args != [] &&
      (match fn
       case ShiftFn => Safe(clean, args[0])
       case LogFn => Safe(clean, args[0])
       case PowFn => SafeAll(clean, args)
       case Mapped(_, _) => SafeAll(clean, args)
       case Cumulative(op, _) => clean && op.CumSum? && ZeroFilled(args[0])
       case UnknownFn => false)
    case Ternary(c, t, f) => Decides(clean, c) && Safe(clean, t) && Safe(clean, f)
    case _ => false
  }

  predicate SafeAll(clean: bool, es: seq<Expr>)
    decreases es
  {
    es == [] || (Safe(clean, es[0]) && SafeAll(clean, es[1..]))
  }

  // ----- conditions on the data -----

  /** No comparison in `e` meets a NaN that is a value rather than a null. */
  ghost predicate Ordinary(sem: Sem, frame: Frame, e: Expr)
    decreases e
  {
    match e
    case Binary(op, l, r) =>
      Ordinary(sem, frame, l) && Ordinary(sem, frame, r) &&
      (BinOpId(op).Some? && IsCompare(BinOpId(op).value) ==>
        NoNaN(PEval(sem, frame, l)) && NoNaN(PEval(sem, frame, r)))
    case Cast(_, arg) => Ordinary(sem, frame, arg)
    case Function(_, args) => OrdinaryAll(sem, frame, args)
    case Ternary(c, t, f) => Ordinary(sem, frame, c) && Ordinary(sem, frame, t) && Ordinary(sem, frame, f)
    case _ => true
  }

  ghost predicate OrdinaryAll(sem: Sem, frame: Frame, es: seq<Expr>)
    decreases es
  {
    es == [] || (Ordinary(sem, frame, es[0]) && OrdinaryAll(sem, frame, es[1..]))
  }

  ghost predicate NoNaN(p: PArr) {
    forall i: int :: PAt(p, i) != Val(NaN)
  }

  /** The columns that `e` reads have no nulls. */
  predicate ColumnsClean(frame: Frame, e: Expr)
    decreases e
  {
    match e
    case Column(_, name) => Null !in frame.col(name)
    case Binary(_, l, r) => ColumnsClean(frame, l) && ColumnsClean(frame, r)
    case Cast(_, arg) => ColumnsClean(frame, arg)
    case Function(_, args) => ColumnsCleanAll(frame, args)
    case Ternary(c, t, f) => ColumnsClean(frame, c) && ColumnsClean(frame, t) && ColumnsClean(frame, f)
    case _ => true
  }

  predicate ColumnsCleanAll(frame: Frame, es: seq<Expr>)
    decreases es
  {
    es == [] || (ColumnsClean(frame, es[0]) && ColumnsCleanAll(frame, es[1..]))
  }

  /** Everything the agreement theorems assume of the data, in one place. */
  ghost predicate Given(sem: Sem, frame: Frame, e: Expr) {
    Lawful(sem) && FrameShape(frame) && Supported(e) && PlainParameters(e) && Ordinary(sem, frame, e)
  }

  ghost predicate GivenAll(sem: Sem, frame: Frame, es: seq<Expr>) {
    Lawful(sem) && FrameShape(frame) && SupportedAll(es) && PlainParametersAll(es) && OrdinaryAll(sem, frame, es)
  }

  ghost predicate Related(kind: Kind, sem: Sem, frame: Frame, e: Expr) {
    ArrRel(kind, PEval(sem, frame, e), DEval(FrameEnv(sem, frame), e), frame.n)
  }

  ghost predicate RelatedAll(kind: Kind, sem: Sem, frame: Frame, es: seq<Expr>) {
    ArrRelAll(kind, PEvalAll(sem, frame, es), DEvalAll(FrameEnv(sem, frame), es), frame.n)
  }

  // ----- one node at a time -----

  lemma LeafRelated(kind: Kind, sem: Sem, frame: Frame, e: Expr)
    requires (e.Column? || e.Literal?) && FrameShape(frame) && Supported(e) && !kind.Zero?
    requires kind.Exact? ==> ColumnsClean(frame, e)
    ensures Related(kind, sem, frame, e)
  {
    if e.Column? {
      var cells := frame.col(e.name);
      assert |cells| == frame.n;
      assert kind.Exact? ==> forall i | 0 <= i < |cells| :: cells[i] in cells && cells[i] != Null;
    }
  }

  /** A binary node from its children. */
  lemma BinaryRelated(kind: Kind, sem: Sem, frame: Frame, e: Expr)
    requires e.Binary? && Given(sem, frame, e) && !kind.Zero?
    requires Related(kind, sem, frame, e.left) && Related(kind, sem, frame, e.right)
    requires IsCompare(BinOpId(e.op).value) ==> kind.Exact? || kind.Weak?
    requires IsLogical(BinOpId(e.op).value) ==> kind.Exact?
    ensures Related(kind, sem, frame, e)
  {
    hide CellRel, CellsRel, PBin, ArrRel, PAt, At, IsCompare, IsLogical;
    var op := BinOpId(e.op).value;
    var env := FrameEnv(sem, frame);
    var ps, ds := [PEval(sem, frame, e.left), PEval(sem, frame, e.right)], [DEval(env, e.left), DEval(env, e.right)];
    assert ArrRelAll(kind, ps, ds, frame.n);
    forall i | Row(frame.n, ps, i)
      ensures CellRel(kind, PBin(sem, op)(PCellsAt(ps, i)), sem.apply(Bin(op), CellsAt(ds, i)))
    {
      RowRel(kind, ps, ds, frame.n, i);
      var pc, dc := PCellsAt(ps, i), CellsAt(ds, i);
      if IsCompare(op) {
        assert pc[0] == PAt(ps[0], i) && pc[1] == PAt(ps[1], i);
        CompareCell(kind, sem, op, pc, dc);
      } else if IsLogical(op) {
        LogicalCell(sem, op, pc, dc);
      } else {
        ArithmeticCell(kind, sem, op, pc, dc);
      }
    }
    ElementwiseRel(kind, kind, sem, frame.n, PBin(sem, op), Bin(op), ps, ds);
  }

  /** A null-propagating function of related arguments. */
  lemma LiftedRelated(kind: Kind, sem: Sem, n: nat, f: seq<Cell> -> Cell, op: OpId, ps: seq<PArr>, ds: seq<Arr>)
    requires ArrRelAll(kind, ps, ds, n) && !kind.Zero? && StrictLaw(sem) && (kind.Strong? ==> Strict(op))
    requires forall cells: seq<Cell> | |cells| == |ds| :: f(cells) == sem.apply(op, cells)
    ensures ArrRel(kind, PElementwise(n, Lifted(f), ps), Elementwise(sem, n, op, ds), n)
  {
    hide CellRel, CellsRel, ArrRel, StrictLaw, Lift;
    forall i | Row(n, ps, i)
      ensures CellRel(kind, Lifted(f)(PCellsAt(ps, i)), sem.apply(op, CellsAt(ds, i)))
    {
      RowRel(kind, ps, ds, n, i);
      LiftCell(kind, sem, f, op, PCellsAt(ps, i), CellsAt(ds, i));
    }
    ElementwiseRel(kind, kind, sem, n, Lifted(f), op, ps, ds);
  }

  lemma CastRelated(kind: Kind, sem: Sem, frame: Frame, e: Expr)
    requires e.Cast? && Lawful(sem) && Related(kind, sem, frame, e.arg) && !kind.Zero?
    ensures Related(kind, sem, frame, e)
  {
    hide ArrRel, PElementwise, Elementwise, CompareLaw, LogicalLaw, ArithmeticLaw, FunctionLaw, StrictLaw;
    var env := FrameEnv(sem, frame);
    LiftedRelated(kind, sem, frame.n, Applied(sem, CastF32), CastF32, [PEval(sem, frame, e.arg)], [DEval(env, e.arg)]);
  }

  lemma LogRelated(kind: Kind, sem: Sem, frame: Frame, e: Expr)
    requires e.Function? && e.fn.LogFn? && Given(sem, frame, e) && !kind.Zero?
    requires Related(kind, sem, frame, e.args[0])
    ensures Related(kind, sem, frame, e)
  {
    hide ArrRel, PElementwise, Elementwise, CompareLaw, LogicalLaw, ArithmeticLaw, StrictLaw, Ordinary;
    var env := FrameEnv(sem, frame);
    var op := LogOp(e.args).value;
    LogAgrees(sem, e.args);
    LiftedRelated(kind, sem, frame.n, LogTo(sem, LogBase(e.args)), op, [PEval(sem, frame, e.args[0])], [DEval(env, e.args[0])]);
  }

  lemma LogAgrees(sem: Sem, args: seq<Expr>)
    requires FunctionLaw(sem) && LogOp(args).Some?
    requires LogOp(args) == Some(LogE) ==> LogBase(args) == NATURAL_BASE
    ensures Strict(LogOp(args).value)
    ensures forall cells: seq<Cell> | |cells| == 1 ::
      LogTo(sem, LogBase(args))(cells) == sem.apply(LogOp(args).value, cells)
  {
    forall cells: seq<Cell> | |cells| == 1
      ensures LogTo(sem, LogBase(args))(cells) == sem.apply(LogOp(args).value, cells)
    {
      assert cells == [cells[0]];
    }
  }

  lemma MappedRelated(kind: Kind, sem: Sem, frame: Frame, e: Expr)
    requires e.Function? && e.fn.Mapped? && Given(sem, frame, e) && !kind.Zero?
    requires RelatedAll(kind, sem, frame, e.args)
    ensures Related(kind, sem, frame, e)
  {
    hide ArrRel, PElementwise, Elementwise, CompareLaw, LogicalLaw, ArithmeticLaw, StrictLaw, Ordinary;
    var env := FrameEnv(sem, frame);
    LiftedRelated(kind, sem, frame.n, MappedTo(sem, e.fn.op, e.fn.decimals), Pw(e.fn.op),
                  PEvalAll(sem, frame, e.args), DEvalAll(env, e.args));
  }

  lemma PowRelated(kind: Kind, sem: Sem, frame: Frame, e: Expr)
    requires e.Function? && e.fn.PowFn? && Given(sem, frame, e) && (kind.Weak? || kind.Exact?)
    requires RelatedAll(kind, sem, frame, e.args)
    ensures Related(kind, sem, frame, e)
  {
    hide ArrRel, PElementwise, Elementwise, CompareLaw, LogicalLaw, ArithmeticLaw, StrictLaw, FunctionLaw, Ordinary;
    var env := FrameEnv(sem, frame);
    LiftedRelated(kind, sem, frame.n, Applied(sem, Pow), Pow, PEvalAll(sem, frame, e.args), DEvalAll(env, e.args));
  }

  lemma ConsRelated(kind: Kind, sem: Sem, frame: Frame, es: seq<Expr>)
    requires es != [] && Related(kind, sem, frame, es[0]) && RelatedAll(kind, sem, frame, es[1..])
    ensures RelatedAll(kind, sem, frame, es)
  {
    hide ArrRel, PEval, DEval;
  }

  lemma Weaken(kind: Kind, sem: Sem, frame: Frame, e: Expr)
    requires Related(Exact, sem, frame, e) || (kind.Weak? && exists k :: Related(k, sem, frame, e))
    ensures Related(kind, sem, frame, e)
  {
  }

  // ----- whole expressions -----

  lemma FirstOf(sem: Sem, frame: Frame, es: seq<Expr>)
    requires es != []
    ensures UnshiftedAll(es) ==> Unshifted(es[0])
    ensures SupportedAll(es) ==> Supported(es[0])
    ensures PlainParametersAll(es) ==> PlainParameters(es[0])
    ensures OrdinaryAll(sem, frame, es) ==> Ordinary(sem, frame, es[0])
    ensures ColumnsCleanAll(frame, es) ==> ColumnsClean(frame, es[0])
  {
  }

  /** Over null-free columns and without shifts, both engines compute the same values. */
  lemma {:induction false} ExactAgrees(sem: Sem, frame: Frame, e: Expr)
    requires Given(sem, frame, e) && Unshifted(e) && ColumnsClean(frame, e)
    ensures Related(Exact, sem, frame, e)
    decreases e
  {
    hide Related, Lawful, FrameShape, PEval, DEval;
    match e
    case Column(_, _) => LeafRelated(Exact, sem, frame, e);
    case Literal(_, _) => LeafRelated(Exact, sem, frame, e);
    case Binary(_, l, r) =>
      ExactAgrees(sem, frame, l);
      ExactAgrees(sem, frame, r);
      BinaryRelated(Exact, sem, frame, e);
    case Cast(_, arg) =>
      ExactAgrees(sem, frame, arg);
      CastRelated(Exact, sem, frame, e);
    case Function(fn, args) =>
      FirstOf(sem, frame, args);
      match fn {
        case ShiftFn =>
          ExactAgrees(sem, frame, args[0]);
          UnmovedRelated(sem, frame, e);
        case LogFn =>
          ExactAgrees(sem, frame, args[0]);
          LogRelated(Exact, sem, frame, e);
        case PowFn =>
          ExactAllAgree(sem, frame, args);
          PowRelated(Exact, sem, frame, e);
        case Mapped(_, _) =>
          ExactAllAgree(sem, frame, args);
          MappedRelated(Exact, sem, frame, e);
        case Cumulative(op, _) =>
          ExactAgrees(sem, frame, args[0]);
          ScanRelated(Exact, sem, frame, e);
      }
    case Ternary(c, t, f) =>
      ExactAgrees(sem, frame, c);
      ExactAgrees(sem, frame, t);
      ExactAgrees(sem, frame, f);
      ExactCondition(sem, frame, c);
      TernaryRelated(Exact, sem, frame, e);
  }

  lemma {:induction false} ExactAllAgree(sem: Sem, frame: Frame, es: seq<Expr>)
    requires GivenAll(sem, frame, es) && UnshiftedAll(es) && ColumnsCleanAll(frame, es)
    ensures RelatedAll(Exact, sem, frame, es)
    decreases es
  {
    hide Related, Lawful, FrameShape, PEval, DEval, ArrRel;
    if es != [] {
      ExactAgrees(sem, frame, es[0]);
      ExactAllAgree(sem, frame, es[1..]);
      ConsRelated(Exact, sem, frame, es);
    }
  }

  ghost predicate Chooses(sem: Sem, frame: Frame, c: Expr) {
    CondRel(PEval(sem, frame, c), DEval(FrameEnv(sem, frame), c), frame.n)
  }

  lemma ExactCondition(sem: Sem, frame: Frame, c: Expr)
    requires Related(Exact, sem, frame, c)
    ensures Chooses(sem, frame, c)
  {
    hide PEval, DEval, ArrRel, CondRel;
    ExactCondRel(PEval(sem, frame, c), DEval(FrameEnv(sem, frame), c), frame.n);
  }

  lemma TernaryRelated(kind: Kind, sem: Sem, frame: Frame, e: Expr)
    requires e.Ternary? && Chooses(sem, frame, e.cond)
    requires Related(kind, sem, frame, e.yes) && Related(kind, sem, frame, e.no)
    ensures Related(kind, sem, frame, e)
  {
    hide ArrRel, CondRel, PWhere, WhereArr;
    var env := FrameEnv(sem, frame);
    WhereRel(kind, frame.n, PEval(sem, frame, e.cond), DEval(env, e.cond), PEval(sem, frame, e.yes), DEval(env, e.yes),
             PEval(sem, frame, e.no), DEval(env, e.no));
  }

  lemma ScanRelated(kind: Kind, sem: Sem, frame: Frame, e: Expr)
    requires e.Function? && e.fn.Cumulative? && e.args != [] && Lawful(sem)
    requires kind.Exact? || (kind.Zero? && e.fn.scan.CumSum?)
    requires Related(kind, sem, frame, e.args[0])
    ensures Related(if kind.Exact? then Exact else Weak, sem, frame, e)
  {
    hide ArrRel, PScan, ScanArr, StrictLaw, CompareLaw, LogicalLaw, ArithmeticLaw, FunctionLaw;
    var p, d := PEval(sem, frame, e.args[0]), DEval(FrameEnv(sem, frame), e.args[0]);
    if kind.Exact? {
      ExactScanRel(sem, e.fn.scan, p, d, frame.n);
    } else {
      ZeroSumRel(sem, p, d, frame.n);
    }
  }

  /** A shift by nothing keeps every value. */
  lemma UnmovedRelated(sem: Sem, frame: Frame, e: Expr)
    requires e.Function? && e.fn.ShiftFn? && e.args != [] && Offset(e.args) == 0 && Related(Exact, sem, frame, e.args[0])
    ensures Related(Exact, sem, frame, e)
  {
    var p, d := PEval(sem, frame, e.args[0]), DEval(FrameEnv(sem, frame), e.args[0]);
    assert PShift(p, 0) == p && ShiftArr(d, 0) == d;
  }

  lemma ShiftRelated(kind: Kind, sem: Sem, frame: Frame, e: Expr)
    requires e.Function? && e.fn.ShiftFn? && e.args != []
    requires Related(kind, sem, frame, e.args[0]) && !kind.Strong?
    ensures Related(if kind.Weak? then Weak else Zero, sem, frame, e)
  {
    hide ArrRel, PShift, ShiftArr, ShiftOffset;
    var p, d := PEval(sem, frame, e.args[0]), DEval(FrameEnv(sem, frame), e.args[0]);
    var w := if ShiftOffset(e.args).Some? then ShiftOffset(e.args).value else 0;
    ShiftRel(kind, p, d, frame.n, w);
  }

  /** An expression that carries NaN does hold NaN at each of its nulls. */
  lemma {:induction false} CarriesAgrees(sem: Sem, frame: Frame, clean: bool, e: Expr)
    requires Given(sem, frame, e) && Carries(clean, e) && (clean ==> ColumnsClean(frame, e))
    ensures Related(Strong, sem, frame, e)
    decreases e, 1
  {
    hide Related, Lawful, FrameShape, PEval, DEval, Decides;
    if clean && Unshifted(e) {
      ExactAgrees(sem, frame, e);
      Weaken(Strong, sem, frame, e);
    } else {
      match e
      case Column(_, _) => LeafRelated(Strong, sem, frame, e);
      case Literal(_, _) => LeafRelated(Strong, sem, frame, e);
      case Binary(_, l, r) =>
        CarriesAgrees(sem, frame, clean, l);
        CarriesAgrees(sem, frame, clean, r);
        BinaryRelated(Strong, sem, frame, e);
      case Cast(_, arg) =>
        CarriesAgrees(sem, frame, clean, arg);
        CastRelated(Strong, sem, frame, e);
      case Function(fn, args) =>
        if fn.Mapped? {
          CarriesAllAgree(sem, frame, clean, args);
          MappedRelated(Strong, sem, frame, e);
        } else {
          FirstOf(sem, frame, args);
          CarriesAgrees(sem, frame, clean, args[0]);
          LogRelated(Strong, sem, frame, e);
        }
      case Ternary(c, t, f) =>
        DecidesAgrees(sem, frame, clean, c);
        CarriesAgrees(sem, frame, clean, t);
        CarriesAgrees(sem, frame, clean, f);
        TernaryRelated(Strong, sem, frame, e);
    }
  }

  lemma {:induction false} CarriesAllAgree(sem: Sem, frame: Frame, clean: bool, es: seq<Expr>)
    requires GivenAll(sem, frame, es) && CarriesAll(clean, es) && (clean ==> ColumnsCleanAll(frame, es))
    ensures RelatedAll(Strong, sem, frame, es)
    decreases es
  {
    hide Related, Lawful, FrameShape, PEval, DEval, ArrRel;
    if es != [] {
      CarriesAgrees(sem, frame, clean, es[0]);
      CarriesAllAgree(sem, frame, clean, es[1..]);
      ConsRelated(Strong, sem, frame, es);
    }
  }

  /** A deciding condition sends every row down the branch Polars takes. */
  lemma {:induction false} DecidesAgrees(sem: Sem, frame: Frame, clean: bool, c: Expr)
    requires Given(sem, frame, c) && Decides(clean, c) && (clean ==> ColumnsClean(frame, c))
    ensures Chooses(sem, frame, c)
    decreases c, 2
  {
    hide Lawful, FrameShape, ArrRel, CondRel, Carries, PElementwise, Elementwise, NoNaN;
    if clean && Unshifted(c) {
      ExactAgrees(sem, frame, c);
      ExactCondition(sem, frame, c);
    } else {
      CarriesAgrees(sem, frame, clean, c.left);
      CarriesAgrees(sem, frame, clean, c.right);
      CompareChooses(sem, frame, c);
    }
  }

  lemma CompareChooses(sem: Sem, frame: Frame, c: Expr)
    requires c.Binary? && Given(sem, frame, c) && NanFalse(BinOpId(c.op).value)
    requires Related(Strong, sem, frame, c.left) && Related(Strong, sem, frame, c.right)
    ensures Chooses(sem, frame, c)
  {
    hide ArrRel, CondRel, PElementwise, Elementwise, StrictLaw, LogicalLaw, ArithmeticLaw, FunctionLaw, CompareLaw;
    var env := FrameEnv(sem, frame);
    var ps, ds := [PEval(sem, frame, c.left), PEval(sem, frame, c.right)], [DEval(env, c.left), DEval(env, c.right)];
    CompareCondRel(sem, frame.n, BinOpId(c.op).value, ps, ds);
  }

  lemma {:induction false} ZeroAgrees(sem: Sem, frame: Frame, e: Expr)
    requires Given(sem, frame, e) && ZeroFilled(e) && ColumnsClean(frame, e)
    ensures Related(Zero, sem, frame, e)
    decreases e
  {
    hide Related, Lawful, FrameShape, PEval, DEval;
    if e.Binary? {
      if e.right.Literal? && ZeroFilled(e.left) {
        ZeroAgrees(sem, frame, e.left);
      } else {
        ZeroAgrees(sem, frame, e.right);
      }
      MultipleRelated(sem, frame, e);
    } else {
      FirstOf(sem, frame, e.args);
      if Unshifted(e.args[0]) {
        ExactAgrees(sem, frame, e.args[0]);
        ShiftRelated(Exact, sem, frame, e);
      } else {
        ZeroAgrees(sem, frame, e.args[0]);
        ShiftRelated(Zero, sem, frame, e);
      }
    }
  }

  /** A multiple of a zero-filled expression is zero-filled. */
  lemma MultipleRelated(sem: Sem, frame: Frame, e: Expr)
    requires e.Binary? && e.op.Multiply? && Given(sem, frame, e)
    requires (e.right.Literal? && Related(Zero, sem, frame, e.left)) || (e.left.Literal? && Related(Zero, sem, frame, e.right))
    ensures Related(Zero, sem, frame, e)
  {
    hide StrictLaw, CompareLaw, LogicalLaw, FunctionLaw, Ordinary, PBin, ArithmeticLaw;
    var env := FrameEnv(sem, frame);
    var ps, ds := [PEval(sem, frame, e.left), PEval(sem, frame, e.right)], [DEval(env, e.left), DEval(env, e.right)];
    LiteralValues(sem, frame, e.left);
    LiteralValues(sem, frame, e.right);
    assert ArrRelAll(Weak, ps, ds, frame.n) by {
      assert ArrRel(Weak, ps[0], ds[0], frame.n) && ArrRel(Weak, ps[1], ds[1], frame.n);
    }
    forall i | Row(frame.n, ps, i)
      ensures CellRel(Zero, PBin(sem, Mul)(PCellsAt(ps, i)), sem.apply(Bin(Mul), CellsAt(ds, i)))
    {
      hide Row;
      var p, q, c, d := PAt(ps[0], i), PAt(ps[1], i), At(ds[0], i), At(ds[1], i);
      assert PCellsAt(ps, i) == [p, q] && CellsAt(ds, i) == [c, d];
      RowOfMultiple(frame.n, ps, ds, i, e.right.Literal? && Related(Zero, sem, frame, e.left));
      MultipleCell(sem, p, q, c, d);
    }
    ElementwiseRel(Zero, Weak, sem, frame.n, PBin(sem, Mul), Bin(Mul), ps, ds);
  }

  lemma LiteralValues(sem: Sem, frame: Frame, e: Expr)
    requires Supported(e)
    ensures e.Literal? ==>
      PEval(sem, frame, e) == PScalar(Val(Num(FloatOf(e.value)))) && DEval(FrameEnv(sem, frame), e) == Scalar(Num(FloatOf(e.value)))
  {
  }

  /** One factor is a number, the other zero-filled. */
  lemma RowOfMultiple(n: nat, ps: seq<PArr>, ds: seq<Arr>, i: int, leftFilled: bool)
    requires |ps| == 2 == |ds| && Row(n, ps, i)
    requires if leftFilled then ArrRel(Zero, ps[0], ds[0], n) && ps[1].PScalar? && ps[1].c.Val? && ps[1].c.c.Num? && ds[1] == Scalar(ps[1].c.c)
             else ArrRel(Zero, ps[1], ds[1], n) && ps[0].PScalar? && ps[0].c.Val? && ps[0].c.c.Num? && ds[0] == Scalar(ps[0].c.c)
    ensures CellRel(Zero, PAt(ps[0], i), At(ds[0], i)) && CellRel(Zero, PAt(ps[1], i), At(ds[1], i))
    ensures At(ds[0], i).Num? || At(ds[1], i).Num?
    ensures PAt(ps[0], i).Null? ==> At(ds[1], i).Num?
    ensures PAt(ps[1], i).Null? ==> At(ds[0], i).Num?
  {
  }

  lemma MultipleCell(sem: Sem, p: PCell, q: PCell, c: Cell, d: Cell)
    requires ArithmeticLaw(sem) && CellRel(Zero, p, c) && CellRel(Zero, q, d)
    requires (p.Null? ==> d.Num?) && (q.Null? ==> c.Num?)
    ensures CellRel(Zero, PBin(sem, Mul)([p, q]), sem.apply(Bin(Mul), [c, d]))
  {
    hide StrictLaw, CompareLaw, LogicalLaw, FunctionLaw;
    var cells := [p, q];
    assert !IsLogical(Mul) && !IsCompare(Mul);
    if p.Null? || q.Null? {
      assert sem.apply(Bin(Mul), [Num(c.x), Num(d.x)]) == Num(c.x * d.x);
    } else {
      assert [cells[0].c, cells[1].c] == [c, d];
    }
  }

  /** Wherever Polars gives a value to a safe expression, the device has computed it. */
  lemma {:induction false} SafeAgrees(sem: Sem, frame: Frame, clean: bool, e: Expr)
    requires Given(sem, frame, e) && Safe(clean, e) && (clean ==> ColumnsClean(frame, e))
    ensures Related(Weak, sem, frame, e)
    decreases e
  {
    hide Related, Lawful, FrameShape, PEval, DEval, Decides;
    if clean && Unshifted(e) {
      ExactAgrees(sem, frame, e);
      Weaken(Weak, sem, frame, e);
    } else {
      match e
      case Column(_, _) => LeafRelated(Weak, sem, frame, e);
      case Literal(_, _) => LeafRelated(Weak, sem, frame, e);
      case Binary(_, l, r) =>
        SafeAgrees(sem, frame, clean, l);
        SafeAgrees(sem, frame, clean, r);
        BinaryRelated(Weak, sem, frame, e);
      case Cast(_, arg) =>
        SafeAgrees(sem, frame, clean, arg);
        CastRelated(Weak, sem, frame, e);
      case Function(fn, args) =>
        FirstOf(sem, frame, args);
        match fn {
          case ShiftFn =>
            SafeAgrees(sem, frame, clean, args[0]);
            ShiftRelated(Weak, sem, frame, e);
          case LogFn =>
            SafeAgrees(sem, frame, clean, args[0]);
            LogRelated(Weak, sem, frame, e);
          case PowFn =>
            SafeAllAgree(sem, frame, clean, args);
            PowRelated(Weak, sem, frame, e);
          case Mapped(_, _) =>
            SafeAllAgree(sem, frame, clean, args);
            MappedRelated(Weak, sem, frame, e);
          case Cumulative(_, _) =>
            ZeroAgrees(sem, frame, args[0]);
            ScanRelated(Zero, sem, frame, e);
        }
      case Ternary(c, t, f) =>
        DecidesAgrees(sem, frame, clean, c);
        SafeAgrees(sem, frame, clean, t);
        SafeAgrees(sem, frame, clean, f);
        TernaryRelated(Weak, sem, frame, e);
    }
  }

  lemma {:induction false} SafeAllAgree(sem: Sem, frame: Frame, clean: bool, es: seq<Expr>)
    requires GivenAll(sem, frame, es) && SafeAll(clean, es) && (clean ==> ColumnsCleanAll(frame, es))
    ensures RelatedAll(Weak, sem, frame, es)
    decreases es
  {
    hide Related, Lawful, FrameShape, PEval, DEval, ArrRel;
    if es != [] {
      SafeAgrees(sem, frame, clean, es[0]);
      SafeAllAgree(sem, frame, clean, es[1..]);
      ConsRelated(Weak, sem, frame, es);
    }
  }
}

/** Where a chain without conditions or Kleene operators is null: below its largest cumulative
    shift, and where a column it reads is null. */
module FusionHeads {
  import opened FusionAcceptance
  import opened FusionIr
  import opened FusionNullSafety
  import opened FusionNulls
  import opened FusionSound
  import opened Options

  /** No conditions and no Kleene operators, so that nulls do not depend on values. */
  predicate Straight(e: Expr)
    decreases e
  {
    match e
    case Column(_, _) => true
    case Literal(_, _) => true
    case Binary(op, l, r) => BinOpId(op).Some? && !IsLogical(BinOpId(op).value) && Straight(l) && Straight(r)
    case Cast(_, arg) => Straight(arg)
    case Function(_, args) => StraightAll(args)
    case _ => false
  }

  predicate StraightAll(es: seq<Expr>)
    decreases es
  {
    es == [] || (Straight(es[0]) && StraightAll(es[1..]))
  }

  /** The columns named have no nulls. */
  ghost predicate NullFree(frame: Frame, cols: set<string>) {
    forall c | c in cols :: Null !in frame.col(c)
  }

  /** What the lemmas ask of a chain. */
  ghost predicate Chain(frame: Frame, e: Expr) {
    FrameShape(frame) && Supported(e) && PlainParameters(e) && Straight(e)
  }

  ghost predicate Chains(frame: Frame, es: seq<Expr>) {
    FrameShape(frame) && SupportedAll(es) && PlainParametersAll(es) && StraightAll(es)
  }

  // ----- rows of one node -----

  lemma ElementwiseAt(n: nat, f: seq<PCell> -> PCell, args: seq<PArr>, i: int)
    requires 0 <= i < n
    ensures PAt(PElementwise(n, f, args), i) == f(PCellsAt(args, i))
    ensures PElementwise(n, f, args).PRows? <==> AnyPRows(args)
    ensures PElementwise(n, f, args).PRows? ==> |PElementwise(n, f, args).cells| == n
  {
    if !AnyPRows(args) {
      assert forall k | 0 <= k < |args| :: PAt(args[k], 0) == PAt(args[k], i);
      assert PCellsAt(args, 0) == PCellsAt(args, i);
    }
  }

  lemma BinaryAt(sem: Sem, frame: Frame, e: Expr, i: int)
    requires e.Binary? && Chain(frame, e) && 0 <= i < frame.n
    ensures PAt(PEval(sem, frame, e), i).Null? <==>
      PAt(PEval(sem, frame, e.left), i).Null? || PAt(PEval(sem, frame, e.right), i).Null?
  {
    var op := BinOpId(e.op).value;
    var args := [PEval(sem, frame, e.left), PEval(sem, frame, e.right)];
    ElementwiseAt(frame.n, PBin(sem, op), args, i);
    var cells := PCellsAt(args, i);
    assert cells[0] == PAt(args[0], i) && cells[1] == PAt(args[1], i);
  }

  lemma LiftedAt(n: nat, f: seq<Cell> -> Cell, args: seq<PArr>, i: int)
    requires 0 <= i < n
    ensures PAt(PElementwise(n, Lifted(f), args), i).Null? <==> exists k | 0 <= k < |args| :: PAt(args[k], i).Null?
  {
    ElementwiseAt(n, Lifted(f), args, i);
    var cells := PCellsAt(args, i);
    assert forall k | 0 <= k < |args| :: cells[k] == PAt(args[k], i);
    if Null in cells {
      var k :| 0 <= k < |cells| && cells[k] == Null;
      assert PAt(args[k], i).Null?;
    }
  }

  lemma CastAt(sem: Sem, frame: Frame, e: Expr, i: int)
    requires e.Cast? && 0 <= i < frame.n
    ensures PAt(PEval(sem, frame, e), i).Null? <==> PAt(PEval(sem, frame, e.arg), i).Null?
  {
    hide PElementwise, Lifted;
    var args := [PEval(sem, frame, e.arg)];
    LiftedAt(frame.n, Applied(sem, CastF32), args, i);
    assert (exists k | 0 <= k < |args| :: PAt(args[k], i).Null?) <==> PAt(args[0], i).Null?;
  }

  ghost predicate SomeNull(sem: Sem, frame: Frame, es: seq<Expr>, i: int) {
    exists k | 0 <= k < |es| :: PAt(PEvalAll(sem, frame, es)[k], i).Null?
  }

  /** Functions of several arguments, and logarithms. */
  lemma FunctionAt(sem: Sem, frame: Frame, e: Expr, i: int)
    requires e.Function? && (e.fn.PowFn? || e.fn.Mapped? || e.fn.LogFn?) && Supported(e) && 0 <= i < frame.n
    ensures !e.fn.LogFn? ==> (PAt(PEval(sem, frame, e), i).Null? <==> SomeNull(sem, frame, e.args, i))
    ensures e.fn.LogFn? ==> (PAt(PEval(sem, frame, e), i).Null? <==> PAt(PEval(sem, frame, e.args[0]), i).Null?)
  {
    hide PElementwise, Lifted;
    match e.fn
    case LogFn =>
      var args := [PEval(sem, frame, e.args[0])];
      LiftedAt(frame.n, LogTo(sem, LogBase(e.args)), args, i);
      assert (exists k | 0 <= k < |args| :: PAt(args[k], i).Null?) <==> PAt(args[0], i).Null?;
    case PowFn => LiftedAt(frame.n, Applied(sem, Pow), PEvalAll(sem, frame, e.args), i);
    case Mapped(op, d) => LiftedAt(frame.n, MappedTo(sem, op, d), PEvalAll(sem, frame, e.args), i);
  }

  /** A scan leaves the nulls in place. */
  lemma ScanAtNull(sem: Sem, op: ScanOp, a: PArr, i: int)
    requires 0 <= i
    ensures PAt(PScan(sem, op, a), i).Null? <==> PAt(a, i).Null?
  {
    if a.PRows? && i < |a.cells| && a.cells[i].Val? {
      RunningStarts(sem, op, a.cells[..i + 1]);
    }
  }

  lemma SomeNullCons(sem: Sem, frame: Frame, es: seq<Expr>, i: int)
    requires es != []
    ensures SomeNull(sem, frame, es, i) <==> PAt(PEval(sem, frame, es[0]), i).Null? || SomeNull(sem, frame, es[1..], i)
  {
    hide PEval;
    var all, rest := PEvalAll(sem, frame, es), PEvalAll(sem, frame, es[1..]);
    assert all == [PEval(sem, frame, es[0])] + rest;
    if SomeNull(sem, frame, es, i) {
      var k :| 0 <= k < |es| && PAt(all[k], i).Null?;
      assert k > 0 ==> rest[k - 1] == all[k];
    }
    if PAt(PEval(sem, frame, es[0]), i).Null? {
      assert PAt(all[0], i).Null?;
    }
    if SomeNull(sem, frame, es[1..], i) {
      var k :| 0 <= k < |es| - 1 && PAt(rest[k], i).Null?;
      assert all[k + 1] == rest[k];
    }
  }

  /** A scan has one operand; a shift and a logarithm have one and a literal. */
  lemma OneOperand(frame: Frame, e: Expr)
    requires e.Function? && Chain(frame, e) && (e.fn.ShiftFn? || e.fn.LogFn? || e.fn.Cumulative?)
    ensures e.args != [] && Chain(frame, e.args[0]) && Reads(e) == Reads(e.args[0])
    ensures UnshiftedAll(e.args) <==> Unshifted(e.args[0])
  {
    var args := e.args;
    hide ShiftOffset, LogOp;
    if e.fn.Cumulative? {
      OnlyOne(args);
    } else {
      ParameterIsLiteral(e);
      OneAndLiteral(args);
    }
    FirstParts(args);
  }

  lemma FirstParts(args: seq<Expr>)
    requires args != []
    ensures SupportedAll(args) ==> Supported(args[0])
    ensures PlainParametersAll(args) ==> PlainParameters(args[0])
    ensures StraightAll(args) ==> Straight(args[0])
  {
  }

  lemma OnlyOne(args: seq<Expr>)
    requires |args| == 1
    ensures ReadsAll(args) == Reads(args[0]) && (UnshiftedAll(args) <==> Unshifted(args[0]))
  {
    hide Reads, Unshifted;
    assert args[1..] == [];
    assert ReadsAll(args[1..]) == {};
  }

  lemma OneAndLiteral(args: seq<Expr>)
    requires |args| == 2 && args[1].Literal?
    ensures UnshiftedAll(args) <==> Unshifted(args[0])
  {
    assert args[1..] == [args[1]] && args[1..][1..] == [];
    assert UnshiftedAll(args[1..]);
  }

  /** Conditions and opaque nodes are not in a chain. */
  lemma ChainShape(frame: Frame, e: Expr)
    requires Chain(frame, e)
    ensures e.Column? || e.Literal? || e.Binary? || e.Cast? || e.Function?
  {
  }

  lemma ManyOperands(frame: Frame, e: Expr)
    requires e.Function? && Chain(frame, e) && !e.fn.ShiftFn? && !e.fn.LogFn? && !e.fn.Cumulative?
    ensures e.fn.PowFn? || e.fn.Mapped?
    ensures Chains(frame, e.args) && Reads(e) == ReadsAll(e.args) && (Unshifted(e) <==> UnshiftedAll(e.args))
  {
  }

  // ----- a positive shift, and a null column -----

  /** A chain with a positive shift is null at its first row. */
  lemma {:induction false} ShiftedHeadIsNull(sem: Sem, frame: Frame, e: Expr)
    requires Chain(frame, e) && frame.n > 0 && !Unshifted(e)
    ensures PAt(PEval(sem, frame, e), 0).Null?
    decreases e
  {
    hide PEval, Chain, Chains;
    match e
    case Binary(_, l, r) =>
      BinaryParts(frame, e);
      BinaryAt(sem, frame, e, 0);
      if !Unshifted(l) {
        ShiftedHeadIsNull(sem, frame, l);
      } else {
        ShiftedHeadIsNull(sem, frame, r);
      }
    case Cast(_, arg) =>
      CastPart(frame, e);
      CastAt(sem, frame, e, 0);
      ShiftedHeadIsNull(sem, frame, arg);
    case Function(fn, args) => ShiftedFunctionHead(sem, frame, e);
    case _ => ChainShape(frame, e);
  }

  lemma BinaryParts(frame: Frame, e: Expr)
    requires e.Binary? && Chain(frame, e)
    ensures Chain(frame, e.left) && Chain(frame, e.right)
  {
  }

  lemma CastPart(frame: Frame, e: Expr)
    requires e.Cast? && Chain(frame, e)
    ensures Chain(frame, e.arg)
  {
  }

  lemma ShiftValue(sem: Sem, frame: Frame, e: Expr)
    requires e.Function? && e.fn.ShiftFn? && e.args != []
    ensures PEval(sem, frame, e) == PShift(PEval(sem, frame, e.args[0]), Offset(e.args))
  {
  }

  lemma ScanValue(sem: Sem, frame: Frame, e: Expr)
    requires e.Function? && e.fn.Cumulative? && e.args != []
    ensures PEval(sem, frame, e) == PScan(sem, e.fn.scan, PEval(sem, frame, e.args[0]))
  {
  }

  lemma ChainSupported(frame: Frame, e: Expr)
    requires Chain(frame, e)
    ensures Supported(e)
  {
  }

  lemma {:induction false} ShiftedFunctionHead(sem: Sem, frame: Frame, e: Expr)
    requires e.Function? && Chain(frame, e) && frame.n > 0 && !Unshifted(e)
    ensures PAt(PEval(sem, frame, e), 0).Null?
    decreases e, 0
  {
    hide PEval, Chain, Chains, PScan;
    var fn, args := e.fn, e.args;
    if fn.ShiftFn? || fn.LogFn? || fn.Cumulative? {
      OneOperand(frame, e);
      if !Unshifted(args[0]) {
        ShiftedHeadIsNull(sem, frame, args[0]);
      }
      if fn.ShiftFn? {
        ShiftValue(sem, frame, e);
      } else if fn.Cumulative? {
        ScanValue(sem, frame, e);
        ScanAtNull(sem, fn.scan, PEval(sem, frame, args[0]), 0);
      } else {
        ChainSupported(frame, e);
        FunctionAt(sem, frame, e, 0);
      }
    } else {
      ManyOperands(frame, e);
      ChainSupported(frame, e);
      FunctionAt(sem, frame, e, 0);
      ShiftedHeads(sem, frame, args);
    }
  }

  lemma {:induction false} ShiftedHeads(sem: Sem, frame: Frame, es: seq<Expr>)
    requires Chains(frame, es) && frame.n > 0 && !UnshiftedAll(es)
    ensures SomeNull(sem, frame, es, 0)
    decreases es, 0
  {
    hide PEval, SomeNull;
    SomeNullCons(sem, frame, es, 0);
    if !Unshifted(es[0]) {
      ShiftedHeadIsNull(sem, frame, es[0]);
    } else {
      ShiftedHeads(sem, frame, es[1..]);
    }
  }

  /** Without positive shifts a null of a column read is a null of the chain, in the same row. */
  lemma {:induction false} NullIsKept(sem: Sem, frame: Frame, e: Expr, c: string, i: int)
    requires Chain(frame, e) && Unshifted(e) && c in Reads(e) && 0 <= i < frame.n && frame.col(c)[i] == Null
    ensures PAt(PEval(sem, frame, e), i).Null?
    decreases e
  {
    hide PEval, Chain, Chains, PScan;
    match e
    case Column(_, _) => ColumnAt(sem, frame, e, i);
    case Binary(_, l, r) =>
      BinaryParts(frame, e);
      BinaryAt(sem, frame, e, i);
      if c in Reads(l) {
        NullIsKept(sem, frame, l, c, i);
      } else {
        NullIsKept(sem, frame, r, c, i);
      }
    case Cast(_, arg) =>
      CastPart(frame, e);
      CastAt(sem, frame, e, i);
      NullIsKept(sem, frame, arg, c, i);
    case Function(fn, args) =>
      if fn.ShiftFn? || fn.LogFn? || fn.Cumulative? {
        OneOperand(frame, e);
        NullIsKept(sem, frame, args[0], c, i);
        if fn.ShiftFn? {
          ShiftValue(sem, frame, e);
        } else if fn.Cumulative? {
          ScanValue(sem, frame, e);
          ScanAtNull(sem, fn.scan, PEval(sem, frame, args[0]), i);
        } else {
          ChainSupported(frame, e);
          FunctionAt(sem, frame, e, i);
        }
      } else {
        ManyOperands(frame, e);
        ChainSupported(frame, e);
        FunctionAt(sem, frame, e, i);
        NullsAreKept(sem, frame, args, c, i);
      }
    case _ => ChainShape(frame, e);
  }

  lemma ColumnAt(sem: Sem, frame: Frame, e: Expr, i: int)
    requires e.Column? && Chain(frame, e) && 0 <= i < frame.n
    ensures PAt(PEval(sem, frame, e), i) == frame.col(e.name)[i]
  {
  }

  lemma {:induction false} NullsAreKept(sem: Sem, frame: Frame, es: seq<Expr>, c: string, i: int)
    requires Chains(frame, es) && UnshiftedAll(es) && c in ReadsAll(es) && 0 <= i < frame.n && frame.col(c)[i] == Null
    ensures SomeNull(sem, frame, es, i)
    decreases es, 0
  {
    hide PEval, SomeNull;
    SomeNullCons(sem, frame, es, i);
    if c in Reads(es[0]) {
      NullIsKept(sem, frame, es[0], c, i);
    } else {
      NullsAreKept(sem, frame, es[1..], c, i);
    }
  }

  // ----- exactly which rows -----

  /** A chain has one value per row exactly when it reads a column. */
  ghost predicate Shaped(frame: Frame, p: PArr, cols: set<string>) {
    (p.PRows? <==> cols != {}) && (p.PRows? ==> |p.cells| == frame.n)
  }

  lemma ElementwiseShaped(frame: Frame, f: seq<PCell> -> PCell, args: seq<PArr>)
    ensures PElementwise(frame.n, f, args).PRows? <==> AnyPRows(args)
    ensures PElementwise(frame.n, f, args).PRows? ==> |PElementwise(frame.n, f, args).cells| == frame.n
  {
  }

  lemma {:induction false} ChainRows(sem: Sem, frame: Frame, e: Expr)
    requires Chain(frame, e)
    ensures Shaped(frame, PEval(sem, frame, e), Reads(e))
    decreases e
  {
    hide Chain, Chains, PElementwise, PScan, PShift, Lifted, PBin;
    match e
    case Column(_, _) => ColumnRows(sem, frame, e);
    case Literal(_, _) =>
    case Binary(op, l, r) =>
      BinaryParts(frame, e);
      ChainRows(sem, frame, l);
      ChainRows(sem, frame, r);
      BinaryRows(sem, frame, e);
    case Cast(_, arg) =>
      CastPart(frame, e);
      ChainRows(sem, frame, arg);
      var args := [PEval(sem, frame, arg)];
      ElementwiseShaped(frame, Lifted(Applied(sem, CastF32)), args);
      assert AnyPRows(args) <==> args[0].PRows?;
    case Function(fn, args) => FunctionRows(sem, frame, e);
    case _ => ChainShape(frame, e);
  }

  lemma BinaryRows(sem: Sem, frame: Frame, e: Expr)
    requires e.Binary? && Chain(frame, e)
    requires Shaped(frame, PEval(sem, frame, e.left), Reads(e.left)) && Shaped(frame, PEval(sem, frame, e.right), Reads(e.right))
    ensures Shaped(frame, PEval(sem, frame, e), Reads(e))
  {
    hide PElementwise, PBin;
    var args := [PEval(sem, frame, e.left), PEval(sem, frame, e.right)];
    ElementwiseShaped(frame, PBin(sem, BinOpId(e.op).value), args);
    assert AnyPRows(args) <==> args[0].PRows? || args[1].PRows?;
  }

  lemma ColumnRows(sem: Sem, frame: Frame, e: Expr)
    requires e.Column? && Chain(frame, e)
    ensures Shaped(frame, PEval(sem, frame, e), Reads(e))
  {
  }

  lemma {:induction false} FunctionRows(sem: Sem, frame: Frame, e: Expr)
    requires e.Function? && Chain(frame, e)
    ensures Shaped(frame, PEval(sem, frame, e), Reads(e))
    decreases e, 0
  {
    hide Chain, Chains, PElementwise, Lifted, ShiftOffset, Reads;
    var fn, args := e.fn, e.args;
    if fn.ShiftFn? || fn.LogFn? || fn.Cumulative? {
      OneOperand(frame, e);
      ChainRows(sem, frame, args[0]);
      var one := [PEval(sem, frame, args[0])];
      assert AnyPRows(one) <==> one[0].PRows?;
      if fn.LogFn? {
        ElementwiseShaped(frame, Lifted(LogTo(sem, LogBase(args))), one);
      }
    } else {
      ManyOperands(frame, e);
      AllRows(sem, frame, args);
      match fn
      case PowFn => ElementwiseShaped(frame, Lifted(Applied(sem, Pow)), PEvalAll(sem, frame, args));
      case Mapped(op, d) => ElementwiseShaped(frame, Lifted(MappedTo(sem, op, d)), PEvalAll(sem, frame, args));
      case _ => ArgumentsThere(frame, e);
    }
    ArgumentsThere(frame, e);
  }

  lemma ArgumentsThere(frame: Frame, e: Expr)
    requires e.Function? && Chain(frame, e)
    ensures e.args != [] && !e.fn.UnknownFn?
  {
  }

  lemma {:induction false} AllRows(sem: Sem, frame: Frame, es: seq<Expr>)
    requires Chains(frame, es)
    ensures AnyPRows(PEvalAll(sem, frame, es)) <==> ReadsAll(es) != {}
    decreases es, 0
  {
    hide PEval;
    if es != [] {
      ChainRows(sem, frame, es[0]);
      AllRows(sem, frame, es[1..]);
      var all, rest := PEvalAll(sem, frame, es), PEvalAll(sem, frame, es[1..]);
      assert all == [PEval(sem, frame, es[0])] + rest;
      if AnyPRows(all) {
        var k :| 0 <= k < |all| && all[k].PRows?;
        assert k > 0 ==> rest[k - 1].PRows?;
      }
      if all[0].PRows? {
        assert AnyPRows(all);
      }
      if AnyPRows(rest) {
        var k :| 0 <= k < |rest| && rest[k].PRows?;
        assert all[k + 1].PRows?;
      }
    }
  }

  function Larger(a: nat, b: nat): nat {
    if a < b then b else a
  }

  /** The largest cumulative shift of a chain over `n` rows. A shifted literal is null throughout. */
  function Head(e: Expr, n: nat): nat
    decreases e
  {
    match e
    case Binary(_, l, r) => Larger(Head(l, n), Head(r, n))
    case Cast(_, arg) => Head(arg, n)
    case Function(fn, args) =>
      if fn.ShiftFn? && args != [] then
        if Reads(args[0]) != {} then Offset(args) + Head(args[0], n)
        else if Offset(args) > 0 then n
        else Head(args[0], n)
      else HeadAll(args, n)
    case _ => 0
  }

  function HeadAll(es: seq<Expr>, n: nat): nat
    decreases es
  {
    if es == [] then 0 else Larger(Head(es[0], n), HeadAll(es[1..], n))
  }

  lemma HeadOfOne(frame: Frame, e: Expr, n: nat)
    requires e.Function? && Chain(frame, e) && (e.fn.LogFn? || e.fn.Cumulative?)
    ensures Head(e, n) == Head(e.args[0], n)
  {
    var args := e.args;
    hide LogOp;
    if e.fn.Cumulative? {
      assert |args| == 1 && args[1..] == [];
      assert HeadAll(args[1..], n) == 0;
    } else {
      ParameterIsLiteral(e);
      assert args[1..] == [args[1]] && args[1..][1..] == [];
      assert HeadAll(args[1..][1..], n) == 0 && Head(args[1], n) == 0;
    }
    assert HeadAll(args, n) == Larger(Head(args[0], n), HeadAll(args[1..], n));
  }

  /** Over null-free columns a chain is null at a row exactly when the row is below its head. */
  lemma {:induction false} NullsAreTheHead(sem: Sem, frame: Frame, e: Expr, i: int)
    requires Chain(frame, e) && NullFree(frame, Reads(e)) && 0 <= i < frame.n
    ensures PAt(PEval(sem, frame, e), i).Null? <==> i < Head(e, frame.n)
    decreases e
  {
    hide Chain, Chains, PEval, PScan, PShift;
    match e
    case Column(_, name) =>
      ColumnAt(sem, frame, e, i);
      CellInColumn(frame, e, i);
    case Literal(_, _) => LiteralAt(sem, frame, e, i);
    case Binary(_, l, r) =>
      BinaryParts(frame, e);
      BinaryAt(sem, frame, e, i);
      NullsAreTheHead(sem, frame, l, i);
      NullsAreTheHead(sem, frame, r, i);
    case Cast(_, arg) =>
      CastPart(frame, e);
      CastAt(sem, frame, e, i);
      NullsAreTheHead(sem, frame, arg, i);
    case Function(fn, args) =>
      if fn.ShiftFn? {
        ShiftedNulls(sem, frame, e, i);
      } else if fn.LogFn? || fn.Cumulative? {
        OneOperand(frame, e);
        HeadOfOne(frame, e, frame.n);
        NullsAreTheHead(sem, frame, args[0], i);
        if fn.Cumulative? {
          ScanValue(sem, frame, e);
          ScanAtNull(sem, fn.scan, PEval(sem, frame, args[0]), i);
        } else {
          ChainSupported(frame, e);
          FunctionAt(sem, frame, e, i);
        }
      } else {
        ManyOperands(frame, e);
        ChainSupported(frame, e);
        FunctionAt(sem, frame, e, i);
        AllNullsAreTheHead(sem, frame, args, i);
      }
    case _ => ChainShape(frame, e);
  }

  lemma LiteralAt(sem: Sem, frame: Frame, e: Expr, i: int)
    requires e.Literal? && Chain(frame, e)
    ensures PAt(PEval(sem, frame, e), i).Val?
  {
  }

  lemma CellInColumn(frame: Frame, e: Expr, i: int)
    requires e.Column? && Chain(frame, e) && NullFree(frame, Reads(e)) && 0 <= i < frame.n
    ensures frame.col(e.name)[i].Val?
  {
    assert e.name in Reads(e) && frame.col(e.name)[i] in frame.col(e.name);
  }

  lemma {:induction false} ShiftedNulls(sem: Sem, frame: Frame, e: Expr, i: int)
    requires e.Function? && e.fn.ShiftFn? && Chain(frame, e) && NullFree(frame, Reads(e)) && 0 <= i < frame.n
    ensures PAt(PEval(sem, frame, e), i).Null? <==> i < Head(e, frame.n)
    decreases e, 0
  {
    hide Chain, Chains, PEval, ShiftOffset;
    OneOperand(frame, e);
    ShiftValue(sem, frame, e);
    var a, w := e.args[0], Offset(e.args);
    ChainRows(sem, frame, a);
    if Reads(a) == {} || i < w {
      NullsAreTheHead(sem, frame, a, i);
    } else {
      NullsAreTheHead(sem, frame, a, i - w);
    }
  }

  lemma {:induction false} AllNullsAreTheHead(sem: Sem, frame: Frame, es: seq<Expr>, i: int)
    requires Chains(frame, es) && NullFree(frame, ReadsAll(es)) && 0 <= i < frame.n
    ensures SomeNull(sem, frame, es, i) <==> i < HeadAll(es, frame.n)
    decreases es, 0
  {
    hide PEval, SomeNull;
    if es == [] {
      NoneNull(sem, frame, i);
    } else {
      SomeNullCons(sem, frame, es, i);
      NullsAreTheHead(sem, frame, es[0], i);
      AllNullsAreTheHead(sem, frame, es[1..], i);
    }
  }

  lemma NoneNull(sem: Sem, frame: Frame, i: int)
    ensures !SomeNull(sem, frame, [], i)
  {
  }

  /** The head is empty exactly when no shift is positive. */
  lemma {:induction false} NoHead(frame: Frame, e: Expr, n: nat)
    requires Chain(frame, e) && n > 0
    ensures Head(e, n) == 0 <==> Unshifted(e)
    decreases e
  {
    hide Chain, Chains;
    match e
    case Binary(_, l, r) =>
      BinaryParts(frame, e);
      NoHead(frame, l, n);
      NoHead(frame, r, n);
    case Cast(_, arg) =>
      CastPart(frame, e);
      NoHead(frame, arg, n);
    case Function(fn, args) =>
      if fn.ShiftFn? || fn.LogFn? || fn.Cumulative? {
        OneOperand(frame, e);
        NoHead(frame, args[0], n);
        if !fn.ShiftFn? {
          HeadOfOne(frame, e, n);
        }
      } else {
        ManyOperands(frame, e);
        NoHeads(frame, args, n);
      }
    case _ => ChainShape(frame, e);
  }

  lemma {:induction false} NoHeads(frame: Frame, es: seq<Expr>, n: nat)
    requires Chains(frame, es) && n > 0
    ensures HeadAll(es, n) == 0 <==> UnshiftedAll(es)
    decreases es, 0
  {
    if es != [] {
      NoHead(frame, es[0], n);
      NoHeads(frame, es[1..], n);
    }
  }

  ghost predicate NoNulls(sem: Sem, frame: Frame, e: Expr) {
    forall i | 0 <= i < frame.n :: PAt(PEval(sem, frame, e), i).Val?
  }

  /** A chain has no null at any row if and only if there are no rows, or no shift in it is positive and
      the columns it reads have no nulls: what can be looked up before anything is computed. */
  lemma NullFreeExactly(sem: Sem, frame: Frame, e: Expr)
    requires Chain(frame, e)
    ensures NoNulls(sem, frame, e) <==> frame.n == 0 || (Unshifted(e) && NullFree(frame, Reads(e)))
  {
    hide PEval, Reads, Unshifted;
    if frame.n > 0 {
      if !Unshifted(e) {
        ShiftedHeadIsNull(sem, frame, e);
      } else if NullFree(frame, Reads(e)) {
        NoHead(frame, e, frame.n);
        forall i | 0 <= i < frame.n
          ensures PAt(PEval(sem, frame, e), i).Val?
        {
          NullsAreTheHead(sem, frame, e, i);
        }
      } else {
        var c :| c in Reads(e) && Null in frame.col(c);
        var i :| 0 <= i < |frame.col(c)| && frame.col(c)[i] == Null;
        NullIsKept(sem, frame, e, c, i);
      }
    }
  }

  // ----- a shifted column -----

  /** `x.shift(w)`. */
  function ShiftOf(x: string, w: nat): Expr {
    Function(ShiftFn, [Column(0, x), Literal(1, IntLit(w))])
  }

  lemma ShiftedOperand(sem: Sem, frame: Frame, x: string, w: nat)
    ensures Offset(ShiftOf(x, w).args) == w
    ensures PEval(sem, frame, ShiftOf(x, w)) == PShift(PRows(frame.col(x)), w)
    ensures DEval(FrameEnv(sem, frame), ShiftOf(x, w)) == ShiftArr(Rows(StageCells(frame.col(x))), w)
  {
    hide PShift, ShiftArr, StageCells;
    var e := ShiftOf(x, w);
    assert ShiftOffset(e.args) == Some(w);
    assert PEval(sem, frame, e.args[0]) == PRows(frame.col(x));
    assert DEval(FrameEnv(sem, frame), e.args[0]) == Rows(StageCells(frame.col(x)));
  }

  /** A null-free column of numbers. */
  ghost predicate RealColumn(frame: Frame, x: string, xs: seq<real>) {
    FrameShape(frame) && |xs| == frame.n && forall i | 0 <= i < frame.n :: frame.col(x)[i] == Val(Num(xs[i]))
  }

  /** It is an accepted chain that reads one column, with a head of `w` rows. */
  lemma ShiftOfIsChain(x: string, w: nat)
    ensures Supported(ShiftOf(x, w)) && PlainParameters(ShiftOf(x, w)) && Straight(ShiftOf(x, w))
    ensures Reads(ShiftOf(x, w)) == {x} && (Unshifted(ShiftOf(x, w)) <==> w == 0) && !NoShift(ShiftOf(x, w))
  {
    var e := ShiftOf(x, w);
    var args := e.args;
    assert ShiftOffset(args) == Some(w);
    assert args[1..] == [args[1]] && args[1..][1..] == [];
    assert Supported(args[0]) && PlainParameters(args[0]) && Straight(args[0]) && Unshifted(args[0]);
    assert PlainParameters(args[1]) && Straight(args[1]) && Unshifted(args[1]);
    ArgumentPair(args[0], args[1]);
    assert args == [args[0], args[1]];
    assert Reads(args[0]) == {x};
    hide PlainParametersAll, StraightAll, UnshiftedAll;
  }

  lemma ArgumentPair(a: Expr, b: Expr)
    ensures PlainParametersAll([a, b]) <==> PlainParameters(a) && PlainParameters(b)
    ensures StraightAll([a, b]) <==> Straight(a) && Straight(b)
    ensures UnshiftedAll([a, b]) <==> Unshifted(a) && Unshifted(b)
  {
    hide PlainParameters, Straight, Unshifted;
    assert [a, b][1..] == [b] && [b][1..] == [];
    assert PlainParametersAll([b]) <==> PlainParameters(b);
    assert StraightAll([b]) <==> Straight(b);
    assert UnshiftedAll([b]) <==> Unshifted(b);
  }

  /** The arena that shows its leaves. */
  ghost function ShiftView(x: string, w: nat): nat -> Leaf {
    (id: nat) => if id == 0 then ColLeaf(x) else LitLeaf(w as real)
  }

  lemma ShiftIsViewed(x: string, w: nat)
    ensures Viewed(ShiftView(x, w), ShiftOf(x, w))
  {
    var view, args := ShiftView(x, w), ShiftOf(x, w).args;
    assert args[1..] == [args[1]] && args[1..][1..] == [];
    assert Viewed(view, args[0]) && Viewed(view, args[1]);
    assert ViewedAll(view, args[1..]);
  }
}

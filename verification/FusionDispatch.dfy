/** Routing and running one fused `with_columns` binding over a nullable frame. */
module FusionDispatch {
  import opened FusionAcceptance
  import opened FusionAgreement
  import opened FusionAnalyzer
  import opened FusionCompile
  import opened FusionHeads
  import opened FusionIr
  import opened FusionMask
  import opened FusionNullSafety
  import opened FusionNulls
  import opened FusionSound
  import opened FusionValidity
  import opened FusionValiditySound
  import opened Options

  // ----- the side condition -----

  /** What the analyzer does not check. Every condition outside other conditions decides
      as Polars decides, and no scan runs over a positive shift, except a running sum over
      shifts and multiples of them. */
  predicate Trusted(clean: bool, e: Expr)
    decreases e
  {
    match e
    case Binary(_, l, r) => Trusted(clean, l) && Trusted(clean, r)
    case Cast(_, arg) => Trusted(clean, arg)
    case Function(fn, args) =>
      TrustedAll(clean, args) &&
      (fn.Cumulative? ==> UnshiftedAll(args) || (args != [] && fn.scan.CumSum? && ZeroFilled(args[0])))
    case Ternary(c, t, f) => Decides(clean, c) && Trusted(clean, t) && Trusted(clean, f)
    case _ => true
  }

  predicate TrustedAll(clean: bool, es: seq<Expr>)
    decreases es
  {
    es == [] || (Trusted(clean, es[0]) && TrustedAll(clean, es[1..]))
  }

  lemma {:induction false} TrustedIsSafe(clean: bool, e: Expr)
    requires Maskable(clean, e) && Trusted(clean, e) && Supported(e)
    ensures Safe(clean, e)
    decreases e
  {
    hide Decides, ShiftOffset, LogOp;
    match e
    case Binary(_, l, r) =>
      TrustedIsSafe(clean, l);
      TrustedIsSafe(clean, r);
    case Cast(_, arg) => TrustedIsSafe(clean, arg);
    case Function(fn, args) =>
      if fn.ShiftFn? || fn.LogFn? {
        TrustedIsSafe(clean, args[0]);
      } else if !fn.Cumulative? {
        TrustedAllSafe(clean, args);
      }
    case Ternary(_, t, f) =>
      TrustedIsSafe(clean, t);
      TrustedIsSafe(clean, f);
    case _ =>
  }

  lemma {:induction false} TrustedAllSafe(clean: bool, es: seq<Expr>)
    requires MaskableAll(clean, es) && TrustedAll(clean, es) && SupportedAll(es)
    ensures SafeAll(clean, es)
    decreases es
  {
    if es != [] {
      TrustedIsSafe(clean, es[0]);
      TrustedAllSafe(clean, es[1..]);
    }
  }

  lemma {:induction false} CleanReads(frame: Frame, e: Expr)
    requires Supported(e) && forall c | c in Reads(e) :: Null !in frame.col(c)
    ensures ColumnsClean(frame, e)
    decreases e
  {
    match e
    case Binary(_, l, r) =>
      CleanReads(frame, l);
      CleanReads(frame, r);
    case Cast(_, arg) => CleanReads(frame, arg);
    case Function(fn, args) =>
      if fn.ShiftFn? || fn.LogFn? {
        ParameterIsLiteral(e);
        CleanReads(frame, args[0]);
        CleanPair(frame, args);
      } else {
        CleanReadsAll(frame, args);
      }
    case Ternary(c, t, f) =>
      CleanReads(frame, c);
      CleanReads(frame, t);
      CleanReads(frame, f);
    case _ =>
  }

  lemma {:induction false} CleanReadsAll(frame: Frame, es: seq<Expr>)
    requires SupportedAll(es) && forall c | c in ReadsAll(es) :: Null !in frame.col(c)
    ensures ColumnsCleanAll(frame, es)
    decreases es
  {
    if es != [] {
      CleanReads(frame, es[0]);
      CleanReadsAll(frame, es[1..]);
    }
  }

  lemma CleanPair(frame: Frame, args: seq<Expr>)
    requires |args| == 2 && args[1].Literal? && ColumnsClean(frame, args[0])
    ensures ColumnsCleanAll(frame, args)
  {
    assert args[1..] == [args[1]] && args[1..][1..] == [];
    assert ColumnsCleanAll(frame, args[1..]);
  }

  /** An expression that reads a column has one value per row, on the device and in its mask. */
  lemma {:induction false} ReadingGivesRows(sem: Sem, frame: Frame, e: Expr)
    requires Supported(e) && OneInputScans(e) && Reads(e) != {}
    ensures DEval(FrameEnv(sem, frame), e).Rows? && BEval(sem, frame, e).BRows?
    decreases e, 1
  {
    hide OneInputScansAll, SupportedAll, BAndAll;
    var env := FrameEnv(sem, frame);
    match e
    case Column(_, _) =>
    case Binary(_, l, r) =>
      var ds, bs := [DEval(env, l), DEval(env, r)], [BEval(sem, frame, l), BEval(sem, frame, r)];
      if Reads(l) != {} {
        ReadingGivesRows(sem, frame, l);
        assert ds[0].Rows? && bs[0].BRows?;
      } else {
        ReadingGivesRows(sem, frame, r);
        assert ds[1].Rows? && bs[1].BRows?;
      }
      AndKeepsRows(frame.n, BScalar(true), bs);
    case Cast(_, arg) =>
      ReadingGivesRows(sem, frame, arg);
      assert [DEval(env, arg)][0].Rows?;
    case Function(fn, args) => FunctionRows(sem, frame, e);
    case Ternary(c, t, f) =>
      var ds := [DEval(env, c), DEval(env, t), DEval(env, f)];
      if Reads(c) != {} {
        ReadingGivesRows(sem, frame, c);
        assert ds[0].Rows?;
      } else if Reads(t) != {} {
        ReadingGivesRows(sem, frame, t);
        assert ds[1].Rows?;
      } else {
        ReadingGivesRows(sem, frame, f);
        assert ds[2].Rows?;
      }
  }

  lemma {:induction false} FunctionRows(sem: Sem, frame: Frame, e: Expr)
    requires e.Function? && Supported(e) && OneInputScans(e) && Reads(e) != {}
    ensures DEval(FrameEnv(sem, frame), e).Rows? && BEval(sem, frame, e).BRows?
    decreases e, 0
  {
    hide OneInputScansAll, SupportedAll, BAndAll, ReadsAll;
    var env, fn, args := FrameEnv(sem, frame), e.fn, e.args;
    if fn.ShiftFn? || fn.LogFn? {
      ParameterIsLiteral(e);
      FirstScans(args);
      ReadingGivesRows(sem, frame, args[0]);
      assert [DEval(env, args[0])][0].Rows?;
      assert BEvalAll(sem, frame, args)[0] == BEval(sem, frame, args[0]);
    } else {
      AllScans(e);
      ReadingGivesRowsAll(sem, frame, args);
    }
    if !fn.ShiftFn? {
      AndKeepsRows(frame.n, BScalar(true), BEvalAll(sem, frame, args));
    }
  }

  lemma FirstScans(args: seq<Expr>)
    requires args != [] && OneInputScansAll(args)
    ensures OneInputScans(args[0])
  {
  }

  lemma AllScans(e: Expr)
    requires e.Function? && Supported(e) && OneInputScans(e) && !e.fn.ShiftFn? && !e.fn.LogFn?
    ensures SupportedAll(e.args) && OneInputScansAll(e.args)
  {
  }

  lemma {:induction false} ReadingGivesRowsAll(sem: Sem, frame: Frame, es: seq<Expr>)
    requires SupportedAll(es) && OneInputScansAll(es) && ReadsAll(es) != {}
    ensures AnyRows(DEvalAll(FrameEnv(sem, frame), es)) && AnyBRows(BEvalAll(sem, frame, es))
    ensures |es| == 1 ==> DEval(FrameEnv(sem, frame), es[0]).Rows?
    decreases es, 0
  {
    var ds, bs := DEvalAll(FrameEnv(sem, frame), es), BEvalAll(sem, frame, es);
    if Reads(es[0]) != {} {
      ReadingGivesRows(sem, frame, es[0]);
      assert ds[0].Rows? && bs[0].BRows?;
    } else {
      ReadingGivesRowsAll(sem, frame, es[1..]);
      var ds', bs' := DEvalAll(FrameEnv(sem, frame), es[1..]), BEvalAll(sem, frame, es[1..]);
      var k :| 0 <= k < |ds'| && ds'[k].Rows?;
      assert ds[k + 1] == ds'[k];
      var j :| 0 <= j < |bs'| && bs'[j].BRows?;
      assert bs[j + 1] == bs'[j];
    }
  }

  lemma {:induction false} AndKeepsRows(n: nat, acc: BArr, bs: seq<BArr>)
    requires acc.BRows? || AnyBRows(bs)
    ensures BAndAll(n, acc, bs).BRows?
    decreases |bs|
  {
    if bs != [] {
      if !acc.BRows? && !bs[0].BRows? {
        var k :| 0 <= k < |bs| && bs[k].BRows?;
        assert bs[1..][k - 1] == bs[k];
      }
      AndKeepsRows(n, BAnd(n, acc, bs[0]), bs[1..]);
    }
  }

  // ----- the elementwise mode -----

  lemma {:induction false} ElementwiseIsSafe(e: Expr)
    requires NullMode(e) == Some(false) && Supported(e)
    ensures Safe(false, e)
    decreases e
  {
    match e
    case Binary(_, l, r) =>
      ElementwiseIsSafe(l);
      ElementwiseIsSafe(r);
    case Cast(_, arg) => ElementwiseIsSafe(arg);
    case Function(fn, args) =>
      if fn.LogFn? {
        ElementwiseIsSafe(args[0]);
      } else {
        ElementwiseAllSafe(args);
      }
    case _ =>
  }

  lemma {:induction false} ElementwiseAllSafe(es: seq<Expr>)
    requires NullModeAll(es) == Some(false) && SupportedAll(es)
    ensures SafeAll(false, es)
    decreases es
  {
    if es != [] {
      ElementwiseIsSafe(es[0]);
      ElementwiseAllSafe(es[1..]);
    }
  }

  predicate AllValid(frame: Frame, cols: set<string>, i: int) {
    forall c | c in cols :: 0 <= i < |frame.col(c)| && frame.col(c)[i].Val?
  }

  /** In elementwise mode a row is valid exactly when every column read is valid there. */
  lemma {:induction false} ElementwiseValidity(sem: Sem, frame: Frame, e: Expr, i: int)
    requires NullMode(e) == Some(false) && FrameShape(frame) && 0 <= i < frame.n
    ensures BShape(frame.n, BEval(sem, frame, e))
    ensures BAt(BEval(sem, frame, e), i) <==> AllValid(frame, Reads(e), i)
    decreases e
  {
    hide FrameShape, BAndAll;
    match e
    case Column(_, name) => ColumnShape(frame, name);
    case Literal(_, _) =>
    case Binary(_, l, r) =>
      ElementwiseValidity(sem, frame, l, i);
      ElementwiseValidity(sem, frame, r, i);
      var bs := [BEval(sem, frame, l), BEval(sem, frame, r)];
      assert BShapes(frame.n, bs);
      AndAllRows(frame.n, BScalar(true), bs);
      assert BAt(bs[0], i) && BAt(bs[1], i) <==> forall k | 0 <= k < |bs| :: BAt(bs[k], i);
    case Cast(_, arg) => ElementwiseValidity(sem, frame, arg, i);
    case Function(fn, args) =>
      ElementwiseValidityAll(sem, frame, args, i);
      AndAllRows(frame.n, BScalar(true), BEvalAll(sem, frame, args));
  }

  lemma ColumnShape(frame: Frame, name: string)
    requires FrameShape(frame)
    ensures |frame.col(name)| == frame.n
  {
  }

  lemma {:induction false} ElementwiseValidityAll(sem: Sem, frame: Frame, es: seq<Expr>, i: int)
    requires NullModeAll(es) == Some(false) && FrameShape(frame) && 0 <= i < frame.n
    ensures BShapes(frame.n, BEvalAll(sem, frame, es))
    ensures (forall k | 0 <= k < |es| :: BAt(BEvalAll(sem, frame, es)[k], i)) <==> AllValid(frame, ReadsAll(es), i)
    decreases es
  {
    hide FrameShape;
    if es != [] {
      ElementwiseValidity(sem, frame, es[0], i);
      ElementwiseValidityAll(sem, frame, es[1..], i);
      var bs, rest := BEvalAll(sem, frame, es), BEvalAll(sem, frame, es[1..]);
      assert bs == [bs[0]] + rest;
      assert forall k | 0 <= k < |rest| :: rest[k] == bs[k + 1];
      assert forall k | 1 <= k < |bs| :: bs[k] == rest[k - 1];
    }
  }

  // ----- one binding -----

  datatype Route = Unmasked | OrMask | ValidityMask(graph: Graph) | FallBack

  /** The walker's choice; `confirmed` is its finding that the columns staged have no nulls. */
  function RouteBinding(ctx: Ctx, confirmed: bool, cols: set<string>, e: Expr): Route {
    var clean := confirmed || cols == {};
    if clean && NoShift(e) then Unmasked
    else if !clean && NullMode(e) == Some(false) then OrMask
    else if !clean && NullMode(e).None? then FallBack
    else match AnalyzeValidity(ctx, clean, e)
      case Some(g) => ValidityMask(g)
      case None => FallBack
  }

  /** The column Polars would add. */
  function PolarsColumn(sem: Sem, frame: Frame, e: Expr): (col: seq<PCell>)
    ensures |col| == frame.n
  {
    seq(frame.n, i => PAt(PEval(sem, frame, e), i))
  }

  /** The buffer an executor call leaves: all rows, or one cell and what was there before. */
  function Written(buffer: seq<Cell>, a: Arr): (out: seq<Cell>)
    ensures |out| == |buffer|
  {
    match a
    case Scalar(c) => if buffer == [] then [] else buffer[0 := c]
    case Rows(_) => seq(|buffer|, i => At(a, i))
  }

  /** Values under a null mask. */
  function Masked(values: seq<Cell>, isNull: seq<bool>): (col: seq<PCell>)
    requires |values| == |isNull|
    ensures |col| == |values|
  {
    seq(|values|, i requires 0 <= i < |values| => if isNull[i] then Null else Val(values[i]))
  }

  lemma MaskedColumn(sem: Sem, frame: Frame, e: Expr, values: seq<Cell>, isNull: seq<bool>)
    requires Related(Weak, sem, frame, e) && Masks(sem, frame, e) && |values| == |isNull| == frame.n
    requires forall i | 0 <= i < frame.n :: values[i] == At(DEval(FrameEnv(sem, frame), e), i)
    requires forall i | 0 <= i < frame.n :: isNull[i] <==> !BAt(BEval(sem, frame, e), i)
    ensures Masked(values, isNull) == PolarsColumn(sem, frame, e)
  {
    var p := PEval(sem, frame, e);
    forall i | 0 <= i < frame.n
      ensures Masked(values, isNull)[i] == PAt(p, i)
    {
      assert CellRel(Weak, PAt(p, i), values[i]);
    }
  }

  /** `_fused_null_mask`, elementwise: OR the null masks of the staged columns. */
  method OrMasks(ds: seq<Descriptor>, frame: Frame) returns (isNull: seq<bool>)
    requires FrameShape(frame)
    ensures |isNull| == frame.n
    ensures forall i | 0 <= i < frame.n :: isNull[i] <==> !AllValid(frame, StagedColumns(ds), i)
  {
    isNull := seq(frame.n, i => false);
    for k := 0 to |ds|
      invariant |isNull| == frame.n
      invariant forall i | 0 <= i < frame.n :: isNull[i] <==> !AllValid(frame, StagedColumns(ds[..k]), i)
    {
      assert ds[..k + 1] == ds[..k] + [ds[k]];
      StagedAppend(ds[..k], ds[k]);
      if ds[k].ColD? {
        ColumnShape(frame, ds[k].name);
        var cells := frame.col(ds[k].name);
        isNull := seq(frame.n, i requires 0 <= i < frame.n => isNull[i] || cells[i].Null?);
      }
    }
    assert ds[..|ds|] == ds;
  }

  lemma FrameEnvMatches(ctx: Ctx, sem: Sem, frame: Frame)
    requires ctx.gather.None?
    ensures Matches(ctx, FrameEnv(sem, frame))
  {
  }

  /** The device's values of an expression, one per row. */
  function DeviceValues(sem: Sem, frame: Frame, e: Expr): (values: seq<Cell>)
    ensures |values| == frame.n && forall i | 0 <= i < frame.n :: values[i] == At(DEval(FrameEnv(sem, frame), e), i)
  {
    seq(frame.n, i => At(DEval(FrameEnv(sem, frame), e), i))
  }

  /** No row masked. */
  function NoMask(n: nat): (isNull: seq<bool>)
    ensures |isNull| == n && forall i | 0 <= i < n :: !isNull[i]
  {
    seq(n, i => false)
  }

  /** What is assumed of the operators and the data, and of the parameters the lowering drops. */
  ghost predicate Assumed(sem: Sem, frame: Frame, e: Expr) {
    Lawful(sem) && FrameShape(frame) && PlainParameters(e) && Ordinary(sem, frame, e)
  }

  lemma UnmaskedColumn(sem: Sem, frame: Frame, e: Expr)
    requires Assumed(sem, frame, e) && Supported(e) && Unshifted(e) && NullFree(frame, Reads(e))
    ensures Masked(DeviceValues(sem, frame, e), NoMask(frame.n)) == PolarsColumn(sem, frame, e)
  {
    hide Lawful, FrameShape, PlainParameters, Ordinary, Supported, Unshifted, Reads, PEval, DEval, DeviceValues, NoMask;
    CleanReads(frame, e);
    ExactAgrees(sem, frame, e);
    var values := DeviceValues(sem, frame, e);
    forall i | 0 <= i < frame.n
      ensures PAt(PEval(sem, frame, e), i) == Val(values[i])
    {
      assert CellRel(Exact, PAt(PEval(sem, frame, e), i), values[i]);
    }
  }

  /** Without a mask a chain's column is right if and only if there are no rows, or no shift in it is
      positive and the columns it reads have no nulls. */
  lemma UnmaskedExactly(sem: Sem, frame: Frame, e: Expr)
    requires Assumed(sem, frame, e) && Supported(e) && Straight(e)
    ensures Masked(DeviceValues(sem, frame, e), NoMask(frame.n)) == PolarsColumn(sem, frame, e)
       <==> frame.n == 0 || (Unshifted(e) && NullFree(frame, Reads(e)))
  {
    hide Lawful, PlainParameters, Ordinary, Supported, Unshifted, Reads, PEval, DEval, DeviceValues, NoMask, NullFree, Straight,
      FrameShape;
    NullFreeExactly(sem, frame, e);
    var out, col := Masked(DeviceValues(sem, frame, e), NoMask(frame.n)), PolarsColumn(sem, frame, e);
    if out == col {
      forall i | 0 <= i < frame.n
        ensures PAt(PEval(sem, frame, e), i).Val?
      {
        assert out[i] == col[i];
      }
    } else if Unshifted(e) && NullFree(frame, Reads(e)) {
      UnmaskedColumn(sem, frame, e);
    }
  }

  /** Null where some column read is null. */
  function AnyNull(frame: Frame, cols: set<string>): (isNull: seq<bool>)
    ensures |isNull| == frame.n && forall i | 0 <= i < frame.n :: isNull[i] <==> !AllValid(frame, cols, i)
  {
    seq(frame.n, i => !AllValid(frame, cols, i))
  }

  lemma OrColumn(sem: Sem, frame: Frame, e: Expr)
    requires Assumed(sem, frame, e) && Supported(e) && NullMode(e) == Some(false)
    ensures Masked(DeviceValues(sem, frame, e), AnyNull(frame, Reads(e))) == PolarsColumn(sem, frame, e)
  {
    hide Lawful, FrameShape, PlainParameters, Ordinary, Supported, Reads, PEval, DEval, BEval, AllValid, NullMode,
      Masks, Related, Safe, Masked, PolarsColumn, DeviceValues, AnyNull;
    ElementwiseIsSafe(e);
    SafeAgrees(sem, frame, false, e);
    MaskAgrees(sem, frame, false, e);
    var isNull := AnyNull(frame, Reads(e));
    forall i | 0 <= i < frame.n
      ensures isNull[i] <==> !BAt(BEval(sem, frame, e), i)
    {
      ElementwiseValidity(sem, frame, e, i);
    }
    MaskedColumn(sem, frame, e, DeviceValues(sem, frame, e), isNull);
  }

  /** A row is null where the mask falls below one half. */
  function NullWhere(mask: seq<Cell>): (isNull: seq<bool>)
    ensures |isNull| == |mask|
  {
    seq(|mask|, i requires 0 <= i < |mask| => mask[i].Num? && mask[i].x < 0.5)
  }

  lemma FlagsAreRead(spare: seq<Cell>, b: BArr)
    requires b.BRows? && |b.bs| == |spare|
    ensures forall i | 0 <= i < |spare| :: NullWhere(Written(spare, ToArr(b)))[i] <==> !BAt(b, i)
  {
  }

  lemma ValidityColumn(sem: Sem, frame: Frame, clean: bool, e: Expr, spare: seq<Cell>)
    requires Assumed(sem, frame, e) && Supported(e) && Maskable(clean, e) && Trusted(clean, e)
    requires (clean ==> NullFree(frame, Reads(e))) && Reads(e) != {}
    requires |spare| == frame.n && BShape(frame.n, BEval(sem, frame, e))
    ensures Masked(DeviceValues(sem, frame, e), NullWhere(Written(spare, ToArr(BEval(sem, frame, e))))) == PolarsColumn(sem, frame, e)
  {
    hide Lawful, FrameShape, PlainParameters, Ordinary, Supported, Reads, PEval, DEval, BEval, Maskable, Trusted,
      Masks, Related, Safe, Masked, PolarsColumn, NullWhere, Written, ToArr, DeviceValues;
    TrustedIsSafe(clean, e);
    if clean {
      CleanReads(frame, e);
    }
    SafeAgrees(sem, frame, clean, e);
    MaskAgrees(sem, frame, clean, e);
    PlainHasOneInputScans(e);
    ReadingGivesRows(sem, frame, e);
    FlagsAreRead(spare, BEval(sem, frame, e));
    MaskedColumn(sem, frame, e, DeviceValues(sem, frame, e), NullWhere(Written(spare, ToArr(BEval(sem, frame, e)))));
  }

  lemma RoutedIsMaskable(ctx: Ctx, confirmed: bool, e: Expr)
    requires RouteBinding(ctx, confirmed, Reads(e), e).ValidityMask?
    ensures var clean := confirmed || Reads(e) == {};
            Maskable(clean, e) && (clean ==> !NoShift(e))
            && AnalyzeValidity(ctx, clean, e) == Some(RouteBinding(ctx, confirmed, Reads(e), e).graph)
  {
    hide Maskable, NullMode, VisitValidity, ValidLeaves, CondLeaves, Reads, NoShift;
    var clean := confirmed || Reads(e) == {};
    var a := ValidLeaves(e, INITIAL).value;
    VisitedIsMaskable(ctx, clean, a.validIdx, e, CondLeaves(ctx, e, a.st).value);
  }

  /** What a routed binding delivers: the device's values under the mask of its route. */
  function Delivered(sem: Sem, frame: Frame, e: Expr, route: Route, spare: seq<Cell>): seq<PCell>
    requires |spare| == frame.n
  {
    var values := DeviceValues(sem, frame, e);
    match route
    case OrMask => Masked(values, AnyNull(frame, Reads(e)))
    case ValidityMask(_) => Masked(values, NullWhere(Written(spare, ToArr(BEval(sem, frame, e)))))
    case _ => Masked(values, NoMask(frame.n))
  }

  /** The conditions under which the delivered column is Polars': on the data, on the confirmation, and
      on what the analyzer does not look at. */
  ghost predicate Dependable(sem: Sem, frame: Frame, confirmed: bool, e: Expr) {
    Assumed(sem, frame, e) && (confirmed ==> NullFree(frame, Reads(e))) && Trusted(confirmed || Reads(e) == {}, e) &&
    (Reads(e) != {} || NoShift(e))
  }

  lemma DeliveredIsPolars(view: nat -> Leaf, ctx: Ctx, confirmed: bool, e: Expr, sem: Sem, frame: Frame, spare: seq<Cell>)
    requires Viewed(view, e) && ctx.gather.None? && |spare| == frame.n && Dependable(sem, frame, confirmed, e)
    requires Supported(e) && !RouteBinding(ctx, confirmed, Reads(e), e).FallBack?
    ensures Delivered(sem, frame, e, RouteBinding(ctx, confirmed, Reads(e), e), spare) == PolarsColumn(sem, frame, e)
  {
    hide Viewed, Lawful, PlainParameters, Ordinary, FrameShape, Reads, Trusted, NoShift, BEval, Masked, NullWhere, ToArr, Written,
      PolarsColumn, AnalyzeValidity, NullMode, Maskable, Supported, BShape, ArithmeticLaw, DeviceValues, AnyNull, NoMask, RunGraph;
    match RouteBinding(ctx, confirmed, Reads(e), e)
    case Unmasked =>
      NoShiftIsUnshifted(e);
      UnmaskedColumn(sem, frame, e);
    case OrMask => OrColumn(sem, frame, e);
    case ValidityMask(graph) =>
      var clean := confirmed || Reads(e) == {};
      RoutedIsMaskable(ctx, confirmed, e);
      LawfulArithmetic(sem);
      ValidityGraphSound(view, ctx, sem, frame, clean, e);
      ValidityColumn(sem, frame, clean, e, spare);
    case FallBack =>
  }

  /** One fused binding, from routing to the finished column; `spare` is what the freshly
      allocated buffers hold. It delivers the device's values under its route's mask, and where
      the conditions hold that is Polars' column, nulls included. */
  method FusedColumn(ctx: Ctx, confirmed: bool, e: Expr, sem: Sem, frame: Frame, spare: seq<Cell>, ghost view: nat -> Leaf)
    returns (col: Option<seq<PCell>>)
    requires Viewed(view, e) && ctx.gather.None? && |spare| == frame.n && ArithmeticLaw(sem) && FrameShape(frame)
    ensures col.Some? <==> Analyze(ctx, e).Some? && !RouteBinding(ctx, confirmed, Reads(e), e).FallBack?
    ensures col.Some? ==> col.value == Delivered(sem, frame, e, RouteBinding(ctx, confirmed, Reads(e), e), spare)
    ensures col.Some? && Dependable(sem, frame, confirmed, e) ==> col.value == PolarsColumn(sem, frame, e)
  {
    hide Viewed, Analyze, FrameShape, Reads, NoShift, PEval, DEval, BEval, Dependable,
      RunGraph, Matches, WellLaidOut, FrameEnv, StagedColumns, Masked, NullWhere, ToArr, PolarsColumn, AnalyzeValidity,
      NullMode, AllValid, Supported, BShape, ArithmeticLaw, DeviceValues, AnyNull, NoMask;
    var g := AnalyzeIr(ctx, e, view);
    if g.None? {
      return None;
    }
    AcceptedReads(view, ctx, e);
    var env := FrameEnv(sem, frame);
    FrameEnvMatches(ctx, sem, frame);
    var value := RunGraph(env, g.value).value;
    var values := Written(spare, value);
    if value.Scalar? && frame.n != 1 {
      values := seq(frame.n, i => value.c);
    }
    assert values == DeviceValues(sem, frame, e);
    var route := RouteBinding(ctx, confirmed, StagedColumns(g.value.descriptors), e);
    if route.FallBack? {
      return None;
    }
    if Dependable(sem, frame, confirmed, e) {
      DeliveredIsPolars(view, ctx, confirmed, e, sem, frame, spare);
    }
    match route
    case Unmasked =>
      return Some(Masked(values, NoMask(frame.n)));
    case OrMask =>
      var isNull := OrMasks(g.value.descriptors, frame);
      assert isNull == AnyNull(frame, Reads(e));
      return Some(Masked(values, isNull));
    case ValidityMask(graph) =>
      ValidityGraphSound(view, ctx, sem, frame, confirmed || Reads(e) == {}, e);
      RoutedIsMaskable(ctx, confirmed, e);
      return Some(Masked(values, NullWhere(Written(spare, RunGraph(env, graph).value))));
  }

  lemma LawfulArithmetic(sem: Sem)
    requires Lawful(sem)
    ensures ArithmeticLaw(sem)
  {
  }
}

/** The validity graph: a second fused graph that computes the null mask of the first. */
module FusionValidity {
  import opened FusionAgreement
  import opened FusionCompile
  import opened FusionIr
  import opened FusionNullSafety
  import opened FusionNulls
  import opened FusionSound
  import opened Options

  // ----- how nulls propagate -----

  /** `_is_nan_safe_predicate`: only the top operator of the condition is looked at. */
  predicate NanSafePredicate(c: Expr) {
    c.Binary? && BinOpId(c.op).Some? && NanFalse(BinOpId(c.op).value)
  }

  /** `null_mode_ir`: nothing if the nulls cannot be reproduced, else whether a data-dependent
      or structural op was seen (`"where"`) or not (`"elementwise"`). */
  function NullMode(e: Expr): Option<bool>
    decreases e
  {
    match e
    case Column(_, _) => Some(false)
    case Literal(_, _) => Some(false)
    case Binary(op, l, r) =>
      if BinOpId(op).None? || IsLogical(BinOpId(op).value) then None else Either(NullMode(l), NullMode(r))
    case Cast(toF32, arg) => if toF32 then NullMode(arg) else None
    case Function(fn, args) =>
      if fn.ShiftFn? then
        if ShiftOffset(args).None? || NullMode(args[0]).None? then None else Some(true)
      else if fn.UnknownFn? || fn.Cumulative? then None
      else NullModeAll(args)
    case Ternary(c, t, f) =>
      if !NanSafePredicate(c) || NullMode(t).None? || NullMode(f).None? then None else Some(true)
    case _ => None
  }

  function NullModeAll(es: seq<Expr>): Option<bool>
    decreases es
  {
    if es == [] then Some(false) else Either(NullMode(es[0]), NullModeAll(es[1..]))
  }

  function Either(a: Option<bool>, b: Option<bool>): Option<bool> {
    if a.None? || b.None? then None else Some(a.value || b.value)
  }

  // ----- building the graph -----

  /** The shared constant 1.0 sits in the first input slot. */
  const ONE_SLOT: nat := 0

  datatype VState = VState(st: State, validIdx: map<string, nat>)

  const INITIAL: VState :=
    VState(EMPTY_STATE.(descriptors := [LitD(1.0)], litDedup := map[1.0 := ONE_SLOT]), map[])

  /** Pass 1a, `_gather_valid_leaves`: one is-valid input per distinct column. */
  function ValidLeaves(e: Expr, vs: VState): Option<VState>
    decreases e
  {
    match e
    case Column(_, name) =>
      if name in vs.validIdx then Some(vs)
      else Some(VState(AddInput(vs.st, ValidD(name)), vs.validIdx[name := |vs.st.descriptors|]))
    case Literal(_, _) => Some(vs)
    case Binary(_, l, r) =>
      var a := ValidLeaves(l, vs);
      if a.None? then None else ValidLeaves(r, a.value)
    case Cast(_, arg) => ValidLeaves(arg, vs)
    case Function(fn, args) =>
      if fn.ShiftFn? then (if args == [] then None else ValidLeaves(args[0], vs)) else ValidLeavesAll(args, vs)
    case Ternary(c, t, f) =>
      var a := ValidLeaves(c, vs);
      if a.None? then None
      else
        var b := ValidLeaves(t, a.value);
        if b.None? then None else ValidLeaves(f, b.value)
    case _ => None
  }

  function ValidLeavesAll(es: seq<Expr>, vs: VState): Option<VState>
    decreases es
  {
    if es == [] then Some(vs)
    else
      var a := ValidLeaves(es[0], vs);
      if a.None? then None else ValidLeavesAll(es[1..], a.value)
  }

  /** Pass 1b, `_gather_cond_value_leaves`: value inputs for the leaves inside conditions. */
  function CondLeaves(ctx: Ctx, e: Expr, st: State): Option<State>
    decreases e
  {
    match e
    case Column(_, _) => Some(st)
    case Literal(_, _) => Some(st)
    case Binary(_, l, r) =>
      var a := CondLeaves(ctx, l, st);
      if a.None? then None else CondLeaves(ctx, r, a.value)
    case Cast(_, arg) => CondLeaves(ctx, arg, st)
    case Function(fn, args) =>
      if fn.ShiftFn? then (if args == [] then None else CondLeaves(ctx, args[0], st)) else CondLeavesAll(ctx, args, st)
    case Ternary(c, t, f) =>
      var a := GatherLeaves(ctx, c, st);
      if a.None? then None
      else
        var b := CondLeaves(ctx, t, a.value);
        if b.None? then None else CondLeaves(ctx, f, b.value)
    case _ => None
  }

  function CondLeavesAll(ctx: Ctx, es: seq<Expr>, st: State): Option<State>
    decreases es
  {
    if es == [] then Some(st)
    else
      var a := CondLeaves(ctx, es[0], st);
      if a.None? then None else CondLeavesAll(ctx, es[1..], a.value)
  }

  /** `_validity_and`: multiply the operands, leaving out the constant 1.0. */
  function ValidityAnd(st: State, acc: nat, idxs: seq<nat>): Visit
    decreases |idxs|
  {
    if idxs == [] then Done(st, acc)
    else if idxs[0] == ONE_SLOT then ValidityAnd(st, acc, idxs[1..])
    else if acc == ONE_SLOT then ValidityAnd(st, idxs[0], idxs[1..])
    else
      var p := Push(st, Bin(Mul), [acc, idxs[0]], None);
      ValidityAnd(p.st, p.idx, idxs[1..])
  }

  /** Pass 2, `_visit_validity`; `clean` is `structural_only`. */
  function VisitValidity(ctx: Ctx, clean: bool, validIdx: map<string, nat>, e: Expr, st: State): Visit
    decreases Size(e), 2
  {
    SizeOfChildren(e);
    match e
    case Column(_, name) => if name in validIdx then Done(st, validIdx[name]) else KeyError
    case Literal(_, _) => Done(st, ONE_SLOT)
    case Binary(op, l, r) =>
      if BinOpId(op).None? || IsLogical(BinOpId(op).value) then Aborted
      else VisitBoth(ctx, clean, validIdx, [l, r], st)
    case Cast(toF32, arg) => if toF32 then VisitValidity(ctx, clean, validIdx, arg, st) else Aborted
    case Function(fn, args) =>
      if fn.ShiftFn? then
        if ShiftOffset(args).None? then Aborted
        else
          FirstIsSmaller(args);
          (match VisitValidity(ctx, clean, validIdx, args[0], st)
           case Done(s, idx) => Push(s, Shift, [idx], ShiftOffset(args))
           case Aborted => Aborted
           case KeyError => KeyError)
      else if fn.UnknownFn? || (fn.Cumulative? && (fn.reverse || !clean)) then Aborted
      else VisitBoth(ctx, clean, validIdx, args, st)
    case Ternary(c, t, f) =>
      (match VisitOps(ctx, c, st)
       case Aborted => Aborted
       case KeyError => KeyError
       case Done(s, ci) =>
         PairIsSmaller(c, t, f);
         match VisitEach(ctx, clean, validIdx, [t, f], s)
         case AbortedAll => Aborted
         case KeyErrorAll => KeyError
         case DoneAll(s2, idxs) => Push(s2, Where, [ci] + idxs, None))
    case _ => Aborted
  }

  function VisitBoth(ctx: Ctx, clean: bool, validIdx: map<string, nat>, es: seq<Expr>, st: State): Visit
    decreases SizeAll(es), 1
  {
    match VisitEach(ctx, clean, validIdx, es, st)
    case DoneAll(s, idxs) => ValidityAnd(s, ONE_SLOT, idxs)
    case AbortedAll => Aborted
    case KeyErrorAll => KeyError
  }

  function VisitEach(ctx: Ctx, clean: bool, validIdx: map<string, nat>, es: seq<Expr>, st: State): VisitMany
    decreases SizeAll(es), 0
  {
    if es == [] then DoneAll(st, [])
    else
      match VisitValidity(ctx, clean, validIdx, es[0], st)
      case Aborted => AbortedAll
      case KeyError => KeyErrorAll
      case Done(s1, idx) =>
        match VisitEach(ctx, clean, validIdx, es[1..], s1)
        case DoneAll(s2, idxs) => DoneAll(s2, [idx] + idxs)
        case AbortedAll => AbortedAll
        case KeyErrorAll => KeyErrorAll
  }

  lemma FirstIsSmaller(args: seq<Expr>)
    requires args != []
    ensures Size(args[0]) < SizeAll(args)
  {
  }

  lemma PairIsSmaller(c: Expr, t: Expr, f: Expr)
    ensures SizeAll([t, f]) < Size(Ternary(c, t, f))
  {
    SizeOfChildren(Binary(Plus, t, f));
    assert SizeAll([t, f]) == 2 + Size(t) + Size(f) by {
      assert [t, f][1..] == [f] && [f][1..] == [];
      assert SizeAll([f]) == 1 + Size(f);
    }
  }

  /** `analyze_ir_validity`. */
  function AnalyzeValidity(ctx: Ctx, clean: bool, e: Expr): Option<Graph> {
    var a := ValidLeaves(e, INITIAL);
    if a.None? then None
    else
      var b := CondLeaves(ctx, e, a.value.st);
      if b.None? then None
      else
        match VisitValidity(ctx, clean, a.value.validIdx, e, b.value)
        case Done(st, idx) => Some(Graph(st.descriptors, st.ops, idx))
        case _ => None
  }

  // ----- validity as booleans -----

  datatype BArr = BScalar(b: bool) | BRows(bs: seq<bool>)

  function BAt(a: BArr, i: int): bool {
    match a
    case BScalar(b) => b
    case BRows(bs) => 0 <= i < |bs| && bs[i]
  }

  ghost predicate BShape(n: nat, a: BArr) {
    a.BRows? ==> |a.bs| == n
  }

  function ToArr(a: BArr): Arr {
    match a
    case BScalar(b) => Scalar(Flag(b))
    case BRows(bs) => Rows(seq(|bs|, i requires 0 <= i < |bs| => Flag(bs[i])))
  }

  function BAnd(n: nat, a: BArr, b: BArr): BArr {
    if a.BRows? || b.BRows? then BRows(seq(n, i => BAt(a, i) && BAt(b, i))) else BScalar(a.b && b.b)
  }

  function BAndAll(n: nat, acc: BArr, bs: seq<BArr>): BArr
    decreases |bs|
  {
    if bs == [] then acc else BAndAll(n, BAnd(n, acc, bs[0]), bs[1..])
  }

  function BShift(a: BArr, w: nat): BArr {
    match a
    case BScalar(b) => BScalar(w == 0 && b)
    case BRows(bs) => BRows(seq(|bs|, i requires 0 <= i < |bs| => i >= w && bs[i - w]))
  }

  function BWhere(n: nat, c: Arr, t: BArr, e: BArr): BArr {
    if c.Rows? || t.BRows? || e.BRows? then BRows(seq(n, i => if Truthy(At(c, i)) then BAt(t, i) else BAt(e, i)))
    else if Truthy(At(c, 0)) then t else e
  }

  /** What the validity graph computes: branch selection uses the value graph's condition. */
  function BEval(sem: Sem, frame: Frame, e: Expr): BArr
    decreases e
  {
    match e
    case Column(_, name) => BRows(seq(|frame.col(name)|, i requires 0 <= i < |frame.col(name)| => frame.col(name)[i].Val?))
    case Binary(_, l, r) => BAndAll(frame.n, BScalar(true), [BEval(sem, frame, l), BEval(sem, frame, r)])
    case Cast(_, arg) => BEval(sem, frame, arg)
    case Function(fn, args) =>
      if fn.ShiftFn? && args != [] then
        BShift(BEval(sem, frame, args[0]), if ShiftOffset(args).Some? then ShiftOffset(args).value else 0)
      else BAndAll(frame.n, BScalar(true), BEvalAll(sem, frame, args))
    case Ternary(c, t, f) =>
      BWhere(frame.n, DEval(FrameEnv(sem, frame), c), BEval(sem, frame, t), BEval(sem, frame, f))
    case _ => BScalar(true)
  }

  function BEvalAll(sem: Sem, frame: Frame, es: seq<Expr>): (bs: seq<BArr>)
    ensures |bs| == |es|
    decreases es
  {
    if es == [] then [] else [BEval(sem, frame, es[0])] + BEvalAll(sem, frame, es[1..])
  }
}

/** The two-pass lowering of an expression into a flat `[inputs..., ops...]` graph, and
    what running the graph means. */
module FusionCompile {
  import opened FusionIr
  import opened Options

  // ----- graphs -----

  /** What the executor stages into one input slot. */
  datatype Descriptor =
    | ColD(name: string) | LitD(value: real) | KeyD | DimD(name: string) | ValidD(name: string)

  datatype OpNode = OpNode(op: OpId, args: seq<nat>, param: Option<nat>)

  /** A fused graph: inputs first, then ops, then the output slot. */
  datatype Graph = Graph(descriptors: seq<Descriptor>, ops: seq<OpNode>, output: nat)

  function Stage(env: Env, d: Descriptor): Arr {
    match d
    case ColD(name) => env.col(name)
    case LitD(v) => Scalar(Num(v))
    case KeyD => env.key
    case DimD(name) => env.dim(name)
    case ValidD(name) => env.valid(name)
  }

  function Staged(env: Env, ds: seq<Descriptor>): (h: seq<Arr>)
    ensures |h| == |ds|
  {
    seq(|ds|, i requires 0 <= i < |ds| => Stage(env, ds[i]))
  }

  predicate InRange(h: seq<Arr>, idxs: seq<nat>) {
    forall k | 0 <= k < |idxs| :: idxs[k] < |h|
  }

  function Lookup(h: seq<Arr>, idxs: seq<nat>): (args: seq<Arr>)
    requires InRange(h, idxs)
    ensures |args| == |idxs| && forall k | 0 <= k < |idxs| :: args[k] == h[idxs[k]]
  {
    seq(|idxs|, k requires 0 <= k < |idxs| && idxs[k] < |h| => h[idxs[k]])
  }

  /** `build_op`: look the arguments up among the handles built so far, and apply. */
  function BuildOp(env: Env, node: OpNode, h: seq<Arr>): Option<Arr> {
    if !InRange(h, node.args) then None
    else
      var args := Lookup(h, node.args);
      match node.op
      case Where => if |args| == 3 then Some(WhereArr(env.n, args[0], args[1], args[2])) else None
      case Shift => if |args| == 1 && node.param.Some? then Some(ShiftArr(args[0], node.param.value)) else None
      case Take => if |args| == 2 then Some(TakeArr(args[0], args[1])) else None
      case Scan(op) => if |args| >= 1 then Some(ScanArr(env.sem, op, args[0])) else None
      case _ => Some(Elementwise(env.sem, env.n, node.op, args))
  }

  /** All handles, inputs then op results, or nothing if an op refers past them. */
  function RunOps(env: Env, inputs: seq<Arr>, ops: seq<OpNode>): (h: Option<seq<Arr>>)
    ensures h.Some? ==> |h.value| == |inputs| + |ops| && inputs <= h.value
  {
    if ops == [] then Some(inputs)
    else
      var m := |ops| - 1;
      var before := RunOps(env, inputs, ops[..m]);
      if before.None? then None
      else
        var r := BuildOp(env, ops[m], before.value);
        if r.None? then None else Some(before.value + [r.value])
  }

  function RunGraph(env: Env, g: Graph): Option<Arr> {
    var h := RunOps(env, Staged(env, g.descriptors), g.ops);
    if h.Some? && g.output < |h.value| then Some(h.value[g.output]) else None
  }

  /** All inputs come first and each op refers only to nodes before it. */
  predicate WellLaidOut(g: Graph) {
    g.output < |g.descriptors| + |g.ops| &&
    forall i, k | 0 <= i < |g.ops| && 0 <= k < |g.ops[i].args| :: g.ops[i].args[k] < |g.descriptors| + i
  }

  // ----- analyzer state -----

  datatype Gather = Gather(cols: set<string>, key: string)

  /** `schema` holds the columns whose dtype the graph can stage. */
  datatype Ctx = Ctx(schema: set<string>, gather: Option<Gather>)

  datatype State = State(
    descriptors: seq<Descriptor>,
    ops: seq<OpNode>,
    leafIdx: map<nat, nat>,
    colDedup: map<string, nat>,
    litDedup: map<real, nat>,
    keyIdx: Option<nat>,
    dimIdx: map<string, nat>)

  const EMPTY_STATE := State([], [], map[], map[], map[], None, map[])

  predicate IsGathered(ctx: Ctx, name: string) {
    ctx.gather.Some? && name in ctx.gather.value.cols
  }

  /** `add_input` together with the descriptor appended beside it. */
  function AddInput(st: State, d: Descriptor): State {
    st.(descriptors := st.descriptors + [d])
  }

  // ----- pass 1: leaves -----

  function GatherColumn(ctx: Ctx, st: State, name: string): Option<State>
    requires IsGathered(ctx, name)
  {
    if st.keyIdx.None? && ctx.gather.value.key !in ctx.schema then None
    else
      var st1 := if st.keyIdx.None? then AddInput(st, KeyD).(keyIdx := Some(|st.descriptors|)) else st;
      if name in st1.dimIdx then Some(st1)
      else Some(AddInput(st1, DimD(name)).(dimIdx := st1.dimIdx[name := |st1.descriptors|]))
  }

  function GatherPlainColumn(ctx: Ctx, st: State, id: nat, name: string): Option<State> {
    if name !in ctx.schema then None
    else if name in st.colDedup then Some(st.(leafIdx := st.leafIdx[id := st.colDedup[name]]))
    else
      var idx := |st.descriptors|;
      Some(AddInput(st, ColD(name)).(colDedup := st.colDedup[name := idx], leafIdx := st.leafIdx[id := idx]))
  }

  function GatherLiteral(st: State, id: nat, v: LitVal): Option<State> {
    if v.NullLit? then None
    else
      var x := FloatOf(v);
      if x in st.litDedup then Some(st.(leafIdx := st.leafIdx[id := st.litDedup[x]]))
      else
        var idx := |st.descriptors|;
        Some(AddInput(st, LitD(x)).(litDedup := st.litDedup[x := idx], leafIdx := st.leafIdx[id := idx]))
  }

  /** `_gather_leaves_ir`; `None` is an abort. */
  function GatherLeaves(ctx: Ctx, e: Expr, st: State): Option<State>
    decreases e
  {
    match e
    case Column(id, name) =>
      if IsGathered(ctx, name) then GatherColumn(ctx, st, name) else GatherPlainColumn(ctx, st, id, name)
    case Literal(id, v) => GatherLiteral(st, id, v)
    case Binary(_, l, r) =>
      var s1 := GatherLeaves(ctx, l, st);
      if s1.None? then None else GatherLeaves(ctx, r, s1.value)
    case Cast(toF32, arg) => if toF32 then GatherLeaves(ctx, arg, st) else None
    case Function(fn, args) =>
      if fn.ShiftFn? then
        if ShiftOffset(args).None? then None else GatherLeaves(ctx, args[0], st)
      else if fn.UnknownFn? || (fn.Cumulative? && fn.reverse) then None
      else GatherAll(ctx, args, st)
    case Ternary(c, t, f) =>
      var s1 := GatherLeaves(ctx, c, st);
      if s1.None? then None
      else
        var s2 := GatherLeaves(ctx, t, s1.value);
        if s2.None? then None else GatherLeaves(ctx, f, s2.value)
    case _ => None
  }

  function GatherAll(ctx: Ctx, es: seq<Expr>, st: State): Option<State>
    decreases es
  {
    if es == [] then Some(st)
    else
      var s1 := GatherLeaves(ctx, es[0], st);
      if s1.None? then None else GatherAll(ctx, es[1..], s1.value)
  }

  // ----- pass 2: ops -----

  /** Outcome of pass 2. `KeyError` is a lookup of a leaf that pass 1 did not record. */
  datatype Visit = Done(st: State, idx: nat) | Aborted | KeyError

  datatype VisitMany = DoneAll(st: State, idxs: seq<nat>) | AbortedAll | KeyErrorAll

  function Push(st: State, op: OpId, args: seq<nat>, param: Option<nat>): Visit {
    Done(st.(ops := st.ops + [OpNode(op, args, param)]), |st.descriptors| + |st.ops|)
  }

  /** `_visit_ir_ops`. */
  function VisitOps(ctx: Ctx, e: Expr, st: State): Visit
    decreases Size(e), 2
  {
    SizeOfChildren(e);
    match e
    case Column(id, name) =>
      if IsGathered(ctx, name) then
        if name in st.dimIdx && st.keyIdx.Some? then Push(st, Take, [st.dimIdx[name], st.keyIdx.value], None)
        else KeyError
      else if id in st.leafIdx then Done(st, st.leafIdx[id]) else KeyError
    case Literal(id, _) => if id in st.leafIdx then Done(st, st.leafIdx[id]) else KeyError
    case Binary(op, l, r) =>
      if BinOpId(op).None? then Aborted else VisitThen(ctx, [l, r], st, Bin(BinOpId(op).value), None)
    case Cast(toF32, arg) => if toF32 then VisitThen(ctx, [arg], st, CastF32, None) else Aborted
    case Function(fn, args) =>
      if fn.UnknownFn? || (fn.Cumulative? && fn.reverse) then Aborted
      else if fn.ShiftFn? then
        if ShiftOffset(args).None? then Aborted else VisitThen(ctx, [args[0]], st, Shift, ShiftOffset(args))
      else if fn.LogFn? then
        if LogOp(args).None? then Aborted else VisitThen(ctx, [args[0]], st, LogOp(args).value, None)
      else if fn.PowFn? && |args| != 2 then Aborted
      else VisitThen(ctx, args, st, FnOp(fn, args), None)
    case Ternary(c, t, f) => VisitThen(ctx, [c, t, f], st, Where, None)
    case _ => Aborted
  }

  /** Visit the children from left to right, then push the op over them. */
  function VisitThen(ctx: Ctx, es: seq<Expr>, st: State, op: OpId, param: Option<nat>): Visit
    decreases SizeAll(es), 1
  {
    match VisitAll(ctx, es, st)
    case DoneAll(s, idxs) => Push(s, op, idxs, param)
    case AbortedAll => Aborted
    case KeyErrorAll => KeyError
  }

  function VisitAll(ctx: Ctx, es: seq<Expr>, st: State): VisitMany
    decreases SizeAll(es), 0
  {
    if es == [] then DoneAll(st, [])
    else
      match VisitOps(ctx, es[0], st)
      case Aborted => AbortedAll
      case KeyError => KeyErrorAll
      case Done(s1, idx) =>
        match VisitAll(ctx, es[1..], s1)
        case DoneAll(s2, idxs) => DoneAll(s2, [idx] + idxs)
        case AbortedAll => AbortedAll
        case KeyErrorAll => KeyErrorAll
  }
}

/** The analyzer as it runs: recursive walks that mutate one scope, its descriptor list
    and its leaf tables, proved against the value-level passes. */
module FusionAnalyzer {
  import C = FusionCompile
  import opened FusionIr
  import opened FusionSound
  import opened Options

  class Analyzer {
    var descriptors: seq<C.Descriptor>
    var ops: seq<C.OpNode>
    var leafIdx: map<nat, nat>
    var colDedup: map<string, nat>
    var litDedup: map<real, nat>
    var keyIdx: Option<nat>
    var dimIdx: map<string, nat>

    ghost function State(): C.State
      reads this
    {
      C.State(descriptors, ops, leafIdx, colDedup, litDedup, keyIdx, dimIdx)
    }

    constructor ()
      ensures State() == C.EMPTY_STATE
    {
      descriptors, ops := [], [];
      leafIdx, colDedup, litDedup := map[], map[], map[];
      keyIdx, dimIdx := None, map[];
    }

    /** `add_input`, with the descriptor appended beside it. */
    method AddInput(d: C.Descriptor) returns (idx: nat)
      modifies this`descriptors
      ensures idx == old(|descriptors|) && State() == C.AddInput(old(State()), d)
    {
      idx := |descriptors|;
      descriptors := descriptors + [d];
    }

    /** `push_op`: the new node's index counts the inputs and the ops before it. */
    method PushOp(op: OpId, args: seq<nat>, param: Option<nat>) returns (idx: nat)
      modifies this`ops
      ensures C.Done(State(), idx) == C.Push(old(State()), op, args, param)
    {
      idx := |descriptors| + |ops|;
      ops := ops + [C.OpNode(op, args, param)];
    }

    method GatherColumn(ctx: C.Ctx, name: string) returns (ok: bool)
      requires C.IsGathered(ctx, name)
      modifies this
      ensures C.GatherColumn(ctx, old(State()), name) == if ok then Some(State()) else None
    {
      if keyIdx.None? {
        if ctx.gather.value.key !in ctx.schema {
          return false;
        }
        var ki := AddInput(C.KeyD);
        keyIdx := Some(ki);
      }
      if name !in dimIdx {
        var vi := AddInput(C.DimD(name));
        dimIdx := dimIdx[name := vi];
      }
      return true;
    }

    method GatherPlainColumn(ctx: C.Ctx, id: nat, name: string) returns (ok: bool)
      modifies this
      ensures C.GatherPlainColumn(ctx, old(State()), id, name) == if ok then Some(State()) else None
    {
      if name !in ctx.schema {
        return false;
      }
      if name !in colDedup {
        var idx := AddInput(C.ColD(name));
        colDedup := colDedup[name := idx];
      }
      leafIdx := leafIdx[id := colDedup[name]];
      return true;
    }

    method GatherLiteral(id: nat, v: LitVal) returns (ok: bool)
      modifies this
      ensures C.GatherLiteral(old(State()), id, v) == if ok then Some(State()) else None
    {
      if v.NullLit? {
        return false;
      }
      var x := FloatOf(v);
      if x !in litDedup {
        var idx := AddInput(C.LitD(x));
        litDedup := litDedup[x := idx];
      }
      leafIdx := leafIdx[id := litDedup[x]];
      return true;
    }

    /** `_gather_leaves_ir`: false is an abort. */
    method GatherLeaves(ctx: C.Ctx, e: Expr) returns (ok: bool)
      modifies this
      ensures ok <==> C.GatherLeaves(ctx, e, old(State())).Some?
      ensures ok ==> C.GatherLeaves(ctx, e, old(State())) == Some(State())
      decreases e
    {
      hide C.GatherColumn, C.GatherPlainColumn, C.GatherLiteral, ShiftOffset;
      match e
      case Column(id, name) =>
        if C.IsGathered(ctx, name) {
          ok := GatherColumn(ctx, name);
        } else {
          ok := GatherPlainColumn(ctx, id, name);
        }
      case Literal(id, v) =>
        ok := GatherLiteral(id, v);
      case Binary(_, l, r) =>
        ok := GatherLeaves(ctx, l);
        if ok {
          ok := GatherLeaves(ctx, r);
        }
      case Cast(toF32, arg) =>
        if !toF32 {
          return false;
        }
        ok := GatherLeaves(ctx, arg);
      case Function(fn, args) =>
        if fn.ShiftFn? {
          if ShiftOffset(args).None? {
            return false;
          }
          HasShiftArgs(args);
          ok := GatherLeaves(ctx, args[0]);
        } else if fn.UnknownFn? || (fn.Cumulative? && fn.reverse) {
          ok := false;
        } else {
          ok := GatherAll(ctx, args);
        }
      case Ternary(c, t, f) =>
        ok := GatherLeaves(ctx, c);
        if ok {
          ok := GatherLeaves(ctx, t);
        }
        if ok {
          ok := GatherLeaves(ctx, f);
        }
      case _ =>
        ok := false;
    }

    method GatherAll(ctx: C.Ctx, es: seq<Expr>) returns (ok: bool)
      modifies this
      ensures ok <==> C.GatherAll(ctx, es, old(State())).Some?
      ensures ok ==> C.GatherAll(ctx, es, old(State())) == Some(State())
      decreases es
    {
      hide C.GatherLeaves;
      if es == [] {
        return true;
      }
      ok := GatherLeaves(ctx, es[0]);
      if ok {
        ok := GatherAll(ctx, es[1..]);
      }
    }

    /** `_visit_ir_ops`: `None` is an abort. Every table lookup succeeds, because pass 1
        covered the expression. */
    method VisitOps(ctx: C.Ctx, e: Expr, ghost view: nat -> Leaf, ghost env: Env) returns (idx: Option<nat>)
      requires Viewed(view, e) && Tables(view, State()) && Covered(ctx, e, State())
      requires Matches(ctx, env) && Handles(env, State()).Some?
      modifies this`ops
      ensures idx.Some? <==> C.VisitOps(ctx, e, old(State())).Done?
      ensures idx.Some? ==> C.VisitOps(ctx, e, old(State())) == C.Done(State(), idx.value)
      decreases Size(e), 2
    {
      hide Tables, Handles, Matches, ShiftOffset, LogOp, ViewedAll, CoveredAll, C.VisitThen, DEvalAll;
      SizeOfChildren(e);
      match e
      case Column(id, name) =>
        if C.IsGathered(ctx, name) {
          var i := PushOp(Take, [dimIdx[name], keyIdx.value], None);
          idx := Some(i);
        } else {
          idx := Some(leafIdx[id]);
        }
      case Literal(id, _) =>
        idx := Some(leafIdx[id]);
      case Binary(op, l, r) =>
        if BinOpId(op).None? {
          return None;
        }
        Two(view, ctx, env, State(), l, r);
        idx := VisitThen(ctx, [l, r], Bin(BinOpId(op).value), None, view, env);
      case Cast(toF32, arg) =>
        if !toF32 {
          return None;
        }
        One(view, ctx, env, State(), arg);
        idx := VisitThen(ctx, [arg], CastF32, None, view, env);
      case Function(fn, args) =>
        if fn.UnknownFn? || (fn.Cumulative? && fn.reverse) {
          return None;
        }
        if fn.ShiftFn? {
          if ShiftOffset(args).None? {
            return None;
          }
          One(view, ctx, env, State(), args[0]);
          FirstViewed(view, args);
          idx := VisitThen(ctx, [args[0]], Shift, ShiftOffset(args), view, env);
        } else if fn.LogFn? {
          if LogOp(args).None? {
            return None;
          }
          One(view, ctx, env, State(), args[0]);
          FirstViewed(view, args);
          FirstCovered(ctx, args, State());
          idx := VisitThen(ctx, [args[0]], LogOp(args).value, None, view, env);
        } else if fn.PowFn? && |args| != 2 {
          return None;
        } else {
          idx := VisitThen(ctx, args, FnOp(fn, args), None, view, env);
        }
      case Ternary(c, t, f) =>
        Three(view, ctx, env, State(), c, t, f);
        idx := VisitThen(ctx, [c, t, f], Where, None, view, env);
      case _ =>
        idx := None;
    }

    method VisitThen(ctx: C.Ctx, es: seq<Expr>, op: OpId, param: Option<nat>, ghost view: nat -> Leaf, ghost env: Env)
      returns (idx: Option<nat>)
      requires ViewedAll(view, es) && Tables(view, State()) && CoveredAll(ctx, es, State())
      requires Matches(ctx, env) && Handles(env, State()).Some?
      modifies this`ops
      ensures idx.Some? <==> C.VisitThen(ctx, es, old(State()), op, param).Done?
      ensures idx.Some? ==> C.VisitThen(ctx, es, old(State()), op, param) == C.Done(State(), idx.value)
      decreases SizeAll(es), 1
    {
      hide Tables, Handles, Matches, ViewedAll, CoveredAll, C.VisitAll;
      var idxs := VisitAll(ctx, es, view, env);
      if idxs.None? {
        return None;
      }
      var i := PushOp(op, idxs.value, param);
      idx := Some(i);
    }

    method VisitAll(ctx: C.Ctx, es: seq<Expr>, ghost view: nat -> Leaf, ghost env: Env) returns (idxs: Option<seq<nat>>)
      requires ViewedAll(view, es) && Tables(view, State()) && CoveredAll(ctx, es, State())
      requires Matches(ctx, env) && Handles(env, State()).Some?
      modifies this`ops
      ensures idxs.Some? <==> C.VisitAll(ctx, es, old(State())).DoneAll?
      ensures idxs.Some? ==> C.VisitAll(ctx, es, old(State())) == C.DoneAll(State(), idxs.value)
      decreases SizeAll(es), 0
    {
      hide Tables, Handles, Matches, Viewed, Covered, C.VisitOps, Holds, DEval;
      if es == [] {
        return Some([]);
      }
      VisitSound(view, ctx, env, es[0], State());
      ghost var before := State();
      var first := VisitOps(ctx, es[0], view, env);
      if first.None? {
        return None;
      }
      ExtendedKeeps(view, ctx, env, before, State(), es[1..]);
      var rest := VisitAll(ctx, es[1..], view, env);
      if rest.None? {
        return None;
      }
      idxs := Some([first.value] + rest.value);
    }
  }

  /** `analyze_ir_with_columns`: a graph it returns means what the expression means, on
      every input the executor may be handed. */
  method AnalyzeIr(ctx: C.Ctx, e: Expr, ghost view: nat -> Leaf) returns (g: Option<C.Graph>)
    requires Viewed(view, e)
    ensures g == Analyze(ctx, e)
    ensures g.Some? ==> C.WellLaidOut(g.value)
    ensures g.Some? ==> forall env | Matches(ctx, env) :: C.RunGraph(env, g.value) == Some(DEval(env, e))
  {
    hide Viewed, DEval, Matches, C.VisitOps, C.GatherLeaves, C.RunGraph, Handles, Tables, Covered;
    var a := new Analyzer();
    var ok := a.GatherLeaves(ctx, e);
    if !ok || (ctx.gather.Some? && a.dimIdx == map[]) {
      return None;
    }
    ghost var env := TrivialEnv(ctx);
    EmptyTables(view, env);
    GatherSound(view, ctx, e, C.EMPTY_STATE);
    NoOpsYet(env, a.State());
    var idx := a.VisitOps(ctx, e, view, env);
    forall env' | Matches(ctx, env')
      ensures Analyze(ctx, e).Some? ==> C.RunGraph(env', Analyze(ctx, e).value) == Some(DEval(env', e))
    {
      CompileSound(view, ctx, env', e);
    }
    CompileSound(view, ctx, env, e);
    VisitSound(view, ctx, env, e, C.GatherLeaves(ctx, e, C.EMPTY_STATE).value);
    if idx.None? {
      return None;
    }
    g := Some(C.Graph(a.descriptors, a.ops, idx.value));
  }

  ghost function TrivialEnv(ctx: C.Ctx): (env: Env)
    ensures Matches(ctx, env)
  {
    var any := (name: string) => Scalar(NaN);
    Env(Sem((op, cells) => NaN, (op, d, cells) => NaN, (b, c) => NaN), 0, any, any,
        if ctx.gather.Some? then ctx.gather.value.cols else {}, Scalar(NaN), any)
  }

  lemma EmptyTables(view: nat -> Leaf, env: Env)
    ensures Tables(view, C.EMPTY_STATE)
  {
  }

  lemma NoOpsYet(env: Env, st: C.State)
    requires st.ops == []
    ensures Handles(env, st).Some?
  {
  }
}

/** Which expressions the analyzer accepts, and which columns it stages for them. */
module FusionAcceptance {
  import opened FusionAnalyzer
  import opened FusionCompile
  import opened FusionIr
  import opened FusionNullSafety
  import opened FusionNulls
  import opened FusionReference
  import opened FusionSound
  import opened FusionValidity
  import opened FusionValiditySound
  import opened Options

  // ----- what acceptance implies -----

  /** What pass 1 guarantees of the literals and the shape of an accepted expression. */
  lemma {:induction false} AcceptedIsSupported(view: nat -> Leaf, ctx: Ctx, e: Expr, st: State, st2: State)
    requires Viewed(view, e) && GatherLeaves(ctx, e, st).Some? && VisitOps(ctx, e, st2).Done?
    ensures Supported(e)
    decreases Size(e)
  {
    hide ShiftOffset, LogOp, GatherColumn, GatherPlainColumn, Size, SizeAll;
    SizeOfChildren(e);
    match e
    case Binary(op, l, r) =>
      SizeBelow(e);
      VisitedPair(ctx, l, r, st2);
      AcceptedIsSupported(view, ctx, l, st, st2);
      AcceptedIsSupported(view, ctx, r, GatherLeaves(ctx, l, st).value, VisitOps(ctx, l, st2).st);
    case Cast(_, arg) =>
      SizeBelow(e);
      VisitedOne(ctx, arg, st2);
      AcceptedIsSupported(view, ctx, arg, st, st2);
    case Function(fn, args) =>
      if fn.ShiftFn? || fn.LogFn? {
        SizeBelow(e);
        VisitedOne(ctx, args[0], st2);
        FirstViewed(view, args);
        AcceptedIsSupported(view, ctx, args[0], st, st2);
      } else {
        VisitedArgs(ctx, e, st2);
        AcceptedAllSupported(view, ctx, args, st, st2);
      }
    case Ternary(c, t, f) =>
      SizeBelow(e);
      var s1 := GatherLeaves(ctx, c, st).value;
      VisitedThree(ctx, c, t, f, st2);
      var v1 := VisitOps(ctx, c, st2).st;
      AcceptedIsSupported(view, ctx, c, st, st2);
      AcceptedIsSupported(view, ctx, t, s1, v1);
      AcceptedIsSupported(view, ctx, f, GatherLeaves(ctx, t, s1).value, VisitOps(ctx, t, v1).st);
    case _ =>
  }

  lemma SizeBelow(e: Expr)
    ensures e.Binary? ==> Size(e.left) < Size(e) && Size(e.right) < Size(e)
    ensures e.Cast? ==> Size(e.arg) < Size(e)
    ensures e.Ternary? ==> Size(e.cond) < Size(e) && Size(e.yes) < Size(e) && Size(e.no) < Size(e)
    ensures e.Function? && e.args != [] ==> Size(e.args[0]) < Size(e)
  {
  }

  lemma VisitedOne(ctx: Ctx, a: Expr, st: State)
    ensures VisitAll(ctx, [a], st).DoneAll? ==> VisitOps(ctx, a, st).Done?
  {
    hide VisitOps;
    assert [a][1..] == [];
  }

  lemma VisitedPair(ctx: Ctx, a: Expr, b: Expr, st: State)
    ensures VisitAll(ctx, [a, b], st).DoneAll? ==>
      VisitOps(ctx, a, st).Done? && VisitOps(ctx, b, VisitOps(ctx, a, st).st).Done?
  {
    hide VisitOps;
    assert [a, b][1..] == [b];
    if VisitOps(ctx, a, st).Done? {
      VisitedOne(ctx, b, VisitOps(ctx, a, st).st);
    }
  }

  lemma VisitedThree(ctx: Ctx, a: Expr, b: Expr, c: Expr, st: State)
    ensures VisitAll(ctx, [a, b, c], st).DoneAll? ==>
      VisitOps(ctx, a, st).Done? && VisitOps(ctx, b, VisitOps(ctx, a, st).st).Done? &&
      VisitOps(ctx, c, VisitOps(ctx, b, VisitOps(ctx, a, st).st).st).Done?
  {
    hide VisitOps;
    assert [a, b, c][1..] == [b, c];
    if VisitOps(ctx, a, st).Done? {
      VisitedPair(ctx, b, c, VisitOps(ctx, a, st).st);
    }
  }

  lemma VisitedArgs(ctx: Ctx, e: Expr, st: State)
    requires e.Function? && !e.fn.ShiftFn? && !e.fn.LogFn? && VisitOps(ctx, e, st).Done?
    ensures VisitAll(ctx, e.args, st).DoneAll?
  {
    hide VisitAll;
  }

  lemma {:induction false} AcceptedAllSupported(view: nat -> Leaf, ctx: Ctx, es: seq<Expr>, st: State, st2: State)
    requires ViewedAll(view, es) && GatherAll(ctx, es, st).Some? && VisitAll(ctx, es, st2).DoneAll?
    ensures SupportedAll(es)
    decreases SizeAll(es)
  {
    hide VisitOps, GatherLeaves, Supported, Viewed;
    if es != [] {
      AcceptedIsSupported(view, ctx, es[0], st, st2);
      AcceptedAllSupported(view, ctx, es[1..], GatherLeaves(ctx, es[0], st).value, VisitOps(ctx, es[0], st2).st);
    }
  }

  /** The nodes through which a validity graph can be built. */
  predicate Maskable(clean: bool, e: Expr)
    decreases e
  {
    match e
    case Column(_, _) => true
    case Literal(_, _) => true
    case Binary(op, l, r) =>
      BinOpId(op).Some? && !IsLogical(BinOpId(op).value) && Maskable(clean, l) && Maskable(clean, r)
    case Cast(_, arg) => Maskable(clean, arg)
    case Function(fn, args) =>
      if fn.ShiftFn? then args != [] && Maskable(clean, args[0])
      else !fn.UnknownFn? && (fn.Cumulative? ==> clean) && MaskableAll(clean, args)
    case Ternary(_, t, f) => Maskable(clean, t) && Maskable(clean, f)
    case _ => false
  }

  predicate MaskableAll(clean: bool, es: seq<Expr>)
    decreases es
  {
    es == [] || (Maskable(clean, es[0]) && MaskableAll(clean, es[1..]))
  }

  lemma {:induction false} NullModeIsMaskable(e: Expr)
    requires NullMode(e).Some?
    ensures Maskable(false, e)
    decreases e
  {
    match e
    case Binary(_, l, r) =>
      NullModeIsMaskable(l);
      NullModeIsMaskable(r);
    case Cast(_, arg) => NullModeIsMaskable(arg);
    case Function(fn, args) =>
      if fn.ShiftFn? {
        NullModeIsMaskable(args[0]);
      } else {
        NullModeAllMaskable(args);
      }
    case Ternary(_, t, f) =>
      NullModeIsMaskable(t);
      NullModeIsMaskable(f);
    case _ =>
  }

  lemma {:induction false} NullModeAllMaskable(es: seq<Expr>)
    requires NullModeAll(es).Some?
    ensures MaskableAll(false, es)
    decreases es
  {
    if es != [] {
      NullModeIsMaskable(es[0]);
      NullModeAllMaskable(es[1..]);
    }
  }

  lemma {:induction false} VisitedIsMaskable(ctx: Ctx, clean: bool, t: map<string, nat>, e: Expr, st: State)
    requires VisitValidity(ctx, clean, t, e, st).Done?
    ensures Maskable(clean, e)
    decreases Size(e), 1
  {
    hide ShiftOffset, ValidityAnd, VisitOps, Size, SizeAll;
    SizeOfChildren(e);
    SizeBelow(e);
    match e
    case Binary(_, l, r) =>
      VisitedBothMaskable(ctx, clean, t, [l, r], st);
      MaskablePair(clean, l, r);
    case Cast(_, arg) => VisitedIsMaskable(ctx, clean, t, arg, st);
    case Function(fn, args) =>
      if fn.ShiftFn? {
        HasShiftArgs(args);
        VisitedIsMaskable(ctx, clean, t, args[0], st);
      } else {
        VisitedBothMaskable(ctx, clean, t, args, st);
      }
    case Ternary(c, x, y) =>
      PairIsSmaller(c, x, y);
      VisitedEachMaskable(ctx, clean, t, [x, y], VisitOps(ctx, c, st).st);
      MaskablePair(clean, x, y);
    case _ =>
  }

  lemma MaskablePair(clean: bool, a: Expr, b: Expr)
    ensures MaskableAll(clean, [a, b]) <==> Maskable(clean, a) && Maskable(clean, b)
  {
    hide Maskable;
    assert [a, b][1..] == [b] && [b][1..] == [];
    assert MaskableAll(clean, [b]) <==> Maskable(clean, b);
  }

  lemma {:induction false} VisitedBothMaskable(ctx: Ctx, clean: bool, t: map<string, nat>, es: seq<Expr>, st: State)
    requires VisitBoth(ctx, clean, t, es, st).Done?
    ensures MaskableAll(clean, es)
    decreases SizeAll(es), 1
  {
    VisitedEachMaskable(ctx, clean, t, es, st);
  }

  lemma {:induction false} VisitedEachMaskable(ctx: Ctx, clean: bool, t: map<string, nat>, es: seq<Expr>, st: State)
    requires VisitEach(ctx, clean, t, es, st).DoneAll?
    ensures MaskableAll(clean, es)
    decreases SizeAll(es), 0
  {
    hide VisitValidity, Maskable;
    if es != [] {
      VisitedIsMaskable(ctx, clean, t, es[0], st);
      VisitedEachMaskable(ctx, clean, t, es[1..], VisitValidity(ctx, clean, t, es[0], st).st);
    }
  }

  // ----- the columns an expression reads -----

  /** The columns pass 1 stages. */
  function Reads(e: Expr): set<string>
    decreases e
  {
    match e
    case Column(_, name) => {name}
    case Binary(_, l, r) => Reads(l) + Reads(r)
    case Cast(_, arg) => Reads(arg)
    case Function(fn, args) => if fn.ShiftFn? && args != [] then Reads(args[0]) else ReadsAll(args)
    case Ternary(c, t, f) => Reads(c) + Reads(t) + Reads(f)
    case _ => {}
  }

  function ReadsAll(es: seq<Expr>): set<string>
    decreases es
  {
    if es == [] then {} else Reads(es[0]) + ReadsAll(es[1..])
  }

  function StagedColumns(ds: seq<Descriptor>): set<string> {
    set i | 0 <= i < |ds| && ds[i].ColD? :: ds[i].name
  }

  ghost predicate DedupColumns(st: State) {
    st.colDedup.Keys == StagedColumns(st.descriptors)
  }

  lemma StagedAppend(ds: seq<Descriptor>, d: Descriptor)
    ensures StagedColumns(ds + [d]) == StagedColumns(ds) + (if d.ColD? then {d.name} else {})
  {
    var ds' := ds + [d];
    forall c
      ensures c in StagedColumns(ds') <==> c in StagedColumns(ds) || (d.ColD? && d.name == c)
    {
      if c in StagedColumns(ds) {
        var i :| 0 <= i < |ds| && ds[i].ColD? && ds[i].name == c;
        assert ds'[i] == ds[i];
      }
      if d.ColD? && d.name == c {
        assert ds'[|ds|] == d;
      }
    }
  }

  lemma PlainColumnStages(ctx: Ctx, st: State, id: nat, name: string)
    requires DedupColumns(st)
    ensures var r := GatherPlainColumn(ctx, st, id, name);
            r.Some? ==> DedupColumns(r.value) && StagedColumns(r.value.descriptors) == StagedColumns(st.descriptors) + {name}
  {
    hide StagedColumns;
    StagedAppend(st.descriptors, ColD(name));
  }

  lemma LiteralStages(st: State, id: nat, v: LitVal)
    requires DedupColumns(st)
    ensures var r := GatherLiteral(st, id, v);
            r.Some? ==> DedupColumns(r.value) && StagedColumns(r.value.descriptors) == StagedColumns(st.descriptors)
  {
    hide StagedColumns;
    if !v.NullLit? {
      StagedAppend(st.descriptors, LitD(FloatOf(v)));
    }
  }

  /** Pass 1 without a gather stages exactly the columns the expression reads. */
  lemma {:induction false} GatherStages(ctx: Ctx, e: Expr, st: State)
    requires ctx.gather.None? && DedupColumns(st)
    ensures var r := GatherLeaves(ctx, e, st);
            r.Some? ==> DedupColumns(r.value) && StagedColumns(r.value.descriptors) == StagedColumns(st.descriptors) + Reads(e)
    decreases e
  {
    hide StagedColumns, ShiftOffset, GatherPlainColumn, GatherColumn, GatherLiteral, DedupColumns;
    var r := GatherLeaves(ctx, e, st);
    if r.Some? {
      match e
      case Column(id, name) => PlainColumnStages(ctx, st, id, name);
      case Literal(id, v) => LiteralStages(st, id, v);
      case Binary(_, x, y) =>
        GatherStages(ctx, x, st);
        GatherStages(ctx, y, GatherLeaves(ctx, x, st).value);
      case Cast(_, arg) => GatherStages(ctx, arg, st);
      case Function(fn, args) =>
        if fn.ShiftFn? {
          HasShiftArgs(args);
          GatherStages(ctx, args[0], st);
        } else {
          GatherAllStages(ctx, args, st);
        }
      case Ternary(c, t, f) =>
        GatherStages(ctx, c, st);
        var s1 := GatherLeaves(ctx, c, st).value;
        GatherStages(ctx, t, s1);
        GatherStages(ctx, f, GatherLeaves(ctx, t, s1).value);
    }
  }

  lemma {:induction false} GatherAllStages(ctx: Ctx, es: seq<Expr>, st: State)
    requires ctx.gather.None? && DedupColumns(st)
    ensures var r := GatherAll(ctx, es, st);
            r.Some? ==> DedupColumns(r.value) && StagedColumns(r.value.descriptors) == StagedColumns(st.descriptors) + ReadsAll(es)
    decreases es
  {
    hide StagedColumns, DedupColumns, GatherLeaves;
    var r := GatherAll(ctx, es, st);
    if r.Some? && es != [] {
      GatherStages(ctx, es[0], st);
      GatherAllStages(ctx, es[1..], GatherLeaves(ctx, es[0], st).value);
    }
  }

  // ----- acceptance is exactly support -----

  /** A gather's key can be staged. */
  predicate KeyStageable(ctx: Ctx) {
    ctx.gather.Some? ==> ctx.gather.value.key in ctx.schema
  }

  lemma {:induction false} GatherAccepts(ctx: Ctx, e: Expr, st: State)
    requires KeyStageable(ctx) && Supported(e) && Reads(e) <= ctx.schema
    ensures GatherLeaves(ctx, e, st).Some?
    decreases e
  {
    hide ShiftOffset, LogOp;
    match e
    case Binary(_, l, r) =>
      GatherAccepts(ctx, l, st);
      GatherAccepts(ctx, r, GatherLeaves(ctx, l, st).value);
    case Cast(_, arg) => GatherAccepts(ctx, arg, st);
    case Function(fn, args) =>
      if fn.ShiftFn? {
        GatherAccepts(ctx, args[0], st);
      } else if fn.LogFn? {
        ParameterIsLiteral(e);
        GatherAccepts(ctx, args[0], st);
        assert args[1..] == [args[1]] && args[1..][1..] == [];
        assert GatherAll(ctx, args[1..], GatherLeaves(ctx, args[0], st).value).Some?;
      } else {
        GatherAllAccepts(ctx, args, st);
      }
    case Ternary(c, t, f) =>
      GatherAccepts(ctx, c, st);
      var s1 := GatherLeaves(ctx, c, st).value;
      GatherAccepts(ctx, t, s1);
      GatherAccepts(ctx, f, GatherLeaves(ctx, t, s1).value);
    case _ =>
  }

  lemma {:induction false} GatherAllAccepts(ctx: Ctx, es: seq<Expr>, st: State)
    requires KeyStageable(ctx) && SupportedAll(es) && ReadsAll(es) <= ctx.schema
    ensures GatherAll(ctx, es, st).Some?
    decreases es
  {
    if es != [] {
      GatherAccepts(ctx, es[0], st);
      GatherAllAccepts(ctx, es[1..], GatherLeaves(ctx, es[0], st).value);
    }
  }

  /** A shift and a logarithm have one operand and one literal parameter. */
  lemma ParameterIsLiteral(e: Expr)
    requires e.Function? && (e.fn.ShiftFn? || e.fn.LogFn?) && Supported(e)
    ensures |e.args| == 2 && e.args[1].Literal? && !e.args[1].value.NullLit? && Reads(e) == Reads(e.args[0])
  {
    if e.fn.LogFn? {
      var args := e.args;
      assert args[1..] == [args[1]] && [args[1]][1..] == [];
      assert ReadsAll(args[1..]) == Reads(args[1]) + ReadsAll([]);
    }
  }

  lemma {:induction false} VisitAccepts(ctx: Ctx, e: Expr, st: State)
    requires Supported(e)
    ensures !VisitOps(ctx, e, st).Aborted?
    decreases Size(e), 1
  {
    hide ShiftOffset, LogOp, Size, SizeAll, VisitAll, SupportedAll;
    SizeOfChildren(e);
    match e
    case Binary(_, l, r) =>
      SupportedPair(l, r);
      VisitAllAccepts(ctx, [l, r], st);
    case Cast(_, arg) =>
      SupportedOne(arg);
      VisitAllAccepts(ctx, [arg], st);
    case Function(fn, args) =>
      if fn.ShiftFn? || fn.LogFn? {
        SupportedOne(args[0]);
        VisitAllAccepts(ctx, [args[0]], st);
      } else {
        VisitAllAccepts(ctx, args, st);
      }
    case Ternary(c, t, f) =>
      SupportedPair(t, f);
      assert [c, t, f][1..] == [t, f];
      SupportedCons([c, t, f]);
      VisitAllAccepts(ctx, [c, t, f], st);
    case _ =>
  }

  lemma SupportedCons(es: seq<Expr>)
    requires es != [] && Supported(es[0]) && SupportedAll(es[1..])
    ensures SupportedAll(es)
  {
  }

  lemma SupportedOne(a: Expr)
    requires Supported(a)
    ensures SupportedAll([a])
  {
    hide Supported;
    assert [a][1..] == [];
  }

  lemma SupportedPair(a: Expr, b: Expr)
    requires Supported(a) && Supported(b)
    ensures SupportedAll([a, b])
  {
    hide Supported;
    SupportedOne(b);
    assert [a, b][1..] == [b];
  }

  lemma {:induction false} VisitAllAccepts(ctx: Ctx, es: seq<Expr>, st: State)
    requires SupportedAll(es)
    ensures !VisitAll(ctx, es, st).AbortedAll?
    decreases SizeAll(es), 0
  {
    hide VisitOps, Supported;
    if es != [] {
      VisitAccepts(ctx, es[0], st);
      if VisitOps(ctx, es[0], st).Done? {
        VisitAllAccepts(ctx, es[1..], VisitOps(ctx, es[0], st).st);
      }
    }
  }

  /** The analyzer stages exactly the columns that the expression reads. */
  lemma AcceptedReads(view: nat -> Leaf, ctx: Ctx, e: Expr)
    requires Viewed(view, e) && ctx.gather.None? && Analyze(ctx, e).Some?
    ensures Supported(e) && StagedColumns(Analyze(ctx, e).value.descriptors) == Reads(e)
  {
    hide Viewed, GatherLeaves, VisitOps, Supported, Matches, Holds, Tables, Covered;
    assert DedupColumns(EMPTY_STATE);
    GatherStages(ctx, e, EMPTY_STATE);
    var st := GatherLeaves(ctx, e, EMPTY_STATE).value;
    AcceptedIsSupported(view, ctx, e, EMPTY_STATE, st);
    EmptyTables(view, TrivialEnv(ctx));
    GatherSound(view, ctx, e, EMPTY_STATE);
    NoOpsYet(TrivialEnv(ctx), st);
    VisitSound(view, ctx, TrivialEnv(ctx), e, st);
  }

  /** The analyzer accepts exactly the supported expressions over stageable columns: its
      second pass never rejects or trips over what its first pass recorded. */
  lemma AcceptsExactly(view: nat -> Leaf, ctx: Ctx, e: Expr)
    requires Viewed(view, e) && ctx.gather.None?
    ensures Analyze(ctx, e).Some? <==> Supported(e) && Reads(e) <= ctx.schema
  {
    hide Viewed, GatherLeaves, VisitOps, Supported, Reads, Matches, Covered;
    if Supported(e) && Reads(e) <= ctx.schema {
      GatherAccepts(ctx, e, EMPTY_STATE);
      VisitAccepts(ctx, e, GatherLeaves(ctx, e, EMPTY_STATE).value);
      FrameFreeVisit(view, ctx, e);
    }
    if Analyze(ctx, e).Some? {
      AcceptedReads(view, ctx, e);
      GatheredInSchema(ctx, e, EMPTY_STATE);
    }
  }

  lemma FrameFreeVisit(view: nat -> Leaf, ctx: Ctx, e: Expr)
    requires Viewed(view, e)
    ensures var g := GatherLeaves(ctx, e, EMPTY_STATE); g.Some? ==> !VisitOps(ctx, e, g.value).KeyError?
  {
    hide Viewed, GatherLeaves, VisitOps;
    CompileSound(view, ctx, TrivialEnv(ctx), e);
  }

  lemma {:induction false} GatheredInSchema(ctx: Ctx, e: Expr, st: State)
    requires ctx.gather.None? && GatherLeaves(ctx, e, st).Some?
    ensures Reads(e) <= ctx.schema
    decreases e
  {
    match e
    case Binary(_, l, r) =>
      GatheredInSchema(ctx, l, st);
      GatheredInSchema(ctx, r, GatherLeaves(ctx, l, st).value);
    case Cast(_, arg) => GatheredInSchema(ctx, arg, st);
    case Function(fn, args) =>
      if fn.ShiftFn? {
        GatheredInSchema(ctx, args[0], st);
      } else {
        GatheredAllInSchema(ctx, args, st);
      }
    case Ternary(c, t, f) =>
      GatheredInSchema(ctx, c, st);
      var s1 := GatherLeaves(ctx, c, st).value;
      GatheredInSchema(ctx, t, s1);
      GatheredInSchema(ctx, f, GatherLeaves(ctx, t, s1).value);
    case _ =>
  }

  lemma {:induction false} GatheredAllInSchema(ctx: Ctx, es: seq<Expr>, st: State)
    requires ctx.gather.None? && GatherAll(ctx, es, st).Some?
    ensures ReadsAll(es) <= ctx.schema
    decreases es
  {
    if es != [] {
      GatheredInSchema(ctx, es[0], st);
      GatheredAllInSchema(ctx, es[1..], GatherLeaves(ctx, es[0], st).value);
    }
  }

  lemma LeafDims(ctx: Ctx, e: Expr, st: State)
    requires ctx.gather.Some? && (e.Column? || e.Literal?)
    ensures var r := GatherLeaves(ctx, e, st);
            r.Some? ==> r.value.dimIdx.Keys == st.dimIdx.Keys + Reads(e) * ctx.gather.value.cols
  {
  }

  /** With a gather, pass 1 stages a short input for each gathered column read. */
  lemma {:induction false} GatherDims(ctx: Ctx, e: Expr, st: State)
    requires ctx.gather.Some?
    ensures var r := GatherLeaves(ctx, e, st);
            r.Some? ==> r.value.dimIdx.Keys == st.dimIdx.Keys + Reads(e) * ctx.gather.value.cols
    decreases e
  {
    hide ShiftOffset, GatherColumn, GatherPlainColumn, GatherLiteral;
    var r := GatherLeaves(ctx, e, st);
    if r.Some? {
      match e
      case Column(_, _) => LeafDims(ctx, e, st);
      case Literal(_, _) => LeafDims(ctx, e, st);
      case Binary(_, x, y) =>
        GatherDims(ctx, x, st);
        GatherDims(ctx, y, GatherLeaves(ctx, x, st).value);
      case Cast(_, arg) => GatherDims(ctx, arg, st);
      case Function(fn, args) =>
        if fn.ShiftFn? {
          HasShiftArgs(args);
          GatherDims(ctx, args[0], st);
        } else {
          GatherAllDims(ctx, args, st);
        }
      case Ternary(c, t, f) =>
        GatherDims(ctx, c, st);
        var s1 := GatherLeaves(ctx, c, st).value;
        GatherDims(ctx, t, s1);
        GatherDims(ctx, f, GatherLeaves(ctx, t, s1).value);
    }
  }

  lemma {:induction false} GatherAllDims(ctx: Ctx, es: seq<Expr>, st: State)
    requires ctx.gather.Some?
    ensures var r := GatherAll(ctx, es, st);
            r.Some? ==> r.value.dimIdx.Keys == st.dimIdx.Keys + ReadsAll(es) * ctx.gather.value.cols
    decreases es
  {
    hide GatherLeaves;
    var r := GatherAll(ctx, es, st);
    if r.Some? && es != [] {
      GatherDims(ctx, es[0], st);
      GatherAllDims(ctx, es[1..], GatherLeaves(ctx, es[0], st).value);
    }
  }

  /** The gather-aware analyzer splices exactly into supported expressions that read a gathered column. */
  lemma SplicesExactly(view: nat -> Leaf, ctx: Ctx, e: Expr)
    requires Viewed(view, e) && ctx.gather.Some? && KeyStageable(ctx) && Supported(e) && Reads(e) <= ctx.schema
    ensures Analyze(ctx, e).Some? <==> Reads(e) * ctx.gather.value.cols != {}
  {
    hide Viewed, GatherLeaves, VisitOps, Supported, Reads;
    GatherAccepts(ctx, e, EMPTY_STATE);
    GatherDims(ctx, e, EMPTY_STATE);
    VisitAccepts(ctx, e, GatherLeaves(ctx, e, EMPTY_STATE).value);
    FrameFreeVisit(view, ctx, e);
  }

  // ----- the validity graph -----

  lemma {:induction false} ValidLeavesAccept(e: Expr, vs: VState)
    requires Supported(e)
    ensures ValidLeaves(e, vs).Some?
    decreases e
  {
    hide ShiftOffset, LogOp;
    match e
    case Binary(_, l, r) =>
      ValidLeavesAccept(l, vs);
      ValidLeavesAccept(r, ValidLeaves(l, vs).value);
    case Cast(_, arg) => ValidLeavesAccept(arg, vs);
    case Function(fn, args) =>
      if fn.ShiftFn? {
        ValidLeavesAccept(args[0], vs);
      } else if fn.LogFn? {
        ParameterIsLiteral(e);
        ValidLeavesAccept(args[0], vs);
        assert args[1..] == [args[1]] && args[1..][1..] == [];
        assert ValidLeavesAll(args[1..], ValidLeaves(args[0], vs).value).Some?;
      } else {
        ValidLeavesAllAccept(args, vs);
      }
    case Ternary(c, t, f) =>
      ValidLeavesAccept(c, vs);
      var s1 := ValidLeaves(c, vs).value;
      ValidLeavesAccept(t, s1);
      ValidLeavesAccept(f, ValidLeaves(t, s1).value);
    case _ =>
  }

  lemma {:induction false} ValidLeavesAllAccept(es: seq<Expr>, vs: VState)
    requires SupportedAll(es)
    ensures ValidLeavesAll(es, vs).Some?
    decreases es
  {
    if es != [] {
      ValidLeavesAccept(es[0], vs);
      ValidLeavesAllAccept(es[1..], ValidLeaves(es[0], vs).value);
    }
  }

  lemma {:induction false} CondLeavesAccept(ctx: Ctx, e: Expr, st: State)
    requires ctx.gather.None? && Supported(e) && Reads(e) <= ctx.schema
    ensures CondLeaves(ctx, e, st).Some?
    decreases e
  {
    hide ShiftOffset, LogOp, GatherLeaves;
    match e
    case Binary(_, l, r) =>
      CondLeavesAccept(ctx, l, st);
      CondLeavesAccept(ctx, r, CondLeaves(ctx, l, st).value);
    case Cast(_, arg) => CondLeavesAccept(ctx, arg, st);
    case Function(fn, args) =>
      if fn.ShiftFn? {
        CondLeavesAccept(ctx, args[0], st);
      } else if fn.LogFn? {
        ParameterIsLiteral(e);
        CondLeavesAccept(ctx, args[0], st);
        assert args[1..] == [args[1]] && args[1..][1..] == [];
        assert CondLeavesAll(ctx, args[1..], CondLeaves(ctx, args[0], st).value).Some?;
      } else {
        CondLeavesAllAccept(ctx, args, st);
      }
    case Ternary(c, t, f) =>
      GatherAccepts(ctx, c, st);
      var s1 := GatherLeaves(ctx, c, st).value;
      CondLeavesAccept(ctx, t, s1);
      CondLeavesAccept(ctx, f, CondLeaves(ctx, t, s1).value);
    case _ =>
  }

  lemma {:induction false} CondLeavesAllAccept(ctx: Ctx, es: seq<Expr>, st: State)
    requires ctx.gather.None? && SupportedAll(es) && ReadsAll(es) <= ctx.schema
    ensures CondLeavesAll(ctx, es, st).Some?
    decreases es
  {
    if es != [] {
      CondLeavesAccept(ctx, es[0], st);
      CondLeavesAllAccept(ctx, es[1..], CondLeaves(ctx, es[0], st).value);
    }
  }

  lemma {:induction false} ValidityAccepts(ctx: Ctx, clean: bool, t: map<string, nat>, e: Expr, st: State)
    requires Supported(e) && Maskable(clean, e)
    ensures !VisitValidity(ctx, clean, t, e, st).Aborted?
    decreases Size(e), 2
  {
    hide ShiftOffset, LogOp, Size, SizeAll, VisitOps, SupportedAll, MaskableAll;
    SizeOfChildren(e);
    SizeBelow(e);
    match e
    case Binary(_, l, r) =>
      SupportedPair(l, r);
      MaskablePair(clean, l, r);
      ValidityBothAccepts(ctx, clean, t, [l, r], st);
    case Cast(_, arg) => ValidityAccepts(ctx, clean, t, arg, st);
    case Function(fn, args) =>
      if fn.ShiftFn? {
        ValidityAccepts(ctx, clean, t, args[0], st);
      } else {
        if fn.LogFn? {
          ParameterIsLiteral(e);
          assert args == [args[0], args[1]];
          SupportedPair(args[0], args[1]);
        }
        ValidityBothAccepts(ctx, clean, t, args, st);
      }
    case Ternary(c, x, y) =>
      VisitAccepts(ctx, c, st);
      PairIsSmaller(c, x, y);
      SupportedPair(x, y);
      MaskablePair(clean, x, y);
      if VisitOps(ctx, c, st).Done? {
        ValidityEachAccepts(ctx, clean, t, [x, y], VisitOps(ctx, c, st).st);
      }
    case _ =>
  }

  lemma {:induction false} ValidityBothAccepts(ctx: Ctx, clean: bool, t: map<string, nat>, es: seq<Expr>, st: State)
    requires SupportedAll(es) && MaskableAll(clean, es)
    ensures !VisitBoth(ctx, clean, t, es, st).Aborted?
    decreases SizeAll(es), 1
  {
    hide SupportedAll, MaskableAll, VisitEach;
    ValidityEachAccepts(ctx, clean, t, es, st);
    var v := VisitEach(ctx, clean, t, es, st);
    if v.DoneAll? {
      AndAccepts(v.st, ONE_SLOT, v.idxs);
    }
  }

  lemma {:induction false} AndAccepts(st: State, acc: nat, idxs: seq<nat>)
    ensures ValidityAnd(st, acc, idxs).Done?
    decreases |idxs|
  {
    if idxs != [] {
      var p := Push(st, Bin(Mul), [acc, idxs[0]], None);
      AndAccepts(st, acc, idxs[1..]);
      AndAccepts(st, idxs[0], idxs[1..]);
      AndAccepts(p.st, p.idx, idxs[1..]);
    }
  }

  lemma {:induction false} ValidityEachAccepts(ctx: Ctx, clean: bool, t: map<string, nat>, es: seq<Expr>, st: State)
    requires SupportedAll(es) && MaskableAll(clean, es)
    ensures !VisitEach(ctx, clean, t, es, st).AbortedAll?
    decreases SizeAll(es), 0
  {
    hide VisitValidity, Maskable, Supported;
    if es != [] {
      ValidityAccepts(ctx, clean, t, es[0], st);
      var v := VisitValidity(ctx, clean, t, es[0], st);
      if v.Done? {
        ValidityEachAccepts(ctx, clean, t, es[1..], v.st);
      }
    }
  }

  lemma ValidityFinds(view: nat -> Leaf, ctx: Ctx, clean: bool, e: Expr)
    requires Viewed(view, e) && ctx.gather.None? && ValidLeaves(e, INITIAL).Some?
    ensures var a := ValidLeaves(e, INITIAL).value;
      CondLeaves(ctx, e, a.st).Some? ==> !VisitValidity(ctx, clean, a.validIdx, e, CondLeaves(ctx, e, a.st).value).KeyError?
  {
    hide Viewed, AnalyzeValidity, ValidLeaves, CondLeaves, VisitValidity, REFERENCE;
    var frame := Frame(0, name => []);
    ReferenceIsLawful();
    ValidityGraphSound(view, ctx, REFERENCE, frame, clean, e);
  }

  /** For an expression that has a value graph, a validity graph is constructible exactly
      when no Kleene operator, and no scan over nullable input, lies outside conditions. */
  lemma ValidityAcceptsExactly(view: nat -> Leaf, ctx: Ctx, clean: bool, e: Expr)
    requires Viewed(view, e) && ctx.gather.None? && Analyze(ctx, e).Some?
    ensures AnalyzeValidity(ctx, clean, e).Some? <==> Maskable(clean, e)
  {
    hide Viewed, Analyze, ValidLeaves, CondLeaves, VisitValidity, Supported, Reads, Maskable;
    AcceptsExactly(view, ctx, e);
    ValidLeavesAccept(e, INITIAL);
    var a := ValidLeaves(e, INITIAL).value;
    CondLeavesAccept(ctx, e, a.st);
    var st := CondLeaves(ctx, e, a.st).value;
    if Maskable(clean, e) {
      ValidityAccepts(ctx, clean, a.validIdx, e, st);
      ValidityFinds(view, ctx, clean, e);
    }
    if VisitValidity(ctx, clean, a.validIdx, e, st).Done? {
      VisitedIsMaskable(ctx, clean, a.validIdx, e, st);
    }
  }
}

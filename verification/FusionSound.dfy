/** Correctness of the two-pass lowering. */
module FusionSound {
  import opened FusionCompile
  import opened FusionIr
  import opened Options

  /** What the arena holds at a leaf's id. */
  datatype Leaf = ColLeaf(name: string) | LitLeaf(x: real)

  /** The leaves of `e` are what the traverser shows at their ids, so that two leaves with
      one id are the same leaf; and a function node has an input. */
  ghost predicate Viewed(view: nat -> Leaf, e: Expr)
    decreases e
  {
    match e
    case Column(id, name) => view(id) == ColLeaf(name)
    case Literal(id, v) => v.NullLit? || view(id) == LitLeaf(FloatOf(v))
    case Binary(_, l, r) => Viewed(view, l) && Viewed(view, r)
    case Cast(_, arg) => Viewed(view, arg)
    case Function(_, args) => args != [] && ViewedAll(view, args)
    case Ternary(c, t, f) => Viewed(view, c) && Viewed(view, t) && Viewed(view, f)
    case _ => true
  }

  ghost predicate ViewedAll(view: nat -> Leaf, es: seq<Expr>)
    decreases es
  {
    es == [] || (Viewed(view, es[0]) && ViewedAll(view, es[1..]))
  }

  ghost predicate Slot(ds: seq<Descriptor>, idx: nat, d: Descriptor) {
    idx < |ds| && ds[idx] == d
  }

  ghost function LeafD(leaf: Leaf): Descriptor {
    match leaf
    case ColLeaf(c) => ColD(c)
    case LitLeaf(x) => LitD(x)
  }

  ghost predicate LeafTable(view: nat -> Leaf, ds: seq<Descriptor>, t: map<nat, nat>) {
    forall id | id in t :: Slot(ds, t[id], LeafD(view(id)))
  }

  ghost predicate ColTable(ds: seq<Descriptor>, t: map<string, nat>) {
    forall c | c in t :: Slot(ds, t[c], ColD(c))
  }

  ghost predicate LitTable(ds: seq<Descriptor>, t: map<real, nat>) {
    forall x | x in t :: Slot(ds, t[x], LitD(x))
  }

  ghost predicate DimTable(ds: seq<Descriptor>, t: map<string, nat>) {
    forall c | c in t :: Slot(ds, t[c], DimD(c))
  }

  /** Every table entry points at the slot staged for it. */
  ghost predicate Tables(view: nat -> Leaf, st: State) {
    LeafTable(view, st.descriptors, st.leafIdx) && ColTable(st.descriptors, st.colDedup) &&
    LitTable(st.descriptors, st.litDedup) && DimTable(st.descriptors, st.dimIdx) &&
    (st.keyIdx.Some? ==> Slot(st.descriptors, st.keyIdx.value, KeyD))
  }

  ghost predicate Grown(st: State, st': State) {
    st.descriptors <= st'.descriptors && st.leafIdx.Keys <= st'.leafIdx.Keys &&
    st.dimIdx.Keys <= st'.dimIdx.Keys && (st.keyIdx.Some? ==> st'.keyIdx.Some?)
  }

  /** Pass 1 has recorded every leaf that pass 2 will look up. */
  ghost predicate Covered(ctx: Ctx, e: Expr, st: State)
    decreases e
  {
    match e
    case Column(id, name) =>
      if IsGathered(ctx, name) then name in st.dimIdx && st.keyIdx.Some? else id in st.leafIdx
    case Literal(id, v) => !v.NullLit? && id in st.leafIdx
    case Binary(_, l, r) => Covered(ctx, l, st) && Covered(ctx, r, st)
    case Cast(_, arg) => Covered(ctx, arg, st)
    case Function(fn, args) =>
      if fn.ShiftFn? && args != [] then Covered(ctx, args[0], st) else CoveredAll(ctx, args, st)
    case Ternary(c, t, f) => Covered(ctx, c, st) && Covered(ctx, t, st) && Covered(ctx, f, st)
    case _ => true
  }

  ghost predicate CoveredAll(ctx: Ctx, es: seq<Expr>, st: State)
    decreases es
  {
    es == [] || (Covered(ctx, es[0], st) && CoveredAll(ctx, es[1..], st))
  }

  // ----- pass 1 -----

  lemma {:induction false} CoveredGrows(ctx: Ctx, e: Expr, st: State, st': State)
    requires Covered(ctx, e, st) && Grown(st, st')
    ensures Covered(ctx, e, st')
    decreases e
  {
    match e
    case Binary(_, l, r) =>
      CoveredGrows(ctx, l, st, st');
      CoveredGrows(ctx, r, st, st');
    case Cast(_, arg) => CoveredGrows(ctx, arg, st, st');
    case Function(fn, args) =>
      if fn.ShiftFn? && args != [] {
        CoveredGrows(ctx, args[0], st, st');
      } else {
        CoveredAllGrows(ctx, args, st, st');
      }
    case Ternary(c, t, f) =>
      CoveredGrows(ctx, c, st, st');
      CoveredGrows(ctx, t, st, st');
      CoveredGrows(ctx, f, st, st');
    case _ =>
  }

  lemma {:induction false} CoveredAllGrows(ctx: Ctx, es: seq<Expr>, st: State, st': State)
    requires CoveredAll(ctx, es, st) && Grown(st, st')
    ensures CoveredAll(ctx, es, st')
    decreases es
  {
    if es != [] {
      CoveredGrows(ctx, es[0], st, st');
      CoveredAllGrows(ctx, es[1..], st, st');
    }
  }

  /** Appending a descriptor moves no slot. */
  lemma TablesGrow(view: nat -> Leaf, st: State, d: Descriptor)
    requires Tables(view, st)
    ensures Tables(view, AddInput(st, d)) && Slot(AddInput(st, d).descriptors, |st.descriptors|, d)
  {
    var ds, ds' := st.descriptors, st.descriptors + [d];
    assert forall i, x | Slot(ds, i, x) :: Slot(ds', i, x);
  }

  lemma LeafInsert(view: nat -> Leaf, st: State, id: nat, idx: nat)
    requires Tables(view, st) && Slot(st.descriptors, idx, LeafD(view(id)))
    ensures Tables(view, st.(leafIdx := st.leafIdx[id := idx]))
  {
    hide Slot;
  }

  lemma KeyStep(view: nat -> Leaf, st: State)
    requires Tables(view, st)
    ensures Tables(view, AddInput(st, KeyD).(keyIdx := Some(|st.descriptors|)))
  {
    hide Slot, LeafTable, ColTable, LitTable, DimTable;
    TablesGrow(view, st, KeyD);
  }

  lemma DimStep(view: nat -> Leaf, st: State, name: string)
    requires Tables(view, st)
    ensures Tables(view, AddInput(st, DimD(name)).(dimIdx := st.dimIdx[name := |st.descriptors|]))
  {
    hide Slot, LeafTable, ColTable, LitTable;
    TablesGrow(view, st, DimD(name));
  }

  lemma DimColumnStep(view: nat -> Leaf, ctx: Ctx, st: State, name: string)
    requires IsGathered(ctx, name) && Tables(view, st)
    ensures var r := GatherColumn(ctx, st, name);
            r.Some? ==> Tables(view, r.value) && Grown(st, r.value) && r.value.ops == st.ops
                        && name in r.value.dimIdx && r.value.keyIdx.Some?
  {
    hide Tables;
    if st.keyIdx.None? {
      KeyStep(view, st);
    }
    var st1 := if st.keyIdx.None? then AddInput(st, KeyD).(keyIdx := Some(|st.descriptors|)) else st;
    DimStep(view, st1, name);
  }

  lemma PlainColumnStep(view: nat -> Leaf, ctx: Ctx, st: State, id: nat, name: string)
    requires view(id) == ColLeaf(name) && Tables(view, st)
    ensures var r := GatherPlainColumn(ctx, st, id, name);
            r.Some? ==> Tables(view, r.value) && Grown(st, r.value) && r.value.ops == st.ops && id in r.value.leafIdx
  {
    hide Slot, LeafTable, LitTable, DimTable;
    TablesGrow(view, st, ColD(name));
    if name in st.colDedup {
      LeafInsert(view, st, id, st.colDedup[name]);
    } else {
      var idx := |st.descriptors|;
      var st1 := AddInput(st, ColD(name)).(colDedup := st.colDedup[name := idx]);
      assert Tables(view, st1);
      LeafInsert(view, st1, id, idx);
    }
  }

  lemma LiteralStep(view: nat -> Leaf, st: State, id: nat, v: LitVal)
    requires (v.NullLit? || view(id) == LitLeaf(FloatOf(v))) && Tables(view, st)
    ensures var r := GatherLiteral(st, id, v);
            r.Some? ==> Tables(view, r.value) && Grown(st, r.value) && r.value.ops == st.ops
                        && !v.NullLit? && id in r.value.leafIdx
  {
    hide Slot, LeafTable, ColTable, DimTable;
    if !v.NullLit? {
      var x := FloatOf(v);
      TablesGrow(view, st, LitD(x));
      if x in st.litDedup {
        LeafInsert(view, st, id, st.litDedup[x]);
      } else {
        var idx := |st.descriptors|;
        var st1 := AddInput(st, LitD(x)).(litDedup := st.litDedup[x := idx]);
        assert Tables(view, st1);
        LeafInsert(view, st1, id, idx);
      }
    }
  }

  /** Pass 1 keeps the tables right and, when it succeeds, covers every leaf. */
  lemma {:induction false} GatherSound(view: nat -> Leaf, ctx: Ctx, e: Expr, st: State)
    requires Viewed(view, e) && Tables(view, st)
    ensures var r := GatherLeaves(ctx, e, st);
            r.Some? ==> Tables(view, r.value) && Grown(st, r.value) && r.value.ops == st.ops && Covered(ctx, e, r.value)
    decreases e
  {
    hide Tables, GatherColumn, GatherPlainColumn, GatherLiteral;
    var r := GatherLeaves(ctx, e, st);
    if r.Some? {
      match e
      case Column(id, name) =>
        if IsGathered(ctx, name) {
          DimColumnStep(view, ctx, st, name);
        } else {
          PlainColumnStep(view, ctx, st, id, name);
        }
      case Literal(id, v) => LiteralStep(view, st, id, v);
      case Binary(_, x, y) =>
        GatherSound(view, ctx, x, st);
        var s1 := GatherLeaves(ctx, x, st).value;
        GatherSound(view, ctx, y, s1);
        CoveredGrows(ctx, x, s1, r.value);
      case Cast(_, arg) => GatherSound(view, ctx, arg, st);
      case Function(fn, args) =>
        if fn.ShiftFn? {
          GatherSound(view, ctx, args[0], st);
        } else {
          GatherAllSound(view, ctx, args, st);
        }
      case Ternary(c, t, f) =>
        GatherSound(view, ctx, c, st);
        var s1 := GatherLeaves(ctx, c, st).value;
        GatherSound(view, ctx, t, s1);
        var s2 := GatherLeaves(ctx, t, s1).value;
        GatherSound(view, ctx, f, s2);
        CoveredGrows(ctx, c, s1, r.value);
        CoveredGrows(ctx, t, s2, r.value);
    }
  }

  lemma {:induction false} GatherAllSound(view: nat -> Leaf, ctx: Ctx, es: seq<Expr>, st: State)
    requires ViewedAll(view, es) && Tables(view, st)
    ensures var r := GatherAll(ctx, es, st);
            r.Some? ==> Tables(view, r.value) && Grown(st, r.value) && r.value.ops == st.ops && CoveredAll(ctx, es, r.value)
    decreases es
  {
    hide Tables;
    var r := GatherAll(ctx, es, st);
    if r.Some? && es != [] {
      GatherSound(view, ctx, es[0], st);
      var s1 := GatherLeaves(ctx, es[0], st).value;
      GatherAllSound(view, ctx, es[1..], s1);
      CoveredGrows(ctx, es[0], s1, r.value);
    }
  }

  // ----- pass 2 -----

  ghost function Handles(env: Env, st: State): Option<seq<Arr>> {
    RunOps(env, Staged(env, st.descriptors), st.ops)
  }

  /** `st'` extends the ops of `st`, runs, and leaves earlier handles in place. */
  ghost predicate Extended(env: Env, st: State, st': State) {
    st' == st.(ops := st'.ops) &&
    (Handles(env, st).Some? ==> Handles(env, st').Some? && Handles(env, st).value <= Handles(env, st').value)
  }

  /** Slot `idx` of `st` evaluates to `v`. */
  ghost predicate Holds(env: Env, st: State, idx: nat, v: Arr) {
    Handles(env, st).Some? ==> idx < |Handles(env, st).value| && Handles(env, st).value[idx] == v
  }

  ghost predicate HoldsAll(env: Env, st: State, idxs: seq<nat>, vs: seq<Arr>) {
    |idxs| == |vs| && forall k | 0 <= k < |idxs| :: Holds(env, st, idxs[k], vs[k])
  }

  lemma HoldsLater(env: Env, st: State, st': State, idx: nat, v: Arr)
    requires Holds(env, st, idx, v) && Extended(env, st, st') && Handles(env, st).Some?
    ensures Holds(env, st', idx, v)
  {
  }

  /** The array a pushed op computes from its arguments' arrays. */
  ghost function OpValue(env: Env, op: OpId, vs: seq<Arr>, param: Option<nat>): Option<Arr> {
    match op
    case Where => if |vs| == 3 then Some(WhereArr(env.n, vs[0], vs[1], vs[2])) else None
    case Shift => if |vs| == 1 && param.Some? then Some(ShiftArr(vs[0], param.value)) else None
    case Take => if |vs| == 2 then Some(TakeArr(vs[0], vs[1])) else None
    case Scan(s) => if |vs| >= 1 then Some(ScanArr(env.sem, s, vs[0])) else None
    case _ => Some(Elementwise(env.sem, env.n, op, vs))
  }

  lemma PushRuns(env: Env, st: State, op: OpId, idxs: seq<nat>, param: Option<nat>, vs: seq<Arr>)
    requires Handles(env, st).Some? && HoldsAll(env, st, idxs, vs) && OpValue(env, op, vs, param).Some?
    ensures var p := Push(st, op, idxs, param);
            Extended(env, st, p.st) && Handles(env, p.st).Some? && Holds(env, p.st, p.idx, OpValue(env, op, vs, param).value)
  {
    var node := OpNode(op, idxs, param);
    var p := Push(st, op, idxs, param);
    var h := Handles(env, st).value;
    assert p.st.ops[..|p.st.ops| - 1] == st.ops;
    assert forall k | 0 <= k < |idxs| :: Holds(env, st, idxs[k], vs[k]);
    assert InRange(h, idxs);
    assert Lookup(h, idxs) == vs;
    assert BuildOp(env, node, h) == OpValue(env, op, vs, param);
  }

  /** A leaf slot is already staged. */
  lemma SlotHolds(env: Env, st: State, idx: nat, d: Descriptor)
    requires Slot(st.descriptors, idx, d) && Handles(env, st).Some?
    ensures Holds(env, st, idx, Stage(env, d))
  {
    var inputs := Staged(env, st.descriptors);
    assert inputs <= Handles(env, st).value;
    assert Handles(env, st).value[idx] == inputs[idx];
  }

  ghost predicate Matches(ctx: Ctx, env: Env) {
    forall c :: c in env.gatherCols <==> IsGathered(ctx, c)
  }

  /** Pass 2 never misses a leaf, and the slot it returns evaluates to the expression. */
  lemma {:induction false} VisitSound(view: nat -> Leaf, ctx: Ctx, env: Env, e: Expr, st: State)
    requires Viewed(view, e) && Tables(view, st) && Covered(ctx, e, st) && Matches(ctx, env)
    requires Handles(env, st).Some?
    ensures var v := VisitOps(ctx, e, st);
            !v.KeyError? &&
            (v.Done? ==> Extended(env, st, v.st) && Handles(env, v.st).Some? && Holds(env, v.st, v.idx, DEval(env, e)))
    decreases Size(e), 2
  {
    hide Tables, Extended, Holds, HoldsAll, Handles, Elementwise, WhereArr, ShiftArr, ScanArr, TakeArr, Matches,
      VisitThen, VisitAll, ViewedAll, CoveredAll, DEvalAll, SizeAll, ShiftOffset, LogOp, FnOp, ColumnValue;
    SizeOfChildren(e);
    match e
    case Column(_, _) => LeafVisit(view, ctx, env, e, st);
    case Literal(_, _) => LeafVisit(view, ctx, env, e, st);
    case Binary(op, l, r) =>
      if BinOpId(op).Some? {
        Two(view, ctx, env, st, l, r);
        VisitThenSound(view, ctx, env, [l, r], st, Bin(BinOpId(op).value), None);
      }
    case Cast(toF32, arg) =>
      One(view, ctx, env, st, arg);
      VisitThenSound(view, ctx, env, [arg], st, CastF32, None);
    case Function(fn, args) => FunctionVisit(view, ctx, env, e, st);
    case Ternary(c, t, f) =>
      Three(view, ctx, env, st, c, t, f);
      VisitThenSound(view, ctx, env, [c, t, f], st, Where, None);
    case _ =>
  }

  lemma LeafVisit(view: nat -> Leaf, ctx: Ctx, env: Env, e: Expr, st: State)
    requires e.Column? || (e.Literal? && !e.value.NullLit?)
    requires Viewed(view, e) && Tables(view, st) && Covered(ctx, e, st) && Matches(ctx, env)
    requires Handles(env, st).Some?
    ensures var v := VisitOps(ctx, e, st);
            v.Done? && Extended(env, st, v.st) && Handles(env, v.st).Some? && Holds(env, v.st, v.idx, DEval(env, e))
  {
    hide TakeArr, Handles, Holds, Extended, HoldsAll;
    ExtendedSelf(env, st);
    if e.Column? && IsGathered(ctx, e.name) {
      var d, k := st.dimIdx[e.name], st.keyIdx.value;
      SlotHolds(env, st, d, DimD(e.name));
      SlotHolds(env, st, k, KeyD);
      HoldsTwo(env, st, d, k, env.dim(e.name), env.key);
      PushRuns(env, st, Take, [d, k], None, [env.dim(e.name), env.key]);
    } else if e.Column? {
      SlotHolds(env, st, st.leafIdx[e.id], ColD(e.name));
    } else {
      SlotHolds(env, st, st.leafIdx[e.id], LitD(FloatOf(e.value)));
    }
  }

  lemma ExtendedSelf(env: Env, st: State)
    ensures Extended(env, st, st)
  {
  }

  lemma ExtendedTrans(env: Env, a: State, b: State, c: State)
    requires Extended(env, a, b) && Extended(env, b, c)
    ensures Extended(env, a, c)
  {
  }

  lemma ExtendedKeeps(view: nat -> Leaf, ctx: Ctx, env: Env, a: State, b: State, es: seq<Expr>)
    requires Extended(env, a, b) && Tables(view, a) && CoveredAll(ctx, es, a)
    ensures Tables(view, b) && CoveredAll(ctx, es, b)
  {
    CoveredAllGrows(ctx, es, a, b);
  }

  lemma HoldsTwo(env: Env, st: State, i: nat, j: nat, v: Arr, w: Arr)
    requires Holds(env, st, i, v) && Holds(env, st, j, w)
    ensures HoldsAll(env, st, [i, j], [v, w])
  {
  }

  lemma HoldsCons(env: Env, st: State, st': State, i: nat, v: Arr, idxs: seq<nat>, vs: seq<Arr>)
    requires Handles(env, st).Some? && Holds(env, st, i, v) && Extended(env, st, st') && HoldsAll(env, st', idxs, vs)
    ensures HoldsAll(env, st', [i] + idxs, [v] + vs)
  {
    HoldsLater(env, st, st', i, v);
  }

  lemma {:induction false} VisitAllSound(view: nat -> Leaf, ctx: Ctx, env: Env, es: seq<Expr>, st: State)
    requires ViewedAll(view, es) && Tables(view, st) && CoveredAll(ctx, es, st) && Matches(ctx, env)
    requires Handles(env, st).Some?
    ensures var v := VisitAll(ctx, es, st);
            !v.KeyErrorAll? &&
            (v.DoneAll? ==> Extended(env, st, v.st) && Handles(env, v.st).Some? && HoldsAll(env, v.st, v.idxs, DEvalAll(env, es)))
    decreases SizeAll(es), 0
  {
    hide Tables, Extended, Holds, HoldsAll, Handles, DEval, Matches, Covered, Viewed, VisitOps;
    if es == [] {
      ExtendedSelf(env, st);
      HoldsNone(env, st);
    } else {
      VisitSound(view, ctx, env, es[0], st);
      var v := VisitOps(ctx, es[0], st);
      if v.Done? {
        ExtendedKeeps(view, ctx, env, st, v.st, es[1..]);
        VisitAllSound(view, ctx, env, es[1..], v.st);
        var rest := VisitAll(ctx, es[1..], v.st);
        if rest.DoneAll? {
          ExtendedTrans(env, st, v.st, rest.st);
          HoldsCons(env, v.st, rest.st, v.idx, DEval(env, es[0]), rest.idxs, DEvalAll(env, es[1..]));
        }
      }
    }
  }

  lemma HoldsNone(env: Env, st: State)
    ensures HoldsAll(env, st, [], [])
  {
  }

  lemma VisitThenSound(view: nat -> Leaf, ctx: Ctx, env: Env, es: seq<Expr>, st: State, op: OpId, param: Option<nat>)
    requires ViewedAll(view, es) && Tables(view, st) && CoveredAll(ctx, es, st) && Matches(ctx, env)
    requires Handles(env, st).Some? && OpValue(env, op, DEvalAll(env, es), param).Some?
    ensures var v := VisitThen(ctx, es, st, op, param);
            !v.KeyError? &&
            (v.Done? ==> Extended(env, st, v.st) && Handles(env, v.st).Some?
                         && Holds(env, v.st, v.idx, OpValue(env, op, DEvalAll(env, es), param).value))
    decreases SizeAll(es), 1
  {
    hide Tables, Extended, Holds, HoldsAll, Handles, DEval, Matches, Covered, Viewed, VisitOps, OpValue;
    VisitAllSound(view, ctx, env, es, st);
    var v := VisitAll(ctx, es, st);
    if v.DoneAll? {
      PushRuns(env, v.st, op, v.idxs, param, DEvalAll(env, es));
      ExtendedTrans(env, st, v.st, Push(v.st, op, v.idxs, param).st);
    }
  }

  /** Lists of one, two and three children, unrolled. */
  lemma One(view: nat -> Leaf, ctx: Ctx, env: Env, st: State, a: Expr)
    ensures ViewedAll(view, [a]) <==> Viewed(view, a)
    ensures CoveredAll(ctx, [a], st) <==> Covered(ctx, a, st)
    ensures DEvalAll(env, [a]) == [DEval(env, a)]
  {
    hide Viewed, Covered, DEval;
    assert [a][1..] == [];
    assert DEvalAll(env, []) == [];
  }

  lemma Two(view: nat -> Leaf, ctx: Ctx, env: Env, st: State, a: Expr, b: Expr)
    ensures ViewedAll(view, [a, b]) <==> Viewed(view, a) && Viewed(view, b)
    ensures CoveredAll(ctx, [a, b], st) <==> Covered(ctx, a, st) && Covered(ctx, b, st)
    ensures DEvalAll(env, [a, b]) == [DEval(env, a), DEval(env, b)]
  {
    hide Viewed, Covered, DEval;
    assert [a, b][1..] == [b];
    One(view, ctx, env, st, b);
  }

  lemma Three(view: nat -> Leaf, ctx: Ctx, env: Env, st: State, a: Expr, b: Expr, c: Expr)
    ensures ViewedAll(view, [a, b, c]) <==> Viewed(view, a) && Viewed(view, b) && Viewed(view, c)
    ensures CoveredAll(ctx, [a, b, c], st) <==> Covered(ctx, a, st) && Covered(ctx, b, st) && Covered(ctx, c, st)
    ensures DEvalAll(env, [a, b, c]) == [DEval(env, a), DEval(env, b), DEval(env, c)]
  {
    hide Viewed, Covered, DEval;
    assert [a, b, c][1..] == [b, c];
    Two(view, ctx, env, st, b, c);
  }

  lemma {:induction false} FunctionVisit(view: nat -> Leaf, ctx: Ctx, env: Env, e: Expr, st: State)
    requires e.Function?
    requires Viewed(view, e) && Tables(view, st) && Covered(ctx, e, st) && Matches(ctx, env)
    requires Handles(env, st).Some?
    ensures var v := VisitOps(ctx, e, st);
            !v.KeyError? &&
            (v.Done? ==> Extended(env, st, v.st) && Handles(env, v.st).Some? && Holds(env, v.st, v.idx, DEval(env, e)))
    decreases Size(e), 1
  {
    hide Tables, Extended, Holds, HoldsAll, Handles, Elementwise, ShiftArr, ScanArr, Matches, LogOp, ShiftOffset;
    SizeOfChildren(e);
    var fn, args := e.fn, e.args;
    if fn.UnknownFn? || (fn.Cumulative? && fn.reverse) {
    } else if fn.ShiftFn? {
      if ShiftOffset(args).Some? {
        One(view, ctx, env, st, args[0]);
        VisitThenSound(view, ctx, env, [args[0]], st, Shift, ShiftOffset(args));
      }
    } else if fn.LogFn? {
      if LogOp(args).Some? {
        One(view, ctx, env, st, args[0]);
        LogIsElementwise(args);
        VisitThenSound(view, ctx, env, [args[0]], st, LogOp(args).value, None);
      }
    } else if !fn.PowFn? || |args| == 2 {
      VisitThenSound(view, ctx, env, args, st, FnOp(fn, args), None);
    }
  }

  lemma LogIsElementwise(args: seq<Expr>)
    requires LogOp(args).Some?
    ensures LogOp(args).value in {LogE, Log2, Log10}
  {
  }

  lemma HasShiftArgs(args: seq<Expr>)
    requires ShiftOffset(args).Some?
    ensures |args| == 2
  {
  }

  lemma FirstViewed(view: nat -> Leaf, args: seq<Expr>)
    requires args != [] && ViewedAll(view, args)
    ensures Viewed(view, args[0])
  {
  }

  lemma FirstCovered(ctx: Ctx, args: seq<Expr>, st: State)
    requires args != [] && CoveredAll(ctx, args, st)
    ensures Covered(ctx, args[0], st)
  {
  }

  // ----- the analyzer -----

  /** `analyze_ir_with_columns` and, with a gather context, its gather-aware variant. */
  function Analyze(ctx: Ctx, e: Expr): Option<Graph> {
    var g := GatherLeaves(ctx, e, EMPTY_STATE);
    if g.None? then None
    else if ctx.gather.Some? && g.value.dimIdx == map[] then None
    else
      match VisitOps(ctx, e, g.value)
      case Done(st, idx) => Some(Graph(st.descriptors, st.ops, idx))
      case _ => None
  }

  lemma {:induction false} RunnableIsLaidOut(env: Env, ds: seq<Descriptor>, ops: seq<OpNode>)
    requires RunOps(env, Staged(env, ds), ops).Some?
    ensures forall i, k | 0 <= i < |ops| && 0 <= k < |ops[i].args| :: ops[i].args[k] < |ds| + i
  {
    if ops != [] {
      var m := |ops| - 1;
      RunnableIsLaidOut(env, ds, ops[..m]);
      forall i, k | 0 <= i < |ops| && 0 <= k < |ops[i].args|
        ensures ops[i].args[k] < |ds| + i
      {
        if i < m {
          assert ops[..m][i] == ops[i];
        }
      }
    }
  }

  /** Two-pass compilation preserves meaning: whatever the analyzer accepts has all inputs
      first and every op after its arguments, and running it on any staged inputs gives
      what evaluating the expression gives, although equal leaves share a slot. */
  lemma CompileSound(view: nat -> Leaf, ctx: Ctx, env: Env, e: Expr)
    requires Viewed(view, e) && Matches(ctx, env)
    ensures var g := GatherLeaves(ctx, e, EMPTY_STATE);
            g.Some? ==> !VisitOps(ctx, e, g.value).KeyError?
    ensures var a := Analyze(ctx, e);
            a.Some? ==> WellLaidOut(a.value) && RunGraph(env, a.value) == Some(DEval(env, e))
  {
    hide Viewed, Covered, DEval, Matches, VisitOps, GatherLeaves, BuildOp;
    GatherSound(view, ctx, e, EMPTY_STATE);
    var g := GatherLeaves(ctx, e, EMPTY_STATE);
    if g.Some? {
      var st := g.value;
      assert Handles(env, st) == Some(Staged(env, st.descriptors));
      VisitSound(view, ctx, env, e, st);
      var v := VisitOps(ctx, e, st);
      if v.Done? {
        RunnableIsLaidOut(env, v.st.descriptors, v.st.ops);
      }
    }
  }
}

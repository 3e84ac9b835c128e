/** The validity graph computes, row by row, whether Polars has a value there. */
module FusionValiditySound {
  import opened FusionAgreement
  import opened FusionCompile
  import opened FusionIr
  import opened FusionNullSafety
  import opened FusionNulls
  import opened FusionSound
  import opened FusionValidity
  import opened Options

  // ----- the input passes -----

  ghost predicate ValidTable(ds: seq<Descriptor>, t: map<string, nat>) {
    forall c | c in t :: Slot(ds, t[c], ValidD(c))
  }

  ghost predicate VTables(view: nat -> Leaf, st: State, validIdx: map<string, nat>) {
    Tables(view, st) && ValidTable(st.descriptors, validIdx) && Slot(st.descriptors, ONE_SLOT, LitD(1.0))
  }

  ghost predicate Named(e: Expr, t: map<string, nat>)
    decreases e
  {
    match e
    case Column(_, name) => name in t
    case Binary(_, l, r) => Named(l, t) && Named(r, t)
    case Cast(_, arg) => Named(arg, t)
    case Function(fn, args) => if fn.ShiftFn? && args != [] then Named(args[0], t) else NamedAll(args, t)
    case Ternary(_, x, y) => Named(x, t) && Named(y, t)
    case _ => true
  }

  ghost predicate NamedAll(es: seq<Expr>, t: map<string, nat>)
    decreases es
  {
    es == [] || (Named(es[0], t) && NamedAll(es[1..], t))
  }

  /** The value leaves of every condition that decides a branch are recorded. */
  ghost predicate CondCovered(ctx: Ctx, e: Expr, st: State)
    decreases e
  {
    match e
    case Binary(_, l, r) => CondCovered(ctx, l, st) && CondCovered(ctx, r, st)
    case Cast(_, arg) => CondCovered(ctx, arg, st)
    case Function(fn, args) =>
      if fn.ShiftFn? && args != [] then CondCovered(ctx, args[0], st) else CondCoveredAll(ctx, args, st)
    case Ternary(c, t, f) => Covered(ctx, c, st) && CondCovered(ctx, t, st) && CondCovered(ctx, f, st)
    case _ => true
  }

  ghost predicate CondCoveredAll(ctx: Ctx, es: seq<Expr>, st: State)
    decreases es
  {
    es == [] || (CondCovered(ctx, es[0], st) && CondCoveredAll(ctx, es[1..], st))
  }

  lemma {:induction false} NamedGrows(e: Expr, t: map<string, nat>, t': map<string, nat>)
    requires Named(e, t) && t.Keys <= t'.Keys
    ensures Named(e, t')
    decreases e
  {
    match e
    case Binary(_, l, r) =>
      NamedGrows(l, t, t');
      NamedGrows(r, t, t');
    case Cast(_, arg) => NamedGrows(arg, t, t');
    case Function(fn, args) =>
      if fn.ShiftFn? && args != [] {
        NamedGrows(args[0], t, t');
      } else {
        NamedAllGrows(args, t, t');
      }
    case Ternary(_, x, y) =>
      NamedGrows(x, t, t');
      NamedGrows(y, t, t');
    case _ =>
  }

  lemma {:induction false} NamedAllGrows(es: seq<Expr>, t: map<string, nat>, t': map<string, nat>)
    requires NamedAll(es, t) && t.Keys <= t'.Keys
    ensures NamedAll(es, t')
    decreases es
  {
    if es != [] {
      NamedGrows(es[0], t, t');
      NamedAllGrows(es[1..], t, t');
    }
  }

  lemma {:induction false} CondCoveredGrows(ctx: Ctx, e: Expr, st: State, st': State)
    requires CondCovered(ctx, e, st) && Grown(st, st')
    ensures CondCovered(ctx, e, st')
    decreases e
  {
    match e
    case Binary(_, l, r) =>
      CondCoveredGrows(ctx, l, st, st');
      CondCoveredGrows(ctx, r, st, st');
    case Cast(_, arg) => CondCoveredGrows(ctx, arg, st, st');
    case Function(fn, args) =>
      if fn.ShiftFn? && args != [] {
        CondCoveredGrows(ctx, args[0], st, st');
      } else {
        CondCoveredAllGrows(ctx, args, st, st');
      }
    case Ternary(c, t, f) =>
      CoveredGrows(ctx, c, st, st');
      CondCoveredGrows(ctx, t, st, st');
      CondCoveredGrows(ctx, f, st, st');
    case _ =>
  }

  lemma {:induction false} CondCoveredAllGrows(ctx: Ctx, es: seq<Expr>, st: State, st': State)
    requires CondCoveredAll(ctx, es, st) && Grown(st, st')
    ensures CondCoveredAll(ctx, es, st')
    decreases es
  {
    if es != [] {
      CondCoveredGrows(ctx, es[0], st, st');
      CondCoveredAllGrows(ctx, es[1..], st, st');
    }
  }

  ghost predicate VGrown(a: VState, b: VState) {
    a.st.descriptors <= b.st.descriptors && a.st.ops == b.st.ops && a.validIdx.Keys <= b.validIdx.Keys
  }

  lemma ValidStep(view: nat -> Leaf, vs: VState, name: string)
    requires VTables(view, vs.st, vs.validIdx)
    ensures var st := AddInput(vs.st, ValidD(name));
            VTables(view, st, vs.validIdx[name := |vs.st.descriptors|]) && vs.st.descriptors <= st.descriptors
  {
    hide Tables;
    TablesGrow(view, vs.st, ValidD(name));
  }

  lemma {:induction false} ValidLeavesSound(view: nat -> Leaf, e: Expr, vs: VState)
    requires VTables(view, vs.st, vs.validIdx)
    ensures var r := ValidLeaves(e, vs);
            r.Some? ==> VTables(view, r.value.st, r.value.validIdx) && VGrown(vs, r.value) && Named(e, r.value.validIdx)
    decreases e
  {
    hide VTables;
    var r := ValidLeaves(e, vs);
    if r.Some? {
      match e
      case Column(_, name) => ValidStep(view, vs, name);
      case Literal(_, _) =>
      case Binary(_, x, y) =>
        ValidLeavesSound(view, x, vs);
        var a := ValidLeaves(x, vs).value;
        ValidLeavesSound(view, y, a);
        NamedGrows(x, a.validIdx, r.value.validIdx);
      case Cast(_, arg) => ValidLeavesSound(view, arg, vs);
      case Function(fn, args) =>
        if fn.ShiftFn? {
          ValidLeavesSound(view, args[0], vs);
        } else {
          ValidLeavesAllSound(view, args, vs);
        }
      case Ternary(c, t, f) =>
        ValidLeavesSound(view, c, vs);
        var a := ValidLeaves(c, vs).value;
        ValidLeavesSound(view, t, a);
        var b := ValidLeaves(t, a).value;
        ValidLeavesSound(view, f, b);
        NamedGrows(t, b.validIdx, r.value.validIdx);
    }
  }

  lemma {:induction false} ValidLeavesAllSound(view: nat -> Leaf, es: seq<Expr>, vs: VState)
    requires VTables(view, vs.st, vs.validIdx)
    ensures var r := ValidLeavesAll(es, vs);
            r.Some? ==> VTables(view, r.value.st, r.value.validIdx) && VGrown(vs, r.value) && NamedAll(es, r.value.validIdx)
    decreases es
  {
    hide VTables;
    var r := ValidLeavesAll(es, vs);
    if r.Some? && es != [] {
      ValidLeavesSound(view, es[0], vs);
      var a := ValidLeaves(es[0], vs).value;
      ValidLeavesAllSound(view, es[1..], a);
      NamedGrows(es[0], a.validIdx, r.value.validIdx);
    }
  }

  lemma {:induction false} CondLeavesSound(view: nat -> Leaf, ctx: Ctx, e: Expr, st: State)
    requires Tables(view, st) && Viewed(view, e)
    ensures var r := CondLeaves(ctx, e, st);
            r.Some? ==> Tables(view, r.value) && Grown(st, r.value) && r.value.ops == st.ops && CondCovered(ctx, e, r.value)
    decreases e
  {
    hide Tables, GatherLeaves, Covered;
    var r := CondLeaves(ctx, e, st);
    if r.Some? {
      match e
      case Column(_, _) =>
      case Literal(_, _) =>
      case Binary(_, x, y) =>
        CondLeavesSound(view, ctx, x, st);
        var a := CondLeaves(ctx, x, st).value;
        CondLeavesSound(view, ctx, y, a);
        CondCoveredGrows(ctx, x, a, r.value);
      case Cast(_, arg) => CondLeavesSound(view, ctx, arg, st);
      case Function(fn, args) =>
        if fn.ShiftFn? {
          CondLeavesSound(view, ctx, args[0], st);
        } else {
          CondLeavesAllSound(view, ctx, args, st);
        }
      case Ternary(c, t, f) =>
        GatherSound(view, ctx, c, st);
        var a := GatherLeaves(ctx, c, st).value;
        CondLeavesSound(view, ctx, t, a);
        var b := CondLeaves(ctx, t, a).value;
        CondLeavesSound(view, ctx, f, b);
        CoveredGrows(ctx, c, a, r.value);
        CondCoveredGrows(ctx, t, b, r.value);
    }
  }

  lemma {:induction false} CondLeavesAllSound(view: nat -> Leaf, ctx: Ctx, es: seq<Expr>, st: State)
    requires Tables(view, st) && ViewedAll(view, es)
    ensures var r := CondLeavesAll(ctx, es, st);
            r.Some? ==> Tables(view, r.value) && Grown(st, r.value) && r.value.ops == st.ops && CondCoveredAll(ctx, es, r.value)
    decreases es
  {
    hide Tables;
    var r := CondLeavesAll(ctx, es, st);
    if r.Some? && es != [] {
      CondLeavesSound(view, ctx, es[0], st);
      var a := CondLeaves(ctx, es[0], st).value;
      CondLeavesAllSound(view, ctx, es[1..], a);
      CondCoveredGrows(ctx, es[0], a, r.value);
    }
  }

  // ----- the op pass -----

  lemma MulIsAnd(sem: Sem, n: nat, a: BArr, b: BArr)
    requires ArithmeticLaw(sem) && BShape(n, a) && BShape(n, b)
    ensures Elementwise(sem, n, Bin(Mul), [ToArr(a), ToArr(b)]) == ToArr(BAnd(n, a, b)) && BShape(n, BAnd(n, a, b))
  {
    hide ArithmeticLaw, Flag;
    var ds := [ToArr(a), ToArr(b)];
    assert AnyRows(ds) <==> a.BRows? || b.BRows? by {
      assert ds[0].Rows? <==> a.BRows?;
      assert ds[1].Rows? <==> b.BRows?;
    }
    forall i | 0 <= i < n || (a.BScalar? && b.BScalar?)
      ensures sem.apply(Bin(Mul), CellsAt(ds, i)) == Flag(BAt(a, i) && BAt(b, i))
    {
      MulOfFlags(sem, BAt(a, i), BAt(b, i));
      assert CellsAt(ds, i) == [Flag(BAt(a, i)), Flag(BAt(b, i))];
    }
  }

  lemma MulOfFlags(sem: Sem, x: bool, y: bool)
    requires ArithmeticLaw(sem)
    ensures sem.apply(Bin(Mul), [Flag(x), Flag(y)]) == Flag(x && y)
  {
    var a, b := if x then 1.0 else 0.0, if y then 1.0 else 0.0;
    assert sem.apply(Bin(Mul), [Num(a), Num(b)]) == Num(a * b);
  }

  lemma AndTrue(n: nat, b: BArr)
    requires BShape(n, b)
    ensures BAnd(n, BScalar(true), b) == b && BAnd(n, b, BScalar(true)) == b
  {
  }

  function ToArrs(bs: seq<BArr>): (vs: seq<Arr>)
    ensures |vs| == |bs| && forall k | 0 <= k < |bs| :: vs[k] == ToArr(bs[k])
  {
    seq(|bs|, k requires 0 <= k < |bs| => ToArr(bs[k]))
  }

  ghost predicate BShapes(n: nat, bs: seq<BArr>) {
    forall k | 0 <= k < |bs| :: BShape(n, bs[k])
  }

  /** The slot of the constant holds the constant. */
  lemma OneHolds(env: Env, st: State, b: BArr)
    requires Slot(st.descriptors, ONE_SLOT, LitD(1.0)) && Handles(env, st).Some? && Holds(env, st, ONE_SLOT, ToArr(b))
    ensures b == BScalar(true)
  {
    hide Handles;
    SlotHolds(env, st, ONE_SLOT, LitD(1.0));
  }

  lemma {:induction false} AndSound(env: Env, st: State, acc: nat, a: BArr, idxs: seq<nat>, bs: seq<BArr>)
    requires ArithmeticLaw(env.sem) && Handles(env, st).Some? && Slot(st.descriptors, ONE_SLOT, LitD(1.0))
    requires Holds(env, st, acc, ToArr(a)) && HoldsAll(env, st, idxs, ToArrs(bs))
    requires BShape(env.n, a) && BShapes(env.n, bs)
    ensures var v := ValidityAnd(st, acc, idxs);
            v.Done? && Extended(env, st, v.st) && Handles(env, v.st).Some?
            && Holds(env, v.st, v.idx, ToArr(BAndAll(env.n, a, bs))) && BShape(env.n, BAndAll(env.n, a, bs))
    decreases |idxs|
  {
    hide Handles, Holds, Extended, BAnd, ToArr, ArithmeticLaw, BShape;
    if idxs == [] {
      ExtendedSelf(env, st);
    } else {
      HoldsFirst(env, st, idxs, bs);
      if idxs[0] == ONE_SLOT {
        OneHolds(env, st, bs[0]);
        AndTrue(env.n, a);
        AndSound(env, st, acc, a, idxs[1..], bs[1..]);
      } else if acc == ONE_SLOT {
        OneHolds(env, st, a);
        AndTrue(env.n, bs[0]);
        AndSound(env, st, idxs[0], bs[0], idxs[1..], bs[1..]);
      } else {
        MulIsAnd(env.sem, env.n, a, bs[0]);
        HoldsTwo(env, st, acc, idxs[0], ToArr(a), ToArr(bs[0]));
        PushRuns(env, st, Bin(Mul), [acc, idxs[0]], None, [ToArr(a), ToArr(bs[0])]);
        var p := Push(st, Bin(Mul), [acc, idxs[0]], None);
        HoldsAllLater(env, st, p.st, idxs[1..], ToArrs(bs[1..]));
        AndSound(env, p.st, p.idx, BAnd(env.n, a, bs[0]), idxs[1..], bs[1..]);
        ExtendedTrans(env, st, p.st, ValidityAnd(p.st, p.idx, idxs[1..]).st);
      }
    }
  }

  lemma HoldsFirst(env: Env, st: State, idxs: seq<nat>, bs: seq<BArr>)
    requires idxs != [] && HoldsAll(env, st, idxs, ToArrs(bs))
    ensures |bs| == |idxs| && Holds(env, st, idxs[0], ToArr(bs[0])) && HoldsAll(env, st, idxs[1..], ToArrs(bs[1..]))
  {
    hide Holds, ToArr;
    assert ToArrs(bs[1..]) == ToArrs(bs)[1..];
  }

  lemma HoldsAllLater(env: Env, st: State, st': State, idxs: seq<nat>, vs: seq<Arr>)
    requires Handles(env, st).Some? && Extended(env, st, st') && HoldsAll(env, st, idxs, vs)
    ensures HoldsAll(env, st', idxs, vs)
  {
    hide Handles, Holds, Extended;
    forall k | 0 <= k < |idxs|
      ensures Holds(env, st', idxs[k], vs[k])
    {
      HoldsLater(env, st, st', idxs[k], vs[k]);
    }
  }

  lemma ShiftIsShift(b: BArr, w: nat)
    ensures ShiftArr(ToArr(b), w) == ToArr(BShift(b, w))
  {
  }

  lemma WhereIsWhere(n: nat, c: Arr, t: BArr, e: BArr)
    requires BShape(n, t) && BShape(n, e)
    ensures WhereArr(n, c, ToArr(t), ToArr(e)) == ToArr(BWhere(n, c, t, e)) && BShape(n, BWhere(n, c, t, e))
  {
    var ds := [c, ToArr(t), ToArr(e)];
    assert AnyRows(ds) <==> c.Rows? || t.BRows? || e.BRows? by {
      assert ds[0].Rows? <==> c.Rows?;
      assert ds[1].Rows? <==> t.BRows?;
      assert ds[2].Rows? <==> e.BRows?;
    }
    assert forall i | 0 <= i < n :: At(ToArr(t), i) == Flag(BAt(t, i)) && At(ToArr(e), i) == Flag(BAt(e, i));
  }

  /** The premises every step of pass 2 carries along. */
  ghost predicate VReady(view: nat -> Leaf, ctx: Ctx, sem: Sem, frame: Frame, validIdx: map<string, nat>, st: State) {
    VTables(view, st, validIdx) && ctx.gather.None? && Handles(FrameEnv(sem, frame), st).Some? &&
    ArithmeticLaw(sem) && FrameShape(frame)
  }

  ghost predicate VResult(sem: Sem, frame: Frame, e: Expr, st: State, v: Visit) {
    var env := FrameEnv(sem, frame);
    v.Aborted? ||
    (v.Done? && Extended(env, st, v.st) && Handles(env, v.st).Some? && Holds(env, v.st, v.idx, ToArr(BEval(sem, frame, e)))
     && BShape(frame.n, BEval(sem, frame, e)))
  }

  ghost predicate VResults(sem: Sem, frame: Frame, es: seq<Expr>, st: State, v: VisitMany) {
    var env := FrameEnv(sem, frame);
    v.AbortedAll? ||
    (v.DoneAll? && Extended(env, st, v.st) && Handles(env, v.st).Some?
     && HoldsAll(env, v.st, v.idxs, ToArrs(BEvalAll(sem, frame, es))) && BShapes(frame.n, BEvalAll(sem, frame, es)))
  }

  lemma ReadyLater(view: nat -> Leaf, ctx: Ctx, sem: Sem, frame: Frame, validIdx: map<string, nat>, st: State, st': State)
    requires VReady(view, ctx, sem, frame, validIdx, st) && Extended(FrameEnv(sem, frame), st, st')
    ensures VReady(view, ctx, sem, frame, validIdx, st')
  {
    hide Handles, ArithmeticLaw, FrameShape;
  }

  lemma CondCoveredLater(ctx: Ctx, es: seq<Expr>, env: Env, st: State, st': State)
    requires CondCoveredAll(ctx, es, st) && Extended(env, st, st')
    ensures CondCoveredAll(ctx, es, st')
  {
    CondCoveredAllGrows(ctx, es, st, st');
  }

  /** Pass 2 never misses an input, and its slot evaluates to the validity of the expression. */
  lemma {:induction false} VisitValiditySound(view: nat -> Leaf, ctx: Ctx, sem: Sem, frame: Frame, clean: bool,
                                              validIdx: map<string, nat>, e: Expr, st: State)
    requires Viewed(view, e) && Named(e, validIdx) && CondCovered(ctx, e, st)
    requires VReady(view, ctx, sem, frame, validIdx, st)
    ensures VResult(sem, frame, e, st, VisitValidity(ctx, clean, validIdx, e, st))
    decreases Size(e), 2
  {
    hide VReady, Extended, Handles, Holds, HoldsAll, BShape, BShapes, ToArr, BShift, BWhere, BAndAll, DEval,
      Covered, VisitOps, ValidityAnd, VisitBoth, VisitEach, NamedAll, CondCoveredAll, ViewedAll, BEvalAll, ShiftOffset;
    SizeOfChildren(e);
    match e
    case Column(_, _) => ValidColumn(view, ctx, sem, frame, validIdx, e, st);
    case Literal(_, _) => ValidLiteral(view, ctx, sem, frame, validIdx, e, st);
    case Binary(op, l, r) =>
      VPair(view, ctx, sem, frame, validIdx, st, l, r);
      VisitBothSound(view, ctx, sem, frame, clean, validIdx, [l, r], st);
    case Cast(_, arg) => VisitValiditySound(view, ctx, sem, frame, clean, validIdx, arg, st);
    case Function(fn, args) =>
      if fn.ShiftFn? {
        if ShiftOffset(args).Some? {
          FirstIsSmaller(args);
          FirstViewed(view, args);
          VisitValiditySound(view, ctx, sem, frame, clean, validIdx, args[0], st);
          ValidShift(view, ctx, sem, frame, clean, validIdx, e, st);
        }
      } else {
        VisitBothSound(view, ctx, sem, frame, clean, validIdx, args, st);
      }
    case Ternary(c, t, f) => ValidTernary(view, ctx, sem, frame, clean, validIdx, e, st);
    case _ =>
  }

  lemma ValidColumn(view: nat -> Leaf, ctx: Ctx, sem: Sem, frame: Frame, validIdx: map<string, nat>, e: Expr, st: State)
    requires e.Column? && e.name in validIdx && VReady(view, ctx, sem, frame, validIdx, st)
    ensures VResult(sem, frame, e, st, Done(st, validIdx[e.name]))
  {
    hide Handles, Holds, Extended, Tables, ArithmeticLaw;
    var env := FrameEnv(sem, frame);
    ExtendedSelf(env, st);
    SlotHolds(env, st, validIdx[e.name], ValidD(e.name));
    assert |frame.col(e.name)| == frame.n;
    assert env.valid(e.name) == ToArr(BEval(sem, frame, e));
  }

  lemma ValidLiteral(view: nat -> Leaf, ctx: Ctx, sem: Sem, frame: Frame, validIdx: map<string, nat>, e: Expr, st: State)
    requires e.Literal? && VReady(view, ctx, sem, frame, validIdx, st)
    ensures VResult(sem, frame, e, st, Done(st, ONE_SLOT))
  {
    hide Handles, Holds, Extended, Tables, ArithmeticLaw;
    var env := FrameEnv(sem, frame);
    ExtendedSelf(env, st);
    SlotHolds(env, st, ONE_SLOT, LitD(1.0));
  }

  lemma ValidShift(view: nat -> Leaf, ctx: Ctx, sem: Sem, frame: Frame, clean: bool, validIdx: map<string, nat>,
                   e: Expr, st: State)
    requires e.Function? && e.fn.ShiftFn? && ShiftOffset(e.args).Some?
    requires VResult(sem, frame, e.args[0], st, VisitValidity(ctx, clean, validIdx, e.args[0], st))
    ensures VResult(sem, frame, e, st, VisitValidity(ctx, clean, validIdx, e, st))
  {
    hide Handles, Holds, Extended, BEvalAll, VisitBoth, BAndAll, ToArr, HoldsAll, Size, SizeAll;
    var env := FrameEnv(sem, frame);
    var v := VisitValidity(ctx, clean, validIdx, e.args[0], st);
    if v.Done? {
      var b := BEval(sem, frame, e.args[0]);
      var w := ShiftOffset(e.args).value;
      ShiftIsShift(b, w);
      HoldsOne(env, v.st, v.idx, ToArr(b));
      PushRuns(env, v.st, Shift, [v.idx], Some(w), [ToArr(b)]);
      ExtendedTrans(env, st, v.st, Push(v.st, Shift, [v.idx], Some(w)).st);
    }
  }

  lemma HoldsOne(env: Env, st: State, i: nat, v: Arr)
    requires Holds(env, st, i, v)
    ensures HoldsAll(env, st, [i], [v])
  {
  }

  lemma VPair(view: nat -> Leaf, ctx: Ctx, sem: Sem, frame: Frame, t: map<string, nat>, st: State, a: Expr, b: Expr)
    ensures ViewedAll(view, [a, b]) <==> Viewed(view, a) && Viewed(view, b)
    ensures NamedAll([a, b], t) <==> Named(a, t) && Named(b, t)
    ensures CondCoveredAll(ctx, [a, b], st) <==> CondCovered(ctx, a, st) && CondCovered(ctx, b, st)
    ensures BEvalAll(sem, frame, [a, b]) == [BEval(sem, frame, a), BEval(sem, frame, b)]
  {
    hide Viewed, Named, CondCovered, BEval;
    assert [a, b][1..] == [b] && [b][1..] == [];
    assert BEvalAll(sem, frame, [b]) == [BEval(sem, frame, b)];
    assert NamedAll([b], t) <==> Named(b, t);
    assert ViewedAll(view, [b]) <==> Viewed(view, b);
    assert CondCoveredAll(ctx, [b], st) <==> CondCovered(ctx, b, st);
  }

  lemma {:induction false} VisitBothSound(view: nat -> Leaf, ctx: Ctx, sem: Sem, frame: Frame, clean: bool,
                                          validIdx: map<string, nat>, es: seq<Expr>, st: State)
    requires ViewedAll(view, es) && NamedAll(es, validIdx) && CondCoveredAll(ctx, es, st)
    requires VReady(view, ctx, sem, frame, validIdx, st)
    ensures var v := VisitBoth(ctx, clean, validIdx, es, st);
            var env := FrameEnv(sem, frame);
            var b := BAndAll(frame.n, BScalar(true), BEvalAll(sem, frame, es));
            v.Aborted? ||
            (v.Done? && Extended(env, st, v.st) && Handles(env, v.st).Some? && Holds(env, v.st, v.idx, ToArr(b)) && BShape(frame.n, b))
    decreases SizeAll(es), 1
  {
    hide Handles, Holds, Extended, HoldsAll, BShapes, BAndAll, BEvalAll, ValidityAnd, Tables, VisitEach, ArithmeticLaw;
    VisitEachSound(view, ctx, sem, frame, clean, validIdx, es, st);
    var v := VisitEach(ctx, clean, validIdx, es, st);
    if v.DoneAll? {
      var env := FrameEnv(sem, frame);
      ReadyLater(view, ctx, sem, frame, validIdx, st, v.st);
      SlotHolds(env, v.st, ONE_SLOT, LitD(1.0));
      AndSound(env, v.st, ONE_SLOT, BScalar(true), v.idxs, BEvalAll(sem, frame, es));
      ExtendedTrans(env, st, v.st, ValidityAnd(v.st, ONE_SLOT, v.idxs).st);
    }
  }

  lemma {:induction false} VisitEachSound(view: nat -> Leaf, ctx: Ctx, sem: Sem, frame: Frame, clean: bool,
                                          validIdx: map<string, nat>, es: seq<Expr>, st: State)
    requires ViewedAll(view, es) && NamedAll(es, validIdx) && CondCoveredAll(ctx, es, st)
    requires VReady(view, ctx, sem, frame, validIdx, st)
    ensures VResults(sem, frame, es, st, VisitEach(ctx, clean, validIdx, es, st))
    decreases SizeAll(es), 0
  {
    hide VReady, Handles, Holds, Extended, HoldsAll, BShape, BEval, Viewed, Named, CondCovered, VisitValidity, ToArr, Size,
      FrameEnv;
    var env := FrameEnv(sem, frame);
    if es == [] {
      ExtendedSelf(env, st);
      HoldsNone(env, st);
      ReadyHandles(view, ctx, sem, frame, validIdx, st);
    } else {
      VisitValiditySound(view, ctx, sem, frame, clean, validIdx, es[0], st);
      var v := VisitValidity(ctx, clean, validIdx, es[0], st);
      if v.Done? {
        ReadyLater(view, ctx, sem, frame, validIdx, st, v.st);
        CondCoveredLater(ctx, es[1..], env, st, v.st);
        VisitEachSound(view, ctx, sem, frame, clean, validIdx, es[1..], v.st);
        var rest := VisitEach(ctx, clean, validIdx, es[1..], v.st);
        if rest.DoneAll? {
          ExtendedTrans(env, st, v.st, rest.st);
          var b, bs := BEval(sem, frame, es[0]), BEvalAll(sem, frame, es[1..]);
          HoldsCons(env, v.st, rest.st, v.idx, ToArr(b), rest.idxs, ToArrs(bs));
          assert ToArrs([b] + bs) == [ToArr(b)] + ToArrs(bs);
        }
      }
    }
  }

  lemma ReadyHandles(view: nat -> Leaf, ctx: Ctx, sem: Sem, frame: Frame, validIdx: map<string, nat>, st: State)
    requires VReady(view, ctx, sem, frame, validIdx, st)
    ensures Handles(FrameEnv(sem, frame), st).Some?
    ensures Tables(view, st) && Matches(ctx, FrameEnv(sem, frame))
  {
  }

  lemma {:induction false} ValidTernary(view: nat -> Leaf, ctx: Ctx, sem: Sem, frame: Frame, clean: bool,
                                        validIdx: map<string, nat>, e: Expr, st: State)
    requires e.Ternary? && Viewed(view, e) && Named(e, validIdx) && CondCovered(ctx, e, st)
    requires VReady(view, ctx, sem, frame, validIdx, st)
    ensures VResult(sem, frame, e, st, VisitValidity(ctx, clean, validIdx, e, st))
    decreases Size(e), 1
  {
    hide VReady, Handles, Holds, Extended, HoldsAll, BShape, DEval, VisitOps, ToArr, Covered, Tables, Matches,
      CondCoveredAll, NamedAll, ViewedAll, BEvalAll, VisitEach;
    var env := FrameEnv(sem, frame);
    ReadyHandles(view, ctx, sem, frame, validIdx, st);
    VisitSound(view, ctx, env, e.cond, st);
    var v := VisitOps(ctx, e.cond, st);
    if v.Done? {
      ReadyLater(view, ctx, sem, frame, validIdx, st, v.st);
      VPair(view, ctx, sem, frame, validIdx, st, e.yes, e.no);
      CondCoveredLater(ctx, [e.yes, e.no], env, st, v.st);
      PairIsSmaller(e.cond, e.yes, e.no);
      VisitEachSound(view, ctx, sem, frame, clean, validIdx, [e.yes, e.no], v.st);
      TernaryPush(sem, frame, e, st, v, VisitEach(ctx, clean, validIdx, [e.yes, e.no], v.st));
    }
  }

  lemma TernaryPush(sem: Sem, frame: Frame, e: Expr, st: State, v: Visit, w: VisitMany)
    requires e.Ternary? && v.Done? && VResults(sem, frame, [e.yes, e.no], v.st, w)
    requires BEvalAll(sem, frame, [e.yes, e.no]) == [BEval(sem, frame, e.yes), BEval(sem, frame, e.no)]
    requires Extended(FrameEnv(sem, frame), st, v.st) && Handles(FrameEnv(sem, frame), v.st).Some?
    requires Holds(FrameEnv(sem, frame), v.st, v.idx, DEval(FrameEnv(sem, frame), e.cond))
    ensures w.DoneAll? ==> VResult(sem, frame, e, st, Push(w.st, Where, [v.idx] + w.idxs, None))
  {
    hide Handles, Holds, Extended, HoldsAll, BShape, DEval, ToArr, BWhere;
    if w.DoneAll? {
      var env := FrameEnv(sem, frame);
      var c, t, f := DEval(env, e.cond), BEval(sem, frame, e.yes), BEval(sem, frame, e.no);
      var bs := [t, f];
      assert BShape(frame.n, bs[0]) && BShape(frame.n, bs[1]);
      WhereIsWhere(frame.n, c, t, f);
      HoldsCons(env, v.st, w.st, v.idx, c, w.idxs, ToArrs(bs));
      assert [c] + ToArrs(bs) == [c, ToArr(t), ToArr(f)];
      PushRuns(env, w.st, Where, [v.idx] + w.idxs, None, [c, ToArr(t), ToArr(f)]);
      ExtendedTrans(env, st, v.st, w.st);
      ExtendedTrans(env, st, w.st, Push(w.st, Where, [v.idx] + w.idxs, None).st);
    }
  }

  /** Whatever graph `analyze_ir_validity` builds evaluates to the validity of the expression. */
  lemma ValidityGraphSound(view: nat -> Leaf, ctx: Ctx, sem: Sem, frame: Frame, clean: bool, e: Expr)
    requires Viewed(view, e) && ctx.gather.None? && ArithmeticLaw(sem) && FrameShape(frame)
    ensures var g := AnalyzeValidity(ctx, clean, e);
            g.Some? ==> WellLaidOut(g.value) && RunGraph(FrameEnv(sem, frame), g.value) == Some(ToArr(BEval(sem, frame, e)))
                        && BShape(frame.n, BEval(sem, frame, e))
    ensures ValidLeaves(e, INITIAL).Some? ==>
      var a := ValidLeaves(e, INITIAL).value;
      CondLeaves(ctx, e, a.st).Some? ==> !VisitValidity(ctx, clean, a.validIdx, e, CondLeaves(ctx, e, a.st).value).KeyError?
  {
    hide Viewed, Named, CondCovered, VisitValidity, ValidLeaves, CondLeaves, ToArr, BEval, BuildOp, Tables, BShape,
      ArithmeticLaw, FrameShape;
    var env := FrameEnv(sem, frame);
    InitialTables(view);
    ValidLeavesSound(view, e, INITIAL);
    var a := ValidLeaves(e, INITIAL);
    if a.Some? {
      CondLeavesSound(view, ctx, e, a.value.st);
      var b := CondLeaves(ctx, e, a.value.st);
      if b.Some? {
        var st := b.value;
        assert Handles(env, st) == Some(Staged(env, st.descriptors));
        assert ValidTable(st.descriptors, a.value.validIdx);
        VisitValiditySound(view, ctx, sem, frame, clean, a.value.validIdx, e, st);
        var v := VisitValidity(ctx, clean, a.value.validIdx, e, st);
        if v.Done? {
          RunnableIsLaidOut(env, v.st.descriptors, v.st.ops);
        }
      }
    }
  }

  lemma InitialTables(view: nat -> Leaf)
    ensures VTables(view, INITIAL.st, INITIAL.validIdx)
  {
  }
}

/** The shader library's pipeline cache under any interleaving of threads: check under the lock,
    build without it, then insert or reuse under the lock. */
module PipelineCache {
  import opened Options

  /** A call of `pipeline(entry)`, and how far it has come. Pipelines are told apart by identity. */
  datatype Phase = Started | Missed | Built(own: nat) | Returned(pso: nat) | Failed

  datatype Call = Call(entry: string, phase: Phase)

  /** `next` is the identity of the next pipeline object to be built. */
  datatype World = World(cache: map<string, nat>, calls: seq<Call>, next: nat)

  const INITIAL := World(map[], [], 0)

  datatype Step =
    | Enter(entry: string)
    | Check(i: nat)
    | Build(i: nat, ok: bool)
    | Publish(i: nat)

  function SetPhase(w: World, i: nat, p: Phase): World
    requires i < |w.calls|
  {
    w.(calls := w.calls[i := w.calls[i].(phase := p)])
  }

  /** One atomic step; a step that is not enabled changes nothing. */
  function Next(w: World, s: Step): World {
    match s
    case Enter(e) => w.(calls := w.calls + [Call(e, Started)])
    case Check(i) =>
      if i < |w.calls| && w.calls[i].phase.Started? then
        var e := w.calls[i].entry;
        SetPhase(w, i, if e in w.cache then Returned(w.cache[e]) else Missed)
      else w
    case Build(i, ok) =>
      if i < |w.calls| && w.calls[i].phase.Missed? then
        if ok then SetPhase(w, i, Built(w.next)).(next := w.next + 1) else SetPhase(w, i, Failed)
      else w
    case Publish(i) =>
      if i < |w.calls| && w.calls[i].phase.Built? then
        var e := w.calls[i].entry;
        var cache := if e in w.cache then w.cache else w.cache[e := w.calls[i].phase.own];
        SetPhase(w, i, Returned(cache[e])).(cache := cache)
      else w
  }

  function Run(w: World, steps: seq<Step>): World {
    if steps == [] then w else Next(Run(w, steps[..|steps| - 1]), steps[|steps| - 1])
  }

  /** Every returned pipeline is the cached one. */
  ghost predicate Agree(w: World) {
    forall i | 0 <= i < |w.calls| && w.calls[i].phase.Returned? ::
      w.calls[i].entry in w.cache && w.cache[w.calls[i].entry] == w.calls[i].phase.pso
  }

  /** The cache and the calls hold objects that have been built. */
  ghost predicate AlreadyBuilt(w: World) {
    (forall e | e in w.cache :: w.cache[e] < w.next) &&
    forall i | 0 <= i < |w.calls| && w.calls[i].phase.Built? :: w.calls[i].phase.own < w.next
  }

  /** No object serves two entries or two calls. */
  ghost predicate Unshared(w: World) {
    (forall i, e | 0 <= i < |w.calls| && w.calls[i].phase.Built? && e in w.cache :: w.cache[e] != w.calls[i].phase.own) &&
    (forall i, j | 0 <= i < j < |w.calls| && w.calls[i].phase.Built? && w.calls[j].phase.Built? ::
      w.calls[i].phase.own != w.calls[j].phase.own) &&
    forall d, e | d in w.cache && e in w.cache && d != e :: w.cache[d] != w.cache[e]
  }

  ghost predicate Consistent(w: World) {
    Agree(w) && AlreadyBuilt(w) && Unshared(w)
  }

  lemma StepGrows(w: World, s: Step)
    ensures forall e | e in w.cache :: e in Next(w, s).cache && Next(w, s).cache[e] == w.cache[e]
    ensures |w.calls| <= |Next(w, s).calls|
    ensures forall i | 0 <= i < |w.calls| && w.calls[i].phase.Returned? :: Next(w, s).calls[i] == w.calls[i]
  {
  }

  lemma StepAgrees(w: World, s: Step)
    requires Agree(w)
    ensures Agree(Next(w, s))
  {
  }

  lemma StepBuilt(w: World, s: Step)
    requires AlreadyBuilt(w)
    ensures AlreadyBuilt(Next(w, s))
  {
  }

  lemma BuildUnshared(w: World, i: nat)
    requires AlreadyBuilt(w) && Unshared(w) && i < |w.calls| && w.calls[i].phase.Missed?
    ensures Unshared(SetPhase(w, i, Built(w.next)).(next := w.next + 1))
  {
    var v := SetPhase(w, i, Built(w.next)).(next := w.next + 1);
    assert forall k | 0 <= k < |v.calls| && k != i :: v.calls[k] == w.calls[k];
  }

  lemma PublishUnshared(w: World, i: nat)
    requires AlreadyBuilt(w) && Unshared(w) && i < |w.calls| && w.calls[i].phase.Built?
    ensures Unshared(Next(w, Publish(i)))
  {
    var v, e := Next(w, Publish(i)), w.calls[i].entry;
    assert forall k | 0 <= k < |v.calls| && v.calls[k].phase.Built? :: v.calls[k] == w.calls[k] && k != i;
    assert forall d | d in v.cache :: d in w.cache || (d == e && v.cache[d] == w.calls[i].phase.own);
  }

  /** A call that leaves a phase without taking an object shares nothing new. */
  lemma OtherUnshared(w: World, i: nat, p: Phase)
    requires Unshared(w) && i < |w.calls| && !p.Built?
    ensures Unshared(SetPhase(w, i, p))
  {
    var v := SetPhase(w, i, p);
    assert forall k | 0 <= k < |v.calls| && v.calls[k].phase.Built? :: v.calls[k] == w.calls[k];
  }

  lemma StepUnshared(w: World, s: Step)
    requires AlreadyBuilt(w) && Unshared(w)
    ensures Unshared(Next(w, s))
  {
    match s
    case Enter(e) =>
      var v := Next(w, s);
      assert forall k | 0 <= k < |v.calls| && v.calls[k].phase.Built? :: k < |w.calls| && v.calls[k] == w.calls[k];
    case Check(i) =>
      hide Unshared, AlreadyBuilt;
      if i < |w.calls| && w.calls[i].phase.Started? {
        var e := w.calls[i].entry;
        OtherUnshared(w, i, if e in w.cache then Returned(w.cache[e]) else Missed);
      }
    case Build(i, ok) =>
      hide Unshared, AlreadyBuilt;
      if i < |w.calls| && w.calls[i].phase.Missed? {
        BuildUnshared(w, i);
        OtherUnshared(w, i, Failed);
      }
    case Publish(i) =>
      hide Unshared, AlreadyBuilt;
      if i < |w.calls| && w.calls[i].phase.Built? {
        PublishUnshared(w, i);
      }
  }

  lemma StepKeeps(w: World, s: Step)
    requires Consistent(w)
    ensures Consistent(Next(w, s))
  {
    hide Agree, AlreadyBuilt, Unshared, Next;
    StepAgrees(w, s);
    StepBuilt(w, s);
    StepUnshared(w, s);
  }

  lemma {:induction false} RunKeeps(w: World, steps: seq<Step>)
    requires Consistent(w)
    ensures Consistent(Run(w, steps))
  {
    hide Consistent, Next;
    if steps != [] {
      RunKeeps(w, steps[..|steps| - 1]);
      StepKeeps(Run(w, steps[..|steps| - 1]), steps[|steps| - 1]);
    }
  }

  /** In every run, a cached entry never changes afterwards. */
  lemma {:induction false} CachedForever(w: World, steps: seq<Step>, e: string)
    requires Consistent(w) && e in w.cache
    ensures e in Run(w, steps).cache && Run(w, steps).cache[e] == w.cache[e]
  {
    hide Consistent, Next;
    if steps != [] {
      var before := steps[..|steps| - 1];
      CachedForever(w, before, e);
      RunKeeps(w, before);
      StepGrows(Run(w, before), steps[|steps| - 1]);
    }
  }

  /** In every interleaving, all successful calls for one entry point return one object, and calls
      for different entry points return different ones. */
  lemma SameObject(steps: seq<Step>, i: nat, j: nat)
    requires var w := Run(INITIAL, steps);
             i < |w.calls| && j < |w.calls| && w.calls[i].phase.Returned? && w.calls[j].phase.Returned?
    ensures var w := Run(INITIAL, steps);
            w.calls[i].phase.pso == w.calls[j].phase.pso <==> w.calls[i].entry == w.calls[j].entry
  {
    hide Run;
    RunKeeps(INITIAL, steps);
  }

  // ----- how often an entry point is built -----

  /** Call `i` finds nothing in the cache. */
  predicate MissesNow(w: World, s: Step, i: nat) {
    s == Check(i) && i < |w.calls| && w.calls[i].phase.Started? && w.calls[i].entry !in w.cache
  }

  /** Call `i` builds a pipeline. */
  predicate BuildsNow(w: World, s: Step, i: nat) {
    s == Build(i, true) && i < |w.calls| && w.calls[i].phase.Missed?
  }

  predicate HasMissed(steps: seq<Step>, i: nat) {
    steps != [] && (HasMissed(steps[..|steps| - 1], i) || MissesNow(Run(INITIAL, steps[..|steps| - 1]), steps[|steps| - 1], i))
  }

  predicate HasBuilt(steps: seq<Step>, i: nat) {
    steps != [] && (HasBuilt(steps[..|steps| - 1], i) || BuildsNow(Run(INITIAL, steps[..|steps| - 1]), steps[|steps| - 1], i))
  }

  /** The number of pipelines built for an entry point. */
  function BuildCount(steps: seq<Step>, e: string): nat {
    if steps == [] then 0
    else
      var m := |steps| - 1;
      var w := Run(INITIAL, steps[..m]);
      BuildCount(steps[..m], e)
      + if steps[m].Build? && BuildsNow(w, steps[m], steps[m].i) && w.calls[steps[m].i].entry == e then 1 else 0
  }

  predicate For(w: World, i: nat, e: string) {
    i < |w.calls| && w.calls[i].entry == e
  }

  /** Between a miss and its end. */
  predicate InFlight(w: World, i: nat) {
    i < |w.calls| && (w.calls[i].phase.Missed? || w.calls[i].phase.Built?)
  }

  /** What a call's phase says about its past. */
  predicate PhaseTells(missed: bool, built: bool, w: World, i: nat) {
    (InFlight(w, i) || (i < |w.calls| && w.calls[i].phase.Failed?) ==> missed) &&
    (missed ==> i < |w.calls| && !w.calls[i].phase.Started?) &&
    (built ==> missed && (w.calls[i].phase.Built? || w.calls[i].phase.Returned?)) &&
    (i < |w.calls| && w.calls[i].phase.Built? ==> built) &&
    (missed && w.calls[i].phase.Returned? ==> w.calls[i].entry in w.cache && built)
  }

  lemma PhaseStep(w: World, s: Step, i: nat, missed: bool, built: bool)
    requires PhaseTells(missed, built, w, i)
    ensures PhaseTells(missed || MissesNow(w, s, i), built || BuildsNow(w, s, i), Next(w, s), i)
  {
    var v := Next(w, s);
    match s
    case Enter(_) => assert i < |w.calls| ==> v.calls[i] == w.calls[i];
    case Check(k) => assert i < |w.calls| && k != i ==> v.calls[i] == w.calls[i];
    case Build(k, _) => assert i < |w.calls| && k != i ==> v.calls[i] == w.calls[i];
    case Publish(k) => assert i < |w.calls| && k != i ==> v.calls[i] == w.calls[i];
  }

  lemma {:induction false} PhasesTell(steps: seq<Step>, i: nat)
    ensures PhaseTells(HasMissed(steps, i), HasBuilt(steps, i), Run(INITIAL, steps), i)
  {
    hide Next, PhaseTells, MissesNow, BuildsNow;
    if steps == [] {
      NothingToTell(i);
    } else {
      var m := |steps| - 1;
      PhasesTell(steps[..m], i);
      PhaseStep(Run(INITIAL, steps[..m]), steps[m], i, HasMissed(steps[..m], i), HasBuilt(steps[..m], i));
    }
  }

  lemma NothingToTell(i: nat)
    ensures PhaseTells(false, false, INITIAL, i)
  {
  }

  lemma StepStays(w: World, s: Step, i: nat)
    requires i < |w.calls|
    ensures var v := Next(w, s);
            i < |v.calls| && v.calls[i].entry == w.calls[i].entry && (w.calls[i].phase.Failed? ==> v.calls[i].phase.Failed?)
  {
  }

  /** Calls keep their entry points, and a failed call stays failed. */
  lemma {:induction false} CallsStay(steps: seq<Step>, t: nat, i: nat)
    requires t <= |steps| && i < |Run(INITIAL, steps[..t]).calls|
    ensures var v, w := Run(INITIAL, steps[..t]), Run(INITIAL, steps);
            i < |w.calls| && w.calls[i].entry == v.calls[i].entry && (v.calls[i].phase.Failed? ==> w.calls[i].phase.Failed?)
            && (HasBuilt(steps[..t], i) ==> HasBuilt(steps, i))
    decreases |steps|
  {
    hide Next, BuildsNow;
    if t == |steps| {
      assert steps[..t] == steps;
    } else {
      var m := |steps| - 1;
      assert steps[..m][..t] == steps[..t];
      CallsStay(steps[..m], t, i);
      StepStays(Run(INITIAL, steps[..m]), steps[m], i);
    }
  }

  /** A call in flight ends by building, by failing, or has not ended. */
  lemma InFlightEnds(steps: seq<Step>, t: nat, i: nat)
    requires t <= |steps| && InFlight(Run(INITIAL, steps[..t]), i)
    ensures var w := Run(INITIAL, steps); i < |w.calls| && (w.calls[i].phase.Missed? || w.calls[i].phase.Failed? || HasBuilt(steps, i))
  {
    hide Run, HasMissed, HasBuilt;
    CallsStay(steps, t, i);
    PhasesTell(steps[..t], i);
    MissedStays(steps, t, i);
    PhasesTell(steps, i);
  }

  lemma {:induction false} MissedStays(steps: seq<Step>, t: nat, i: nat)
    requires t <= |steps| && HasMissed(steps[..t], i)
    ensures HasMissed(steps, i)
    decreases |steps|
  {
    if t == |steps| {
      assert steps[..t] == steps;
    } else {
      var m := |steps| - 1;
      assert steps[..m][..t] == steps[..t];
      MissedStays(steps[..m], t, i);
    }
  }

  /** Two calls for one entry point that both missed, and did not fail, were once in flight together. */
  lemma {:induction false} MissedTogether(steps: seq<Step>, i: nat, j: nat, e: string) returns (t: nat)
    requires var w := Run(INITIAL, steps);
             i != j && For(w, i, e) && For(w, j, e) && !w.calls[i].phase.Failed? && !w.calls[j].phase.Failed?
    requires HasMissed(steps, i) && HasMissed(steps, j)
    ensures t <= |steps| && InFlight(Run(INITIAL, steps[..t]), i) && InFlight(Run(INITIAL, steps[..t]), j)
  {
    var m := |steps| - 1;
    var before := steps[..m];
    if HasMissed(before, i) && HasMissed(before, j) {
      EarlierCall(steps, i);
      EarlierCall(steps, j);
      t := MissedTogether(before, i, j, e);
      assert before[..t] == steps[..t];
    } else {
      t := |steps|;
      assert steps[..t] == steps;
      if HasMissed(before, j) {
        MissMeets(steps, i, j, e);
      } else {
        MissMeets(steps, j, i, e);
      }
    }
  }

  lemma EarlierCall(steps: seq<Step>, i: nat)
    requires steps != [] && HasMissed(steps[..|steps| - 1], i)
    ensures var v, w := Run(INITIAL, steps[..|steps| - 1]), Run(INITIAL, steps);
            i < |v.calls| && i < |w.calls| && w.calls[i].entry == v.calls[i].entry
            && (v.calls[i].phase.Failed? ==> w.calls[i].phase.Failed?)
  {
    hide Run, HasMissed, HasBuilt;
    PhasesTell(steps[..|steps| - 1], i);
    CallsStay(steps, |steps| - 1, i);
  }

  /** A call that misses now meets every earlier one for its entry point still in flight. */
  lemma MissMeets(steps: seq<Step>, i: nat, j: nat, e: string)
    requires steps != [] && i != j && HasMissed(steps[..|steps| - 1], j) && !HasMissed(steps[..|steps| - 1], i) && HasMissed(steps, i)
    requires var w := Run(INITIAL, steps); For(w, i, e) && For(w, j, e) && !w.calls[j].phase.Failed?
    ensures InFlight(Run(INITIAL, steps), i) && InFlight(Run(INITIAL, steps), j)
  {
    var m := |steps| - 1;
    PhasesTell(steps[..m], j);
    EarlierCall(steps, j);
  }

  // ----- counting -----

  lemma {:induction false} BuilderCounts(steps: seq<Step>, i: nat, e: string)
    requires HasBuilt(steps, i) && For(Run(INITIAL, steps), i, e)
    ensures BuildCount(steps, e) >= 1
  {
    var m := |steps| - 1;
    if HasBuilt(steps[..m], i) {
      PhasesTell(steps[..m], i);
      CallsStay(steps, m, i);
      BuilderCounts(steps[..m], i, e);
    }
  }

  lemma {:induction false} BuildersCount(steps: seq<Step>, i: nat, j: nat, e: string)
    requires i != j && HasBuilt(steps, i) && HasBuilt(steps, j) && For(Run(INITIAL, steps), i, e) && For(Run(INITIAL, steps), j, e)
    ensures BuildCount(steps, e) >= 2
  {
    var m := |steps| - 1;
    PhasesTell(steps[..m], i);
    PhasesTell(steps[..m], j);
    if HasBuilt(steps[..m], i) {
      CallsStay(steps, m, i);
      BuilderCounts(steps[..m], i, e);
    }
    if HasBuilt(steps[..m], j) {
      CallsStay(steps, m, j);
      BuilderCounts(steps[..m], j, e);
    }
    if HasBuilt(steps[..m], i) && HasBuilt(steps[..m], j) {
      BuildersCount(steps[..m], i, j, e);
    }
  }

  lemma {:induction false} CountHasBuilder(steps: seq<Step>, e: string) returns (i: nat)
    requires BuildCount(steps, e) >= 1
    ensures HasBuilt(steps, i) && For(Run(INITIAL, steps), i, e)
  {
    var m := |steps| - 1;
    if BuildCount(steps[..m], e) >= 1 {
      i := CountHasBuilder(steps[..m], e);
      CallsStay(steps, m, i);
    } else {
      i := steps[m].i;
    }
  }

  lemma {:induction false} CountHasBuilders(steps: seq<Step>, e: string) returns (i: nat, j: nat)
    requires BuildCount(steps, e) >= 2
    ensures i != j && HasBuilt(steps, i) && HasBuilt(steps, j) && For(Run(INITIAL, steps), i, e) && For(Run(INITIAL, steps), j, e)
  {
    var m := |steps| - 1;
    if BuildCount(steps[..m], e) >= 2 {
      i, j := CountHasBuilders(steps[..m], e);
      CallsStay(steps, m, i);
      CallsStay(steps, m, j);
    } else {
      i := CountHasBuilder(steps[..m], e);
      CallsStay(steps, m, i);
      PhasesTell(steps[..m], i);
      j := steps[m].i;
    }
  }

  /** Calls `i` and `j` for `e` are in flight together at some point of the run. */
  ghost predicate Together(steps: seq<Step>, i: nat, j: nat, e: string) {
    exists t | 0 <= t <= |steps| ::
      InFlight(Run(INITIAL, steps[..t]), i) && InFlight(Run(INITIAL, steps[..t]), j) &&
      For(Run(INITIAL, steps[..t]), i, e) && For(Run(INITIAL, steps[..t]), j, e)
  }

  /** In every run an entry point is built at most once if and only if no two calls for it that go on to build
      are ever in flight together. */
  lemma BuiltOnceExactly(steps: seq<Step>, e: string)
    ensures BuildCount(steps, e) <= 1 <==>
      !exists i: nat, j: nat :: i != j && HasBuilt(steps, i) && HasBuilt(steps, j) && Together(steps, i, j, e)
  {
    hide BuildCount, HasBuilt, HasMissed, Run;
    if BuildCount(steps, e) >= 2 {
      var i, j := CountHasBuilders(steps, e);
      BuildersMeet(steps, i, j, e);
      assert HasBuilt(steps, i) && HasBuilt(steps, j) && Together(steps, i, j, e);
    }
    if exists i: nat, j: nat :: i != j && HasBuilt(steps, i) && HasBuilt(steps, j) && Together(steps, i, j, e) {
      var i: nat, j: nat :| i != j && HasBuilt(steps, i) && HasBuilt(steps, j) && Together(steps, i, j, e);
      TogetherFor(steps, i, j, e);
      BuildersCount(steps, i, j, e);
    }
  }

  lemma BuildersMeet(steps: seq<Step>, i: nat, j: nat, e: string)
    requires i != j && HasBuilt(steps, i) && HasBuilt(steps, j) && For(Run(INITIAL, steps), i, e) && For(Run(INITIAL, steps), j, e)
    ensures Together(steps, i, j, e)
  {
    hide HasBuilt, HasMissed, Run;
    PhasesTell(steps, i);
    PhasesTell(steps, j);
    var t := MissedTogether(steps, i, j, e);
    CallsStay(steps, t, i);
    CallsStay(steps, t, j);
  }

  lemma TogetherFor(steps: seq<Step>, i: nat, j: nat, e: string)
    requires Together(steps, i, j, e)
    ensures For(Run(INITIAL, steps), i, e) && For(Run(INITIAL, steps), j, e)
  {
    hide HasBuilt, Run;
    var t :| 0 <= t <= |steps| && InFlight(Run(INITIAL, steps[..t]), i) && InFlight(Run(INITIAL, steps[..t]), j) &&
      For(Run(INITIAL, steps[..t]), i, e) && For(Run(INITIAL, steps[..t]), j, e);
    CallsStay(steps, t, i);
    CallsStay(steps, t, j);
  }

  /** Once every call for an entry point that missed has built, it was built at most once if and only if no two
      of them were ever in flight together: what the schedule of the threads decides. */
  lemma SettledOnceExactly(steps: seq<Step>, e: string)
    requires forall i: nat | For(Run(INITIAL, steps), i, e) ::
      !Run(INITIAL, steps).calls[i].phase.Missed? && !Run(INITIAL, steps).calls[i].phase.Failed?
    ensures BuildCount(steps, e) <= 1 <==> !exists i: nat, j: nat :: i != j && Together(steps, i, j, e)
  {
    hide BuildCount, HasBuilt, HasMissed, Run;
    BuiltOnceExactly(steps, e);
    forall i: nat, j: nat | i != j && Together(steps, i, j, e)
      ensures HasBuilt(steps, i) && HasBuilt(steps, j)
    {
      TogetherFor(steps, i, j, e);
      var t :| 0 <= t <= |steps| && InFlight(Run(INITIAL, steps[..t]), i) && InFlight(Run(INITIAL, steps[..t]), j) &&
        For(Run(INITIAL, steps[..t]), i, e) && For(Run(INITIAL, steps[..t]), j, e);
      InFlightEnds(steps, t, i);
      InFlightEnds(steps, t, j);
    }
  }

  /** A call that has entered and not ended. */
  predicate Active(w: World, i: nat) {
    i < |w.calls| && !w.calls[i].phase.Returned? && !w.calls[i].phase.Failed?
  }

  /** If calls for an entry point never overlap, it is built at most once. */
  lemma SequentialCallsBuildOnce(steps: seq<Step>, e: string)
    requires forall t, i: nat, j: nat | 0 <= t <= |steps| && For(Run(INITIAL, steps[..t]), i, e) && For(Run(INITIAL, steps[..t]), j, e)
      && Active(Run(INITIAL, steps[..t]), i) && Active(Run(INITIAL, steps[..t]), j) :: i == j
    ensures BuildCount(steps, e) <= 1
  {
    hide BuildCount, HasBuilt, HasMissed, Run;
    BuiltOnceExactly(steps, e);
  }

  /** An entry point is not built at most once: two threads may miss together and both build. */
  lemma BuiltTwice(e: string) returns (steps: seq<Step>)
    ensures Run(INITIAL, steps) == World(map[e := 0], [Call(e, Returned(0)), Call(e, Returned(0))], 2)
  {
    hide Run;
    NoSteps(INITIAL);
    steps := Extend([], Enter(e), World(map[], [Call(e, Started)], 0), INITIAL);
    steps := Extend(steps, Enter(e), World(map[], [Call(e, Started), Call(e, Started)], 0), Run(INITIAL, steps));
    steps := Extend(steps, Check(0), World(map[], [Call(e, Missed), Call(e, Started)], 0), Run(INITIAL, steps));
    steps := Extend(steps, Check(1), World(map[], [Call(e, Missed), Call(e, Missed)], 0), Run(INITIAL, steps));
    steps := Extend(steps, Build(0, true), World(map[], [Call(e, Built(0)), Call(e, Missed)], 1), Run(INITIAL, steps));
    steps := Extend(steps, Build(1, true), World(map[], [Call(e, Built(0)), Call(e, Built(1))], 2), Run(INITIAL, steps));
    steps := Extend(steps, Publish(0), World(map[e := 0], [Call(e, Returned(0)), Call(e, Built(1))], 2), Run(INITIAL, steps));
    steps := Extend(steps, Publish(1), World(map[e := 0], [Call(e, Returned(0)), Call(e, Returned(0))], 2), Run(INITIAL, steps));
  }

  /** A run goes on by one step. */
  lemma Extend(steps: seq<Step>, s: Step, w: World, before: World) returns (more: seq<Step>)
    requires Run(INITIAL, steps) == before && Next(before, s) == w
    ensures Run(INITIAL, more) == w
  {
    more := steps + [s];
    Append(INITIAL, steps, s);
  }

  lemma NoSteps(w: World)
    ensures Run(w, []) == w
  {
  }

  lemma Append(w: World, steps: seq<Step>, s: Step)
    ensures Run(w, steps + [s]) == Next(Run(w, steps), s)
  {
    assert (steps + [s])[..|steps|] == steps;
  }
}

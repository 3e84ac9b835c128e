/** The capture cache: expressions recorded under the address of the frame that `with_columns`
    returned, behind a weak reference, and evicted by its callback when the frame dies. */
module CaptureCache {
  import opened Options

  /** A weak reference to a frame object, and the expressions captured for it. */
  datatype Entry = Entry(ref: nat, exprs: seq<string>)

  /** Objects are numbered as they are created and never again; addresses are reused. `addr` has the
      live objects, `captured` what was recorded for each object, and `pending` the addresses whose
      eviction callbacks have not run yet. */
  datatype World = World(
    next: nat,
    addr: map<nat, nat>,
    cache: map<nat, Entry>,
    captured: map<nat, seq<string>>,
    pending: multiset<nat>)

  const INITIAL := World(0, map[], map[], map[], multiset{})

  predicate Free(w: World, a: nat) {
    a !in w.addr.Values
  }

  datatype Step =
    | Create(at: nat)
    | Capture(at: nat, exprs: seq<string>)
    | Die(obj: nat)
    | Callback(key: nat)

  /** `with_columns` returns a new frame; with expressions in it, it is recorded. */
  function Next(w: World, s: Step): World {
    match s
    case Create(a) =>
      if Free(w, a) then w.(next := w.next + 1, addr := w.addr[w.next := a]) else w
    case Capture(a, exprs) =>
      if Free(w, a) && exprs != [] then
        w.(next := w.next + 1, addr := w.addr[w.next := a], cache := w.cache[a := Entry(w.next, exprs)],
           captured := w.captured[w.next := exprs])
      else w
    case Die(o) =>
      if o in w.addr then
        var a := w.addr[o];
        w.(addr := w.addr - {o},
           pending := w.pending + if a in w.cache && w.cache[a].ref == o then multiset{a} else multiset{})
      else w
    case Callback(k) =>
      if k in w.pending then w.(cache := w.cache - {k}, pending := w.pending - multiset{k}) else w
  }

  function Run(w: World, steps: seq<Step>): World {
    if steps == [] then w else Next(Run(w, steps[..|steps| - 1]), steps[|steps| - 1])
  }

  /** `lookup`: the entry at the frame's address, if its reference still leads to this very frame. */
  function Lookup(w: World, o: nat): Option<seq<string>>
    requires o in w.addr
  {
    var a := w.addr[o];
    if a !in w.cache then None
    else if w.cache[a].ref !in w.addr || w.cache[a].ref != o then None
    else Some(w.cache[a].exprs)
  }

  // ----- safety: in every run -----

  ghost predicate Recorded(w: World) {
    (forall o | o in w.addr :: o < w.next) && (forall o | o in w.captured :: o < w.next) &&
    forall k | k in w.cache :: w.cache[k].ref in w.captured && w.captured[w.cache[k].ref] == w.cache[k].exprs
  }

  lemma RecordedStep(w: World, s: Step)
    requires Recorded(w)
    ensures Recorded(Next(w, s))
  {
  }

  lemma {:induction false} RecordedRun(steps: seq<Step>)
    ensures Recorded(Run(INITIAL, steps))
  {
    hide Recorded, Next;
    if steps == [] {
      NothingRecorded();
    } else {
      RecordedRun(steps[..|steps| - 1]);
      RecordedStep(Run(INITIAL, steps[..|steps| - 1]), steps[|steps| - 1]);
    }
  }

  lemma NothingRecorded()
    ensures Recorded(INITIAL)
  {
  }

  /** However addresses are reused and however late callbacks run, a lookup returns only what was
      captured for that very frame. */
  lemma LookupIsOwn(steps: seq<Step>, o: nat)
    requires var w := Run(INITIAL, steps); o in w.addr && Lookup(w, o).Some?
    ensures var w := Run(INITIAL, steps); o in w.captured && Lookup(w, o) == Some(w.captured[o])
  {
    hide Run;
    RecordedRun(steps);
  }

  // ----- when callbacks run before an address is reused -----

  /** No frame is created where a callback is still pending. */
  ghost predicate Prompt(w: World, s: Step) {
    match s
    case Create(a) => a !in w.pending
    case Capture(a, _) => a !in w.pending
    case _ => true
  }

  ghost predicate PromptRun(steps: seq<Step>) {
    forall i | 0 <= i < |steps| :: Prompt(Run(INITIAL, steps[..i]), steps[i])
  }

  /** Live frames have distinct addresses, captured ones are found at theirs, and every other key
      awaits its callback. */
  ghost predicate InStep(w: World) {
    (forall o, p | o in w.addr && p in w.addr && o != p :: w.addr[o] != w.addr[p]) &&
    (forall o | o in w.addr :: w.addr[o] !in w.pending) &&
    (forall o | o in w.addr && o in w.captured :: w.addr[o] in w.cache && w.cache[w.addr[o]].ref == o) &&
    forall k | k in w.cache :: k in w.pending || (w.cache[k].ref in w.addr && w.addr[w.cache[k].ref] == k)
  }

  lemma FreeMeans(w: World, a: nat)
    requires Free(w, a)
    ensures forall o | o in w.addr :: w.addr[o] != a
  {
    assert forall o | o in w.addr :: w.addr[o] in w.addr.Values;
  }

  lemma CreateInStep(w: World, a: nat)
    requires Recorded(w) && InStep(w) && Prompt(w, Create(a))
    ensures InStep(Next(w, Create(a)))
  {
    if Free(w, a) {
      FreeMeans(w, a);
    }
  }

  lemma CaptureInStep(w: World, a: nat, exprs: seq<string>)
    requires Recorded(w) && InStep(w) && Prompt(w, Capture(a, exprs))
    ensures InStep(Next(w, Capture(a, exprs)))
  {
    if Free(w, a) {
      FreeMeans(w, a);
    }
  }

  lemma DieInStep(w: World, o: nat)
    requires Recorded(w) && InStep(w)
    ensures InStep(Next(w, Die(o)))
  {
    if o in w.addr {
      var v := Next(w, Die(o));
      assert forall p | p in v.addr :: p in w.addr && p != o && v.addr[p] == w.addr[p];
    }
  }

  lemma CallbackInStep(w: World, k: nat)
    requires Recorded(w) && InStep(w)
    ensures InStep(Next(w, Callback(k)))
  {
    if k in w.pending {
      var v := Next(w, Callback(k));
      assert forall j | j in v.cache :: j != k && j in w.cache && v.cache[j] == w.cache[j];
      assert forall j | j != k :: j in w.pending ==> j in v.pending;
    }
  }

  lemma {:induction false} InStepRun(steps: seq<Step>)
    requires PromptRun(steps)
    ensures InStep(Run(INITIAL, steps))
  {
    hide Recorded, InStep, Next, Prompt;
    if steps == [] {
      NothingInStep();
    } else {
      var m := |steps| - 1;
      PromptPrefix(steps);
      InStepRun(steps[..m]);
      RecordedRun(steps[..m]);
      var w := Run(INITIAL, steps[..m]);
      match steps[m]
      case Create(a) => CreateInStep(w, a);
      case Capture(a, exprs) => CaptureInStep(w, a, exprs);
      case Die(o) => DieInStep(w, o);
      case Callback(k) => CallbackInStep(w, k);
    }
  }

  lemma PromptPrefix(steps: seq<Step>)
    requires PromptRun(steps) && steps != []
    ensures PromptRun(steps[..|steps| - 1]) && Prompt(Run(INITIAL, steps[..|steps| - 1]), steps[|steps| - 1])
  {
    hide Run, Prompt;
    var m := |steps| - 1;
    assert forall i | 0 <= i < m :: steps[..m][..i] == steps[..i];
  }

  lemma NothingInStep()
    ensures InStep(INITIAL)
  {
  }

  /** In every such run a captured frame is found for as long as it lives, no other frame is, and once
      the callbacks have run the keys are the addresses of the live captured frames. */
  lemma LookupWhileAlive(steps: seq<Step>)
    requires PromptRun(steps)
    ensures var w := Run(INITIAL, steps);
            (forall o | o in w.addr :: Lookup(w, o) == if o in w.captured then Some(w.captured[o]) else None) &&
            (w.pending == multiset{} ==>
              forall k :: k in w.cache <==> exists o :: o in w.addr && o in w.captured && w.addr[o] == k)
  {
    hide Run;
    InStepRun(steps);
    RecordedRun(steps);
    var w := Run(INITIAL, steps);
    forall o | o in w.addr
      ensures Lookup(w, o) == if o in w.captured then Some(w.captured[o]) else None
    {
      if w.addr[o] in w.cache {
        assert w.cache[w.addr[o]].ref in w.captured;
      }
    }
    if w.pending == multiset{} {
      forall k | k in w.cache
        ensures exists o :: o in w.addr && o in w.captured && w.addr[o] == k
      {
        assert w.cache[k].ref in w.addr;
      }
    }
  }

  // ----- exactly when a live frame is found -----

  /** A callback has run at the address of `o` since `o` came to be there. */
  predicate EvictedSince(steps: seq<Step>, o: nat) {
    if steps == [] then false
    else
      var m := |steps| - 1;
      var w := Run(INITIAL, steps[..m]);
      EvictedSince(steps[..m], o) || Evicts(w, steps[m], o)
  }

  /** Live frames have distinct addresses. */
  ghost predicate Distinctly(w: World) {
    forall o, p | o in w.addr && p in w.addr && o != p :: w.addr[o] != w.addr[p]
  }

  /** A live captured frame is recorded at its address, unless evicted. */
  ghost predicate Located(w: World, gone: nat -> bool) {
    (forall o: nat | gone(o) :: o < w.next) &&
    forall o | o in w.addr && o in w.captured :: !gone(o) <==> w.addr[o] in w.cache && w.cache[w.addr[o]].ref == o
  }

  ghost function Gone(steps: seq<Step>): nat -> bool {
    (o: nat) => EvictedSince(steps, o)
  }

  lemma DistinctlyStep(w: World, s: Step)
    requires Recorded(w) && Distinctly(w)
    ensures Distinctly(Next(w, s))
  {
    var v := Next(w, s);
    if (s.Create? || s.Capture?) && Free(w, s.at) {
      FreeMeans(w, s.at);
      assert forall o | o in v.addr :: o == w.next || (o in w.addr && v.addr[o] == w.addr[o]);
    } else {
      assert forall o | o in v.addr :: o in w.addr && v.addr[o] == w.addr[o];
    }
  }

  /** The callback a step runs evicts the frame at its key. */
  predicate Evicts(w: World, s: Step, o: nat) {
    s.Callback? && s.key in w.pending && o in w.addr && w.addr[o] == s.key
  }

  lemma NewFrameLocated(w: World, s: Step, gone: nat -> bool)
    requires Recorded(w) && Located(w, gone) && (s.Create? || s.Capture?)
    ensures Located(Next(w, s), gone)
  {
    var v := Next(w, s);
    if Free(w, s.at) {
      FreeMeans(w, s.at);
      assert forall o | o in v.addr && o != w.next :: o in w.addr && v.addr[o] == w.addr[o] && v.addr[o] != s.at;
      assert forall k | k != s.at :: (k in v.cache <==> k in w.cache) && (k in w.cache ==> v.cache[k] == w.cache[k]);
      assert forall o | o in v.captured && o != w.next :: o in w.captured;
    }
  }

  lemma DeathLocated(w: World, o: nat, gone: nat -> bool)
    requires Located(w, gone)
    ensures Located(Next(w, Die(o)), gone)
  {
    var v := Next(w, Die(o));
    assert forall p | p in v.addr :: p in w.addr && v.addr[p] == w.addr[p];
  }

  lemma CallbackLocated(w: World, k: nat, gone: nat -> bool, gone': nat -> bool)
    requires Recorded(w) && Distinctly(w) && Located(w, gone)
    requires forall o: nat :: gone'(o) <==> gone(o) || Evicts(w, Callback(k), o)
    ensures Located(Next(w, Callback(k)), gone')
  {
    var v := Next(w, Callback(k));
    assert forall j | j in v.cache :: j in w.cache && v.cache[j] == w.cache[j];
    assert forall j | j in w.cache && j != k :: j in v.cache;
    assert k in w.pending ==> k !in v.cache;
  }

  lemma SameGone(w: World, gone: nat -> bool, gone': nat -> bool)
    requires Located(w, gone) && forall o: nat :: gone'(o) <==> gone(o)
    ensures Located(w, gone')
  {
  }

  lemma {:induction false} TrackedRun(steps: seq<Step>)
    ensures Distinctly(Run(INITIAL, steps)) && Located(Run(INITIAL, steps), Gone(steps))
  {
    hide Recorded, Distinctly, Located, Next;
    if steps == [] {
      NothingTracked();
    } else {
      var m := |steps| - 1;
      var w, gone, gone' := Run(INITIAL, steps[..m]), Gone(steps[..m]), Gone(steps);
      TrackedRun(steps[..m]);
      RecordedRun(steps[..m]);
      DistinctlyStep(w, steps[m]);
      assert forall o: nat :: gone'(o) <==> gone(o) || Evicts(w, steps[m], o);
      assert Run(INITIAL, steps) == Next(w, steps[m]);
      if steps[m].Callback? {
        CallbackLocated(w, steps[m].key, gone, gone');
      } else {
        if steps[m].Die? {
          DeathLocated(w, steps[m].obj, gone);
        } else {
          NewFrameLocated(w, steps[m], gone);
        }
        SameGone(Next(w, steps[m]), gone, gone');
      }
    }
  }

  lemma NothingTracked()
    ensures Distinctly(INITIAL) && Located(INITIAL, Gone([]))
  {
  }

  /** In every run, a live captured frame is found if and only if no callback has run at its address since it
      was captured there. */
  lemma FoundExactly(steps: seq<Step>, o: nat)
    requires var w := Run(INITIAL, steps); o in w.addr && o in w.captured
    ensures Lookup(Run(INITIAL, steps), o).Some? <==> !EvictedSince(steps, o)
  {
    hide Run, EvictedSince;
    TrackedRun(steps);
    assert Gone(steps)(o) <==> EvictedSince(steps, o);
  }

  /** The order matters: a callback that runs after its address was reused evicts the new frame. */
  lemma LateCallback(a: nat, x: string) returns (steps: seq<Step>)
    ensures var w := Run(INITIAL, steps);
            1 in w.addr && 1 in w.captured && Lookup(w, 1) == None && !PromptRun(steps)
  {
    hide Run;
    var none: map<nat, nat> := map[];
    steps := [];
    Begin();
    steps := Extend(steps, Capture(a, [x]), World(1, map[0 := a], map[a := Entry(0, [x])], map[0 := [x]], multiset{}));
    steps := Extend(steps, Die(0), World(1, none, map[a := Entry(0, [x])], map[0 := [x]], multiset{a}));
    steps := Extend(steps, Capture(a, [x]),
                    World(2, map[1 := a], map[a := Entry(1, [x])], map[0 := [x], 1 := [x]], multiset{a}));
    steps := Extend(steps, Callback(a), World(2, map[1 := a], map[], map[0 := [x], 1 := [x]], multiset{}));
    if PromptRun(steps) {
      LookupWhileAlive(steps);
    }
  }

  lemma Begin()
    ensures Run(INITIAL, []) == INITIAL
  {
  }

  lemma Extend(steps: seq<Step>, s: Step, w: World) returns (more: seq<Step>)
    requires Next(Run(INITIAL, steps), s) == w
    ensures Run(INITIAL, more) == w
  {
    more := steps + [s];
    assert more[..|steps|] == steps;
  }

  // ----- the dictionary, updated in place -----

  /** The patched `with_columns`, the evictor and `lookup` over one mutable dictionary. */
  class Captures {
    var entries: map<nat, Entry>

    constructor ()
      ensures entries == INITIAL.cache
    {
      entries := map[];
    }

    /** Record a call's expressions under the address of the frame it returned. */
    method WithColumns(w: World, at: nat, exprs: seq<string>)
      requires entries == w.cache && Free(w, at)
      modifies this
      ensures entries == Next(w, if exprs == [] then Create(at) else Capture(at, exprs)).cache
    {
      if exprs != [] {
        entries := entries[at := Entry(w.next, exprs)];
      }
    }

    /** The weak reference's callback. */
    method Evict(w: World, key: nat)
      requires entries == w.cache && key in w.pending
      modifies this
      ensures entries == Next(w, Callback(key)).cache
    {
      entries := entries - {key};
    }

    method Find(w: World, o: nat) returns (r: Option<seq<string>>)
      requires entries == w.cache && o in w.addr
      ensures r == Lookup(w, o)
    {
      var a := w.addr[o];
      if a !in entries {
        return None;
      }
      var entry := entries[a];
      if entry.ref !in w.addr || entry.ref != o {
        return None;
      }
      return Some(entry.exprs);
    }
  }
}

/** Aggregation by GPU threads that race on one slot per group: atomic read-modify-writes, and loops around
    a compare-and-swap that may fail or act on a stale value. Every run gives the sequential folds. */
module GroupAtomics {
  import opened GroupAggregates
  import opened IndexArith
  import opened Options

  // ----- a kernel -----

  /** What one row does to its group's slot: a single atomic operation, or a loop that stops when its value
      has nothing to add to the slot it last saw. */
  datatype Atomic<!S, !V> = Atomic(agg: Agg<S, V>, fetch: bool, skip: (S, V) -> bool)

  /** Rows enter in any order; and what has nothing to add stays so while the slot moves on. */
  ghost predicate Unordered<S(!new), V(!new)>(k: Atomic<S, V>) {
    (forall s: S, v: V, w: V :: k.agg.add(k.agg.add(s, v), w) == k.agg.add(k.agg.add(s, w), v)) &&
    (forall s: S, v: V | k.skip(s, v) :: k.agg.add(s, v) == s) &&
    forall s: S, v: V, w: V | k.skip(s, v) :: k.skip(k.agg.add(s, w), v)
  }

  /** A thread has not begun, holds the slot it last saw, or is done. */
  datatype Pc<S> = Start | Holding(seen: S) | Finished

  datatype Machine<S> = Machine(slots: seq<S>, pc: seq<Pc<S>>)

  /** The next thread to move; its compare-and-swap may fail for no reason. */
  datatype Tick = Tick(gid: nat, spurious: bool)

  ghost predicate Sized<S, V>(items: seq<Option<V>>, groups: seq<nat>, m: Machine<S>) {
    |items| == |groups| == |m.pc| && forall i | 0 <= i < |groups| :: groups[i] < |m.slots|
  }

  /** One atomic step of thread `gid`. */
  function Step<S(==), V>(k: Atomic<S, V>, items: seq<Option<V>>, groups: seq<nat>, m: Machine<S>, tick: Tick): (r: Machine<S>)
    requires Sized(items, groups, m)
    ensures Sized(items, groups, r) && |r.slots| == |m.slots|
  {
    var gid := tick.gid;
    if gid >= |m.pc| || m.pc[gid].Finished? then m
    else if items[gid].None? then m.(pc := m.pc[gid := Finished])
    else
      var g, v := groups[gid], items[gid].value;
      var slot := m.slots[g];
      match m.pc[gid]
      case Start =>
        if k.fetch then Machine(m.slots[g := k.agg.add(slot, v)], m.pc[gid := Finished])
        else m.(pc := m.pc[gid := Holding(slot)])
      case Holding(seen) =>
        if k.skip(seen, v) then m.(pc := m.pc[gid := Finished])
        else if slot == seen && !tick.spurious then Machine(m.slots[g := k.agg.add(seen, v)], m.pc[gid := Finished])
        else m.(pc := m.pc[gid := Holding(slot)])
      case Finished => m
  }

  // ----- the invariant -----

  /** The items of the rows that are done. */
  function DoneItems<S, V>(items: seq<Option<V>>, pc: seq<Pc<S>>): (done: seq<Option<V>>)
    requires |items| == |pc|
    ensures |done| == |items|
  {
    seq(|items|, i requires 0 <= i < |items| => if pc[i].Finished? then items[i] else None)
  }

  /** Every slot is the fold of the rows of its group that are done, and whatever a thread would skip at the
      slot it saw it would still skip. */
  ghost predicate Consistent<S, V(!new)>(k: Atomic<S, V>, items: seq<Option<V>>, groups: seq<nat>, m: Machine<S>)
    requires Sized(items, groups, m)
  {
    (forall g | 0 <= g < |m.slots| :: m.slots[g] == Fold(k.agg, GroupItems(DoneItems(items, m.pc), groups, g, 0, |groups|))) &&
    forall r, v: V | 0 <= r < |m.pc| && m.pc[r].Holding? && k.skip(m.pc[r].seen, v) :: k.skip(m.slots[groups[r]], v)
  }

  /** A value in the middle enters like one at the end. */
  lemma {:induction false} FoldInsert<S(!new), V(!new)>(k: Atomic<S, V>, xs: seq<V>, v: V, ys: seq<V>)
    requires Unordered(k)
    ensures Fold(k.agg, xs + [v] + ys) == k.agg.add(Fold(k.agg, xs + ys), v)
    decreases |ys|
  {
    hide Unordered;
    if ys == [] {
      assert xs + [v] + ys == xs + [v] && (xs + [v])[..|xs|] == xs + ys;
    } else {
      var m := |ys| - 1;
      FoldInsert(k, xs, v, ys[..m]);
      assert (xs + [v] + ys)[..|xs| + 1 + m] == xs + [v] + ys[..m];
      assert (xs + ys)[..|xs| + m] == xs + ys[..m];
      AddsCommute(k, Fold(k.agg, xs + ys[..m]), v, ys[m]);
    }
  }

  lemma AddsCommute<S(!new), V(!new)>(k: Atomic<S, V>, s: S, v: V, w: V)
    requires Unordered(k)
    ensures k.agg.add(k.agg.add(s, v), w) == k.agg.add(k.agg.add(s, w), v)
  {
  }

  lemma {:induction false} GroupItemsCong<V>(a: seq<Option<V>>, b: seq<Option<V>>, groups: seq<nat>, g: nat, lo: nat, hi: nat)
    requires lo <= hi <= |a| == |b| && hi <= |groups| && forall i | lo <= i < hi && groups[i] == g :: a[i] == b[i]
    ensures GroupItems(a, groups, g, lo, hi) == GroupItems(b, groups, g, lo, hi)
    decreases hi
  {
    if lo < hi {
      GroupItemsCong(a, b, groups, g, lo, hi - 1);
    }
  }

  /** One more row. */
  lemma RowEnters<S(!new), V(!new)>(k: Atomic<S, V>, before: seq<Option<V>>, after: seq<Option<V>>, groups: seq<nat>, r: nat, g: nat)
    requires Unordered(k) && r < |before| == |after| == |groups| && before[r].None? && after == before[r := after[r]]
    ensures Fold(k.agg, GroupItems(after, groups, g, 0, |groups|))
         == Entered(k.agg, after[r], groups[r] == g, Fold(k.agg, GroupItems(before, groups, g, 0, |groups|)))
  {
    hide Fold, Unordered, GroupItems;
    var n := |groups|;
    GroupItemsConcat(after, groups, g, 0, r, n);
    GroupItemsConcat(after, groups, g, r, r + 1, n);
    GroupItemsConcat(before, groups, g, 0, r, n);
    GroupItemsConcat(before, groups, g, r, r + 1, n);
    GroupItemsCong(before, after, groups, g, 0, r);
    GroupItemsCong(before, after, groups, g, r + 1, n);
    OneRow(after, groups, g, r);
    OneRow(before, groups, g, r);
    var xs, ys := GroupItems(before, groups, g, 0, r), GroupItems(before, groups, g, r + 1, n);
    assert xs + ([] + ys) == xs + ys;
    assert GroupItems(before, groups, g, 0, n) == xs + ys;
    if groups[r] == g && after[r].Some? {
      FoldInsert(k, xs, after[r].value, ys);
      assert xs + ([after[r].value] + ys) == xs + [after[r].value] + ys;
    }
  }

  lemma OneRow<V>(items: seq<Option<V>>, groups: seq<nat>, g: nat, r: nat)
    requires r < |items| && r < |groups|
    ensures GroupItems(items, groups, g, r, r + 1) == if groups[r] == g && items[r].Some? then [items[r].value] else []
  {
    assert GroupItems(items, groups, g, r, r) == [];
  }

  /** Every step of every thread keeps it. */
  lemma StepConsistent<S(!new), V(!new)>(k: Atomic<S, V>, items: seq<Option<V>>, groups: seq<nat>, m: Machine<S>, tick: Tick)
    requires Unordered(k) && Sized(items, groups, m) && Consistent(k, items, groups, m)
    ensures Consistent(k, items, groups, Step(k, items, groups, m, tick))
  {
    hide Fold, GroupItems, Unordered;
    StepKeepsSkips(k, items, groups, m, tick);
    var m', r := Step(k, items, groups, m, tick), tick.gid;
    if r < |m.pc| && !m.pc[r].Finished? {
      var before, after := DoneItems(items, m.pc), DoneItems(items, m'.pc);
      if m'.pc[r].Finished? {
        assert after == before[r := items[r]];
        SlotMoves(k, items, groups, m, tick);
        hide Step;
        forall g | 0 <= g < |m.slots|
          ensures m'.slots[g] == Fold(k.agg, GroupItems(after, groups, g, 0, |groups|))
        {
          RowEnters(k, before, after, groups, r, g);
        }
      } else {
        assert after == before;
      }
    }
  }

  /** What a thread would skip it would still skip. */
  lemma StepKeepsSkips<S(!new), V(!new)>(k: Atomic<S, V>, items: seq<Option<V>>, groups: seq<nat>, m: Machine<S>, tick: Tick)
    requires Unordered(k) && Sized(items, groups, m) && Consistent(k, items, groups, m)
    ensures var m' := Step(k, items, groups, m, tick);
            forall r, v: V | 0 <= r < |m'.pc| && m'.pc[r].Holding? && k.skip(m'.pc[r].seen, v) :: k.skip(m'.slots[groups[r]], v)
  {
    hide Fold, GroupItems;
    var m' := Step(k, items, groups, m, tick);
    forall r, v: V | 0 <= r < |m'.pc| && m'.pc[r].Holding? && k.skip(m'.pc[r].seen, v)
      ensures k.skip(m'.slots[groups[r]], v)
    {
      if r != tick.gid {
        assert m.pc[r] == m'.pc[r];
        assert k.skip(m.slots[groups[r]], v);
      }
    }
  }

  /** A thread that finishes has entered its row. */
  lemma SlotMoves<S(!new), V(!new)>(k: Atomic<S, V>, items: seq<Option<V>>, groups: seq<nat>, m: Machine<S>, tick: Tick)
    requires Unordered(k) && Sized(items, groups, m) && Consistent(k, items, groups, m)
    requires var m' := Step(k, items, groups, m, tick);
             tick.gid < |m.pc| && !m.pc[tick.gid].Finished? && m'.pc[tick.gid].Finished?
    ensures var m', r := Step(k, items, groups, m, tick), tick.gid;
            forall g | 0 <= g < |m.slots| :: m'.slots[g] == Entered(k.agg, items[r], groups[r] == g, m.slots[g])
  {
    hide Fold, GroupItems;
  }

  // ----- a launch -----

  /** Any schedule of the threads, after which whoever is left runs alone: every run in which all threads
      finish is one of these. The slots hold the sequential folds. */
  method LaunchAtomics<S(==, !new), V(!new)>(k: Atomic<S, V>, items: seq<Option<V>>, groups: seq<nat>, nGroups: nat,
                                             schedule: seq<Tick>) returns (out: seq<S>)
    requires Unordered(k) && |items| == |groups| && forall i | 0 <= i < |groups| :: groups[i] < nGroups
    ensures |out| == nGroups && Aggregated(k.agg, items, groups, 0, |groups|, out)
  {
    hide Unordered, Consistent, Fold, GroupItems, Step;
    var n := |groups|;
    var m := Machine(seq(nGroups, g => k.agg.zero), seq(n, i => Start));
    NothingDone(k, items, groups, m);
    for t := 0 to |schedule|
      invariant Sized(items, groups, m) && |m.slots| == nGroups && Consistent(k, items, groups, m)
    {
      StepConsistent(k, items, groups, m, schedule[t]);
      m := Step(k, items, groups, m, schedule[t]);
    }
    for gid := 0 to n
      invariant Sized(items, groups, m) && |m.slots| == nGroups && Consistent(k, items, groups, m)
      invariant forall i | 0 <= i < gid :: m.pc[i].Finished?
    {
      for again := 0 to 3
        invariant Sized(items, groups, m) && |m.slots| == nGroups && Consistent(k, items, groups, m)
        invariant forall i | 0 <= i < gid :: m.pc[i].Finished?
        invariant Nearer(k, items, groups, m, gid, again)
      {
        StepConsistent(k, items, groups, m, Tick(gid, false));
        AloneNearer(k, items, groups, m, gid, again);
        m := Step(k, items, groups, m, Tick(gid, false));
      }
    }
    out := m.slots;
    AllDone(k, items, groups, m);
  }

  /** Running alone a thread sees the slot as it is, and then its swap succeeds. */
  ghost predicate Nearer<S, V>(k: Atomic<S, V>, items: seq<Option<V>>, groups: seq<nat>, m: Machine<S>, gid: nat, again: nat)
    requires Sized(items, groups, m) && gid < |m.pc|
  {
    m.pc[gid].Finished? || again == 0 || (again == 1 && !m.pc[gid].Start?) ||
    (again == 2 && m.pc[gid].Holding? && m.pc[gid].seen == m.slots[groups[gid]])
  }

  lemma AloneNearer<S, V>(k: Atomic<S, V>, items: seq<Option<V>>, groups: seq<nat>, m: Machine<S>, gid: nat, again: nat)
    requires Sized(items, groups, m) && gid < |m.pc| && again < 3 && Nearer(k, items, groups, m, gid, again)
    ensures var m' := Step(k, items, groups, m, Tick(gid, false));
            Nearer(k, items, groups, m', gid, again + 1) && forall i | 0 <= i < |m.pc| && i != gid :: m'.pc[i] == m.pc[i]
  {
  }

  lemma NothingDone<S, V(!new)>(k: Atomic<S, V>, items: seq<Option<V>>, groups: seq<nat>, m: Machine<S>)
    requires Sized(items, groups, m) && (forall i | 0 <= i < |m.pc| :: m.pc[i].Start?)
    requires forall g | 0 <= g < |m.slots| :: m.slots[g] == k.agg.zero
    ensures Consistent(k, items, groups, m)
  {
    forall g | 0 <= g < |m.slots|
      ensures Fold(k.agg, GroupItems(DoneItems(items, m.pc), groups, g, 0, |groups|)) == k.agg.zero
    {
      NoItems(DoneItems(items, m.pc), groups, g, |groups|);
    }
  }

  lemma {:induction false} NoItems<V>(items: seq<Option<V>>, groups: seq<nat>, g: nat, hi: nat)
    requires hi <= |items| == |groups| && forall i | 0 <= i < |items| :: items[i].None?
    ensures GroupItems(items, groups, g, 0, hi) == []
  {
    if hi > 0 {
      NoItems(items, groups, g, hi - 1);
    }
  }

  lemma AllDone<S, V(!new)>(k: Atomic<S, V>, items: seq<Option<V>>, groups: seq<nat>, m: Machine<S>)
    requires Sized(items, groups, m) && Consistent(k, items, groups, m) && forall i | 0 <= i < |m.pc| :: m.pc[i].Finished?
    ensures Aggregated(k.agg, items, groups, 0, |groups|, m.slots)
  {
    hide Fold, GroupItems;
    assert DoneItems(items, m.pc) == items;
  }

  // ----- 32-bit integers -----

  const TWO31: int := 0x8000_0000
  const TWO32: int := 0x1_0000_0000

  type I32 = x: int | -TWO31 <= x < TWO31

  function Wrap32(x: int): (r: I32)
    ensures -TWO31 <= x < TWO31 ==> r == x
  {
    (x + TWO31) % TWO32 - TWO31
  }

  lemma Wrap32Add(x: int, y: int)
    ensures Wrap32(Wrap32(x) + y) == Wrap32(x + y)
  {
    var j := (x + TWO31) / TWO32;
    assert Wrap32(x) == x - j * TWO32;
    assert (x + y + TWO31 - j * TWO32) % TWO32 == (x + y + TWO31) % TWO32;
  }

  function AddI32(s: I32, v: I32): I32 {
    Wrap32(s + v)
  }

  function LessI32(s: I32, v: I32): I32 {
    if v < s then v else s
  }

  function MoreI32(s: I32, v: I32): I32 {
    if v > s then v else s
  }

  const I32_MIN: I32 := -TWO31
  const I32_MAX: I32 := TWO31 - 1
  const I32_ZERO: I32 := 0

  const SUM_I32: Agg<I32, I32> := Agg(I32_ZERO, AddI32, AddI32)
  const MIN_I32: Agg<I32, I32> := Agg(I32_MAX, LessI32, LessI32)
  const MAX_I32: Agg<I32, I32> := Agg(I32_MIN, MoreI32, MoreI32)

  const FETCH_SUM: Atomic<I32, I32> := Atomic(SUM_I32, true, (s: I32, v: I32) => false)
  const FETCH_MIN: Atomic<I32, I32> := Atomic(MIN_I32, true, (s: I32, v: I32) => false)
  const FETCH_MAX: Atomic<I32, I32> := Atomic(MAX_I32, true, (s: I32, v: I32) => false)
  const FETCH_COUNT: Atomic<nat, ()> := Atomic(COUNT, true, (s: nat, v: ()) => false)

  lemma SumUnordered()
    ensures Unordered(FETCH_SUM)
  {
    hide AddI32;
    forall s: I32, v: I32, w: I32
      ensures AddI32(AddI32(s, v), w) == AddI32(AddI32(s, w), v)
    {
      SumsSwap32(s, v, w);
    }
  }

  lemma SumsSwap32(s: I32, v: I32, w: I32)
    ensures AddI32(AddI32(s, v), w) == AddI32(AddI32(s, w), v)
  {
    hide Wrap32;
    Wrap32Add(s + v, w);
    Wrap32Add(s + w, v);
    assert s + v + w == s + w + v;
  }

  lemma ExtremesUnordered()
    ensures Unordered(FETCH_MIN) && Unordered(FETCH_MAX)
  {
  }

  lemma CountUnordered()
    ensures Unordered(FETCH_COUNT)
  {
  }

  /** The sum wraps once, like the true sum. */
  lemma {:induction false} SumIsWrapped32(vs: seq<I32>)
    ensures Fold(SUM_I32, vs) == Wrap32(Total(vs))
  {
    if vs != [] {
      var m := |vs| - 1;
      SumIsWrapped32(vs[..m]);
      Wrap32Add(Total(vs[..m]), vs[m]);
    }
  }

  /** `compute_mean_i32` of the wrapped sum is the true mean exactly when the sum fits 32 bits. */
  lemma Mean32Exactly(vs: seq<I32>)
    requires vs != []
    ensures Fold(SUM_I32, vs) as real / |vs| as real == Total(vs) as real / |vs| as real <==> -TWO31 <= Total(vs) < TWO31
  {
    SumIsWrapped32(vs);
    MeanInjective(Wrap32(Total(vs)), Total(vs), |vs|);
  }

  /** Without a flag: the least value, or the seed if there is none. */
  lemma {:induction false} MinIsLeast32(vs: seq<I32>)
    ensures var s := Fold(MIN_I32, vs);
            (vs != [] ==> s in vs) && (vs == [] ==> s == I32_MAX) && forall i | 0 <= i < |vs| :: s <= vs[i]
  {
    if vs != [] {
      MinIsLeast32(vs[..|vs| - 1]);
    }
  }

  lemma {:induction false} MaxIsGreatest32(vs: seq<I32>)
    ensures var s := Fold(MAX_I32, vs);
            (vs != [] ==> s in vs) && (vs == [] ==> s == I32_MIN) && forall i | 0 <= i < |vs| :: s >= vs[i]
  {
    if vs != [] {
      MaxIsGreatest32(vs[..|vs| - 1]);
    }
  }

  // ----- 32-bit floats -----

  type Number = c: F64 | c != NaN witness PosInf

  /** A NaN is never less, so it never gets in. */
  function LessF(s: Number, v: F64): Number {
    if Less(v, s) then v else s
  }

  function MoreF(s: Number, v: F64): Number {
    if Less(s, v) then v else s
  }

  const TOP: Number := PosInf
  const BOTTOM: Number := NegInf

  const MIN_F32: Agg<Number, F64> := Agg(TOP, LessF, (s: Number, t: Number) => LessF(s, t))
  const MAX_F32: Agg<Number, F64> := Agg(BOTTOM, MoreF, (s: Number, t: Number) => MoreF(s, t))

  const SWAP_SUM: Atomic<F64, F64> := Atomic(SUM_F64, false, (s: F64, v: F64) => false)
  const SWAP_MIN: Atomic<Number, F64> := Atomic(MIN_F32, false, (s: Number, v: F64) => !Less(v, s))
  const SWAP_MAX: Atomic<Number, F64> := Atomic(MAX_F32, false, (s: Number, v: F64) => !Less(s, v))

  lemma FloatSumUnordered()
    ensures Unordered(SWAP_SUM)
  {
    hide PlusF;
    forall s: F64, v: F64, w: F64
      ensures PlusF(PlusF(s, v), w) == PlusF(PlusF(s, w), v)
    {
      PlusReorders(s, v, w);
    }
  }

  lemma PlusReorders(s: F64, v: F64, w: F64)
    ensures PlusF(PlusF(s, v), w) == PlusF(PlusF(s, w), v)
  {
  }

  lemma FloatExtremesUnordered()
    ensures Unordered(SWAP_MIN) && Unordered(SWAP_MAX)
  {
  }

  /** The least value that is a number, if there is one. */
  lemma {:induction false} MinIgnoresNaN(vs: seq<F64>)
    ensures var s := Fold(MIN_F32, vs);
            (s == PosInf || s in vs) && forall i | 0 <= i < |vs| :: !Less(vs[i], s)
  {
    if vs != [] {
      MinIgnoresNaN(vs[..|vs| - 1]);
    }
  }

  lemma {:induction false} MaxIgnoresNaN(vs: seq<F64>)
    ensures var s := Fold(MAX_F32, vs);
            (s == NegInf || s in vs) && forall i | 0 <= i < |vs| :: !Less(s, vs[i])
  {
    if vs != [] {
      MaxIgnoresNaN(vs[..|vs| - 1]);
    }
  }

  /** The two widths give one answer exactly for groups without a NaN: the wider poisons, this one ignores. */
  lemma WidthsAgreeExactly(vs: seq<F64>)
    ensures Fold(MIN_F32, vs) == Fold(MIN_F64, vs).value <==> NaN !in vs
    ensures Fold(MAX_F32, vs) == Fold(MAX_F64, vs).value <==> NaN !in vs
  {
    if NaN in vs {
      MinFIsLeast(vs);
      MaxFIsGreatest(vs);
    } else {
      SameExtremes(vs);
    }
  }

  lemma {:induction false} SameExtremes(vs: seq<F64>)
    requires NaN !in vs
    ensures Fold(MIN_F32, vs) == Fold(MIN_F64, vs).value && Fold(MAX_F32, vs) == Fold(MAX_F64, vs).value
  {
    if vs != [] {
      var m := |vs| - 1;
      assert vs[m] != NaN && NaN !in vs[..m];
      SameExtremes(vs[..m]);
    }
  }

  // ----- reducing before racing -----

  const TG_WIDTH: nat := 256
  const MAX_TGS: nat := 128
  const SIMD_WIDTH: nat := 32
  const MAX_GROUPS: nat := 16

  /** Merging partial slots, as an aggregation of its own. */
  function Merger<S, V>(a: Agg<S, V>): Agg<S, S> {
    Agg(a.zero, a.merge, a.merge)
  }

  /** Partial slots merge like values, in any order. */
  ghost predicate Merging<S(!new), V(!new)>(a: Agg<S, V>) {
    Lawful(a) && Lawful(Merger(a)) && forall s: S, t: S :: a.merge(s, t) == a.merge(t, s)
  }

  lemma SumMerges()
    ensures Merging(SUM_F64)
  {
    SumFloatLawful();
    hide PlusF, Lawful;
    assert Merger(SUM_F64) == SUM_F64;
    forall s: F64, t: F64
      ensures PlusF(s, t) == PlusF(t, s)
    {
      PlusCommutes(s, t);
    }
  }

  lemma PlusCommutes(s: F64, t: F64)
    ensures PlusF(s, t) == PlusF(t, s)
  {
  }

  lemma LessMerges()
    ensures Merging(MIN_F32)
  {
    hide LessF;
    forall s: Number, t: Number, v: F64
      ensures LessF(s, LessF(t, v)) == LessF(LessF(s, t), v)
    {
      LessOrders(s, t, v);
    }
    forall s: Number, t: Number
      ensures LessF(s, t) == LessF(t, s)
    {
      LessOrders(s, t, s);
    }
    forall s: Number
      ensures LessF(s, TOP) == s && LessF(TOP, s) == s
    {
      LessOrders(s, s, s);
    }
  }

  lemma LessOrders(s: Number, t: Number, v: F64)
    ensures LessF(s, LessF(t, v)) == LessF(LessF(s, t), v) && LessF(s, t) == LessF(t, s) && LessF(s, TOP) == s == LessF(TOP, s)
  {
  }

  lemma MoreMerges()
    ensures Merging(MAX_F32)
  {
    hide MoreF;
    forall s: Number, t: Number, v: F64
      ensures MoreF(s, MoreF(t, v)) == MoreF(MoreF(s, t), v)
    {
      MoreOrders(s, t, v);
    }
    forall s: Number, t: Number
      ensures MoreF(s, t) == MoreF(t, s)
    {
      MoreOrders(s, t, s);
    }
    forall s: Number
      ensures MoreF(s, BOTTOM) == s && MoreF(BOTTOM, s) == s
    {
      MoreOrders(s, s, s);
    }
  }

  lemma MoreOrders(s: Number, t: Number, v: F64)
    ensures MoreF(s, MoreF(t, v)) == MoreF(MoreF(s, t), v) && MoreF(s, t) == MoreF(t, s) && MoreF(s, BOTTOM) == s == MoreF(BOTTOM, s)
  {
  }

  /** The rows of thread `t` in a grid of `threads`. */
  function Owned<V>(items: seq<Option<V>>, threads: nat, t: nat): (own: seq<Option<V>>)
    requires threads > 0
    ensures |own| == |items|
  {
    seq(|items|, i requires 0 <= i < |items| => if i % threads == t then items[i] else None)
  }

  lemma {:induction false} NothingOwned<V>(items: seq<Option<V>>, groups: seq<nat>, g: nat, threads: nat, t: nat, lo: nat, hi: nat)
    requires threads > 0 && lo <= hi <= |items| == |groups| && forall i | lo <= i < hi :: i % threads != t
    ensures GroupItems(Owned(items, threads, t), groups, g, 0, hi) == GroupItems(Owned(items, threads, t), groups, g, 0, lo)
    decreases hi
  {
    if lo < hi {
      NothingOwned(items, groups, g, threads, t, lo, hi - 1);
    }
  }

  lemma BetweenOwned(row: nat, threads: nat, i: nat)
    requires threads > 0 && row < i < row + threads
    ensures i % threads != row % threads
  {
    var q, r := row / threads, row % threads;
    assert row == q * threads + r;
    if i - q * threads < threads {
      Quotient(i, threads, q);
    } else {
      Distributes(q, 1, threads);
      Quotient(i, threads, q + 1);
    }
  }

  lemma NextOwned(row: nat, threads: nat)
    requires threads > 0
    ensures (row + threads) % threads == row % threads
  {
    var q := row / threads;
    Distributes(q, 1, threads);
    Quotient(row + threads, threads, q + 1);
  }

  function Least(a: nat, b: nat): nat {
    if a < b then a else b
  }

  /** One thread strides over its rows with a slot per group of its own. */
  method ThreadLocal<S(0), V>(a: Agg<S, V>, items: seq<Option<V>>, groups: seq<nat>, nGroups: nat, threads: nat, t: nat)
    returns (slots: seq<S>)
    requires t < threads && |items| == |groups|
    ensures |slots| == nGroups && Aggregated(a, Owned(items, threads, t), groups, 0, |groups|, slots)
  {
    hide Fold, GroupItems;
    var n, row := |groups|, t;
    ghost var own := Owned(items, threads, t);
    var local := new S[nGroups](i => a.zero);
    forall g: nat
      ensures Fold(a, GroupItems(own, groups, g, 0, Least(t, n))) == a.zero
    {
      NothingFolded(a, own, groups, 0);
      NothingOwned(items, groups, g, threads, t, 0, Least(t, n));
    }
    while row < n
      invariant t <= row && row % threads == t
      invariant forall g | 0 <= g < nGroups :: local[g] == Fold(a, GroupItems(own, groups, g, 0, Least(row, n)))
    {
      forall g: nat
        ensures Fold(a, GroupItems(own, groups, g, 0, Least(row + threads, n)))
             == Entered(a, items[row], groups[row] == g, Fold(a, GroupItems(own, groups, g, 0, row)))
      {
        FoldStep(a, own, groups, g, 0, row);
        forall i | row + 1 <= i < Least(row + threads, n)
          ensures i % threads != t
        {
          BetweenOwned(row, threads, i);
        }
        NothingOwned(items, groups, g, threads, t, row + 1, Least(row + threads, n));
      }
      if items[row].Some? && groups[row] < nGroups {
        local[groups[row]] := a.add(local[groups[row]], items[row].value);
      }
      NextOwned(row, threads);
      row := row + threads;
    }
    slots := local[..];
  }

  // ----- the threads' slots together -----

  /** A value that enters one part enters the whole. */
  lemma {:induction false} MergeEnters<S(!new), V(!new)>(a: Agg<S, V>, parts: seq<S>, t: nat, v: V)
    requires Merging(a) && t < |parts|
    ensures Fold(Merger(a), parts[t := a.add(parts[t], v)]) == a.add(Fold(Merger(a), parts), v)
    decreases |parts|
  {
    hide Merging, Fold;
    FoldOnce(Merger(a), parts);
    FoldOnce(Merger(a), parts[t := a.add(parts[t], v)]);
    EntersEither(a, Fold(Merger(a), parts[..|parts| - 1]), parts[|parts| - 1], v);
    var m := |parts| - 1;
    var after := parts[t := a.add(parts[t], v)];
    if t == m {
      assert after[..m] == parts[..m];
    } else {
      MergeEnters(a, parts[..m], t, v);
      assert after[..m] == parts[..m][t := a.add(parts[t], v)];
    }
  }

  lemma EntersEither<S(!new), V(!new)>(a: Agg<S, V>, s: S, t: S, v: V)
    requires Merging(a)
    ensures a.merge(s, a.add(t, v)) == a.add(a.merge(s, t), v) == a.merge(a.add(s, v), t)
  {
    assert a.merge(a.add(s, v), t) == a.merge(t, a.add(s, v)) == a.add(a.merge(t, s), v);
  }

  lemma {:induction false} FoldZeros<S>(a: Agg<S, S>, parts: seq<S>)
    requires a.add(a.zero, a.zero) == a.zero && forall i | 0 <= i < |parts| :: parts[i] == a.zero
    ensures Fold(a, parts) == a.zero
  {
    if parts != [] {
      FoldZeros(a, parts[..|parts| - 1]);
    }
  }

  /** What the threads hold after the rows below `hi`. */
  ghost function Parts<S, V>(a: Agg<S, V>, items: seq<Option<V>>, groups: seq<nat>, g: nat, threads: nat, hi: nat): (parts: seq<S>)
    requires threads > 0 && hi <= |items| == |groups|
    ensures |parts| == threads
  {
    seq(threads, t requires 0 <= t < threads => Fold(a, GroupItems(Owned(items, threads, t), groups, g, 0, hi)))
  }

  /** Together they hold every row once. */
  lemma {:induction false} PartsTogether<S(!new), V(!new)>(a: Agg<S, V>, items: seq<Option<V>>, groups: seq<nat>, g: nat, threads: nat,
                                                           hi: nat)
    requires Merging(a) && threads > 0 && hi <= |items| == |groups|
    ensures Fold(Merger(a), Parts(a, items, groups, g, threads, hi)) == Fold(a, GroupItems(items, groups, g, 0, hi))
    decreases hi
  {
    hide Merging, Fold, GroupItems;
    if hi == 0 {
      NothingPart(a, items, groups, g, threads);
    } else {
      var r := hi - 1;
      PartsTogether(a, items, groups, g, threads, r);
      FoldStep(a, items, groups, g, 0, r);
      var before, after := Parts(a, items, groups, g, threads, r), Parts(a, items, groups, g, threads, hi);
      forall t | 0 <= t < threads
        ensures after[t] == Entered(a, items[r], groups[r] == g && t == r % threads, before[t])
      {
        FoldStep(a, Owned(items, threads, t), groups, g, 0, r);
      }
      if groups[r] == g && items[r].Some? {
        MergeEnters(a, before, r % threads, items[r].value);
        assert after == before[r % threads := a.add(before[r % threads], items[r].value)];
      } else {
        assert after == before;
      }
    }
  }

  lemma ZeroMerges<S(!new), V(!new)>(a: Agg<S, V>)
    requires Merging(a)
    ensures a.merge(a.zero, a.zero) == a.zero
  {
  }

  lemma NothingPart<S(!new), V(!new)>(a: Agg<S, V>, items: seq<Option<V>>, groups: seq<nat>, g: nat, threads: nat)
    requires Merging(a) && threads > 0 && |items| == |groups|
    ensures Fold(Merger(a), Parts(a, items, groups, g, threads, 0)) == Fold(a, GroupItems(items, groups, g, 0, 0))
  {
    hide Merging, Fold, GroupItems;
    var parts := Parts(a, items, groups, g, threads, 0);
    ZeroMerges(a);
    forall t | 0 <= t < threads
      ensures parts[t] == a.zero
    {
      NothingFolded(a, Owned(items, threads, t), groups, 0);
    }
    FoldZeros(Merger(a), parts);
    NothingFolded(a, items, groups, 0);
  }

  /** Folding blocks and then their results is folding the whole. */
  lemma {:induction false} FoldBlocks<S(!new)>(a: Agg<S, S>, xs: seq<S>, m: nat, b: nat)
    requires Lawful(a) && a.add == a.merge && |xs| == m * b
    ensures Fold(a, Blocks(a, xs, m, b)) == Fold(a, xs)
    decreases m
  {
    hide Lawful, Fold, Blocks;
    if m == 0 {
      assert Blocks(a, xs, m, b) == xs;
    } else {
      var cut := (m - 1) * b;
      Distributes(m - 1, 1, b);
      MulNonNegative(m - 1, b);
      FoldBlocks(a, xs[..cut], m - 1, b);
      BlocksPrefix(a, xs, m, b, cut);
      FoldConcat(a, xs[..cut], xs[cut..]);
      assert xs == xs[..cut] + xs[cut..];
      FoldOnce(a, Blocks(a, xs, m, b));
    }
  }

  lemma FoldOnce<S>(a: Agg<S, S>, xs: seq<S>)
    requires xs != []
    ensures Fold(a, xs) == a.add(Fold(a, xs[..|xs| - 1]), xs[|xs| - 1])
  {
  }

  /** The folds of `m` consecutive blocks of `b`. */
  function Blocks<S>(a: Agg<S, S>, xs: seq<S>, m: nat, b: nat): (folds: seq<S>)
    requires |xs| == m * b
    ensures |folds| == m
  {
    seq(m, j requires 0 <= j < m => BlockInside(j, m, b); Fold(a, xs[j * b..j * b + b]))
  }

  lemma BlockInside(j: int, m: int, b: int)
    requires 0 <= j < m && b >= 0
    ensures 0 <= j * b && j * b + b <= m * b
  {
    MulNonNegative(j, b);
    MulMono(j + 1, m, b);
    Distributes(j, 1, b);
  }

  lemma BlocksPrefix<S>(a: Agg<S, S>, xs: seq<S>, m: nat, b: nat, cut: nat)
    requires m > 0 && cut == (m - 1) * b && cut + b == m * b == |xs|
    ensures Blocks(a, xs, m, b)[..m - 1] == Blocks(a, xs[..cut], m - 1, b) && Blocks(a, xs, m, b)[m - 1] == Fold(a, xs[cut..])
  {
    hide Fold;
    forall j | 0 <= j < m - 1
      ensures Blocks(a, xs, m, b)[j] == Blocks(a, xs[..cut], m - 1, b)[j]
    {
      BlockInside(j, m - 1, b);
      assert xs[..cut][j * b..j * b + b] == xs[j * b..j * b + b];
    }
    assert xs[cut..cut + b] == xs[cut..];
  }

  // ----- the threadgroups' totals -----

  lemma {:induction false} NoneOfGroup<V>(items: seq<Option<V>>, groups: seq<nat>, g: nat, lo: nat, hi: nat)
    requires lo <= hi <= |items| == |groups| && forall i | lo <= i < hi :: groups[i] != g
    ensures GroupItems(items, groups, g, lo, hi) == []
    decreases hi
  {
    if lo < hi {
      NoneOfGroup(items, groups, g, lo, hi - 1);
    }
  }

  /** A block of one item per group holds one item of group `g`. */
  lemma OneOfBlock<V>(items: seq<Option<V>>, groups: seq<nat>, g: nat, base: nat, nGroups: nat)
    requires g < nGroups && base + nGroups <= |items| == |groups|
    requires forall i | base <= i < base + nGroups :: groups[i] == i - base
    ensures GroupItems(items, groups, g, base, base + nGroups) == if items[base + g].Some? then [items[base + g].value] else []
  {
    hide GroupItems;
    GroupItemsConcat(items, groups, g, base, base + g, base + nGroups);
    GroupItemsConcat(items, groups, g, base + g, base + g + 1, base + nGroups);
    NoneOfGroup(items, groups, g, base, base + g);
    NoneOfGroup(items, groups, g, base + g + 1, base + nGroups);
    OneRow(items, groups, g, base + g);
  }

  /** What the threadgroups race with: their totals, group by group, those that are the identity left out. */
  function Racing<S(==)>(zero: S, totals: seq<S>): (items: seq<Option<S>>)
    ensures |items| == |totals|
  {
    seq(|totals|, i requires 0 <= i < |totals| => if totals[i] == zero then None else Some(totals[i]))
  }

  function GroupOf(n: nat, nGroups: nat): (groups: seq<nat>)
    ensures |groups| == n
  {
    seq(n, i => if nGroups == 0 then 0 else i % nGroups)
  }

  /** The totals of one group. */
  function Strided<S>(totals: seq<S>, m: nat, nGroups: nat, g: nat): (own: seq<S>)
    requires g < nGroups && m * nGroups <= |totals|
    ensures |own| == m
  {
    seq(m, j requires 0 <= j < m => RowBound(j, g, nGroups, m); totals[j * nGroups + g])
  }

  lemma {:induction false} RacingTotals<S(!new)>(a: Agg<S, S>, totals: seq<S>, m: nat, nGroups: nat, g: nat)
    requires Lawful(a) && a.add == a.merge && g < nGroups && m * nGroups <= |totals|
    ensures m * nGroups >= 0
    ensures Fold(a, GroupItems(Racing(a.zero, totals), GroupOf(|totals|, nGroups), g, 0, m * nGroups)) == Fold(a, Strided(totals, m, nGroups, g))
    decreases m
  {
    hide Fold, GroupItems, Lawful;
    MulNonNegative(m, nGroups);
    var items, groups := Racing(a.zero, totals), GroupOf(|totals|, nGroups);
    if m == 0 {
      NoneOfGroup(items, groups, g, 0, 0);
      assert m * nGroups == 0;
      assert Strided(totals, m, nGroups, g) == [];
    } else {
      var base := (m - 1) * nGroups;
      MulNonNegative(m - 1, nGroups);
      Distributes(m - 1, 1, nGroups);
      RacingTotals(a, totals, m - 1, nGroups, g);
      GroupItemsConcat(items, groups, g, 0, base, base + nGroups);
      forall i | base <= i < base + nGroups
        ensures groups[i] == i - base
      {
        DivMod(m - 1, i - base, nGroups);
      }
      OneOfBlock(items, groups, g, base, nGroups);
      var xs, own := GroupItems(items, groups, g, 0, base), Strided(totals, m, nGroups, g);
      assert own[..m - 1] == Strided(totals, m - 1, nGroups, g);
      FoldOnce(a, own);
      Appended(a, xs, totals[base + g]);
      assert xs + [] == xs;
    }
  }

  lemma Appended<S(!new)>(a: Agg<S, S>, xs: seq<S>, v: S)
    requires Lawful(a) && a.add == a.merge
    ensures Fold(a, xs + [v]) == a.add(Fold(a, xs), v) && (v == a.zero ==> a.add(Fold(a, xs), v) == Fold(a, xs))
  {
    assert (xs + [v])[..|xs|] == xs;
  }

  function Column<S>(locals: seq<seq<S>>, g: nat): (col: seq<S>)
    requires forall t | 0 <= t < |locals| :: g < |locals[t]|
    ensures |col| == |locals|
  {
    seq(|locals|, t requires 0 <= t < |locals| => locals[t][g])
  }

  /** A threadgroup's total: first its simdgroups, then those. */
  function GroupTotal<S>(a: Agg<S, S>, col: seq<S>, tg: nat): S
    requires tg * TG_WIDTH + TG_WIDTH <= |col|
  {
    Fold(a, Blocks(a, col[tg * TG_WIDTH..tg * TG_WIDTH + TG_WIDTH], TG_WIDTH / SIMD_WIDTH, SIMD_WIDTH))
  }

  lemma TotalsOfColumn<S(!new)>(a: Agg<S, S>, col: seq<S>, tgs: nat, own: seq<S>)
    requires Lawful(a) && a.add == a.merge && |col| == tgs * TG_WIDTH && |own| == tgs
    requires forall tg | 0 <= tg < tgs :: own[tg] == GroupTotal(a, col, tg)
    ensures Fold(a, own) == Fold(a, col)
  {
    hide Fold, Lawful;
    forall tg | 0 <= tg < tgs
      ensures own[tg] == Blocks(a, col, tgs, TG_WIDTH)[tg]
    {
      FoldBlocks(a, col[tg * TG_WIDTH..tg * TG_WIDTH + TG_WIDTH], TG_WIDTH / SIMD_WIDTH, SIMD_WIDTH);
    }
    assert own == Blocks(a, col, tgs, TG_WIDTH);
    FoldBlocks(a, col, tgs, TG_WIDTH);
  }

  /** The number of threadgroups: enough for the rows, at least one, at most the cap. */
  function Threadgroups(n: nat): (tgs: nat)
    ensures 1 <= tgs <= MAX_TGS
  {
    var target := (n + TG_WIDTH - 1) / TG_WIDTH;
    if target < 1 then 1 else if target > MAX_TGS then MAX_TGS else target
  }

  /** The kernel for few groups: threads reduce their rows, simdgroups and threadgroups their threads, and
      only the threadgroups race. */
  method PreReduce<S(0, ==, !new), V(!new)>(a: Agg<S, V>, swap: Atomic<S, S>, items: seq<Option<V>>, groups: seq<nat>, nGroups: nat,
                                            schedule: seq<Tick>) returns (out: seq<S>)
    requires Merging(a) && Unordered(swap) && swap.agg == Merger(a) && |items| == |groups|
    ensures |out| == nGroups && Aggregated(a, items, groups, 0, |groups|, out)
  {
    hide Fold, GroupItems, Merging, Unordered, GroupTotal, Lawful;
    var tgs := Threadgroups(|groups|);
    var threads := tgs * TG_WIDTH;
    var locals: seq<seq<S>> := [];
    for t := 0 to threads
      invariant |locals| == t
      invariant forall u | 0 <= u < t :: |locals[u]| == nGroups && Aggregated(a, Owned(items, threads, u), groups, 0, |groups|, locals[u])
    {
      var slots := ThreadLocal(a, items, groups, nGroups, threads, t);
      locals := locals + [slots];
    }
    MulNonNegative(tgs, nGroups);
    var totals := seq(tgs * nGroups, i requires 0 <= i < tgs * nGroups =>
      TotalInside(i, nGroups, tgs); GroupTotal(Merger(a), Column(locals, i % nGroups), i / nGroups));
    var racing, racers := Racing(a.zero, totals), GroupOf(|totals|, nGroups);
    forall i | 0 <= i < |racers|
      ensures racers[i] < nGroups
    {
      TotalInside(i, nGroups, tgs);
    }
    out := LaunchAtomics(swap, racing, racers, nGroups, schedule);
    MergerLawful(a);
    forall g | 0 <= g < nGroups
      ensures out[g] == Fold(a, GroupItems(items, groups, g, 0, |groups|))
    {
      RacingTotals(Merger(a), totals, tgs, nGroups, g);
      var col, own := Column(locals, g), Strided(totals, tgs, nGroups, g);
      forall tg | 0 <= tg < tgs
        ensures own[tg] == GroupTotal(Merger(a), col, tg)
      {
        RowBound(tg, g, nGroups, tgs);
        DivMod(tg, g, nGroups);
      }
      TotalsOfColumn(Merger(a), col, tgs, own);
      assert col == Parts(a, items, groups, g, threads, |groups|);
      PartsTogether(a, items, groups, g, threads, |groups|);
    }
  }

  lemma TotalInside(i: nat, nGroups: nat, tgs: nat)
    requires i < tgs * nGroups
    ensures nGroups > 0 && i % nGroups < nGroups && 0 <= i / nGroups < tgs && i / nGroups * TG_WIDTH + TG_WIDTH <= tgs * TG_WIDTH
  {
    Split(i, nGroups, tgs);
    MulMono(i / nGroups + 1, tgs, TG_WIDTH);
  }

  lemma MergerLawful<S(!new), V(!new)>(a: Agg<S, V>)
    requires Merging(a)
    ensures Lawful(Merger(a))
  {
  }

  // ----- routing by cardinality -----

  const MERGE_SUM: Atomic<F64, F64> := Atomic(Merger(SUM_F64), false, (s: F64, v: F64) => false)
  const MERGE_MIN: Atomic<Number, Number> := Atomic(Merger(MIN_F32), false, (s: Number, v: Number) => !Less(v, s))
  const MERGE_MAX: Atomic<Number, Number> := Atomic(Merger(MAX_F32), false, (s: Number, v: Number) => !Less(s, v))

  lemma SumMergesUnordered()
    ensures Unordered(MERGE_SUM)
  {
    hide PlusF;
    forall s: F64, v: F64, w: F64
      ensures PlusF(PlusF(s, v), w) == PlusF(PlusF(s, w), v)
    {
      PlusReorders(s, v, w);
    }
  }

  lemma LessMergesUnordered()
    ensures Unordered(MERGE_MIN)
  {
    hide LessF;
    forall s: Number, v: Number, w: Number
      ensures LessF(LessF(s, v), w) == LessF(LessF(s, w), v)
      ensures !Less(v, s) ==> LessF(s, v) == s && !Less(v, LessF(s, w))
    {
      LessSwaps(s, v, w);
    }
    forall s: Number, v: Number | !Less(v, s)
      ensures LessF(s, v) == s
    {
      LessSwaps(s, v, v);
    }
  }

  lemma LessSwaps(s: Number, v: Number, w: Number)
    ensures LessF(LessF(s, v), w) == LessF(LessF(s, w), v)
    ensures !Less(v, s) ==> LessF(s, v) == s && !Less(v, LessF(s, w))
  {
  }

  lemma MoreMergesUnordered()
    ensures Unordered(MERGE_MAX)
  {
    hide MoreF;
    forall s: Number, v: Number, w: Number
      ensures MoreF(MoreF(s, v), w) == MoreF(MoreF(s, w), v)
      ensures !Less(s, v) ==> MoreF(s, v) == s && !Less(MoreF(s, w), v)
    {
      MoreSwaps(s, v, w);
    }
    forall s: Number, v: Number | !Less(s, v)
      ensures MoreF(s, v) == s
    {
      MoreSwaps(s, v, v);
    }
  }

  lemma MoreSwaps(s: Number, v: Number, w: Number)
    ensures MoreF(MoreF(s, v), w) == MoreF(MoreF(s, w), v)
    ensures !Less(s, v) ==> MoreF(s, v) == s && !Less(MoreF(s, w), v)
  {
  }

  /** `dispatch_agg_f32`: few groups are reduced before racing, many race row by row; the slots are the same. */
  method DispatchAggF32<S(0, ==, !new), V(!new)>(k: Atomic<S, V>, swap: Atomic<S, S>, items: seq<Option<V>>, groups: seq<nat>,
                                                 nGroups: nat, schedule: seq<Tick>) returns (out: seq<S>)
    requires Merging(k.agg) && Unordered(k) && Unordered(swap) && swap.agg == Merger(k.agg) && |items| == |groups|
    requires forall i | 0 <= i < |groups| :: groups[i] < nGroups
    ensures |out| == nGroups && Aggregated(k.agg, items, groups, 0, |groups|, out)
  {
    if nGroups <= MAX_GROUPS {
      out := PreReduce(k.agg, swap, items, groups, nGroups, schedule);
    } else {
      out := LaunchAtomics(k, items, groups, nGroups, schedule);
    }
  }
}

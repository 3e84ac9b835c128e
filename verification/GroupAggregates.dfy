/** Per-group aggregation by parallel fold and reduce: the answer does not depend on how the
    rows are split into chunks or in what tree the partial results are merged. */
module GroupAggregates {
  import opened Options

  // ----- one slot -----

  /** A slot's initial value, how a row enters it, and how two partial slots merge. */
  datatype Agg<!S, !V> = Agg(zero: S, add: (S, V) -> S, merge: (S, S) -> S)

  /** Merging continues where adding stopped. */
  ghost predicate Lawful<S(!new), V(!new)>(a: Agg<S, V>) {
    (forall s: S :: a.merge(s, a.zero) == s) && (forall s: S :: a.merge(a.zero, s) == s) &&
    forall s: S, t: S, v: V :: a.merge(s, a.add(t, v)) == a.add(a.merge(s, t), v)
  }

  /** The sequential specification: the values of one group, in row order. */
  function Fold<S, V>(a: Agg<S, V>, vs: seq<V>): S {
    if vs == [] then a.zero else a.add(Fold(a, vs[..|vs| - 1]), vs[|vs| - 1])
  }

  lemma {:induction false} FoldConcat<S(!new), V(!new)>(a: Agg<S, V>, xs: seq<V>, ys: seq<V>)
    requires Lawful(a)
    ensures Fold(a, xs + ys) == a.merge(Fold(a, xs), Fold(a, ys))
    decreases |ys|
  {
    if ys == [] {
      assert xs + ys == xs;
    } else {
      var m := |ys| - 1;
      FoldConcat(a, xs, ys[..m]);
      assert (xs + ys)[..|xs| + m] == xs + ys[..m];
    }
  }

  // ----- rows -----

  /** The rows of group `g` in `lo..hi` that carry a value. */
  function GroupItems<V>(items: seq<Option<V>>, groups: seq<nat>, g: nat, lo: nat, hi: nat): seq<V>
    requires lo <= hi <= |items| && hi <= |groups|
  {
    if lo == hi then []
    else
      GroupItems(items, groups, g, lo, hi - 1)
      + (if groups[hi - 1] == g && items[hi - 1].Some? then [items[hi - 1].value] else [])
  }

  lemma {:induction false} GroupItemsConcat<V>(items: seq<Option<V>>, groups: seq<nat>, g: nat, lo: nat, mid: nat, hi: nat)
    requires lo <= mid <= hi <= |items| && hi <= |groups|
    ensures GroupItems(items, groups, g, lo, hi) == GroupItems(items, groups, g, lo, mid) + GroupItems(items, groups, g, mid, hi)
    decreases hi
  {
    if mid < hi {
      GroupItemsConcat(items, groups, g, lo, mid, hi - 1);
    }
  }

  /** How the work is split: chunks folded from scratch, and the tree that merges them, with
      fresh identities anywhere in it. */
  datatype Plan = Identity | Chunk(lo: nat, hi: nat) | Merge(left: Plan, mid: nat, right: Plan)

  predicate Contiguous(p: Plan, lo: nat, hi: nat) {
    lo <= hi &&
    match p
    case Identity => lo == hi
    case Chunk(a, b) => a == lo && b == hi
    case Merge(l, mid, r) => Contiguous(l, lo, mid) && Contiguous(r, mid, hi)
  }

  /** The slots of all groups after the rows `lo..hi`. */
  ghost predicate Aggregated<S, V>(a: Agg<S, V>, items: seq<Option<V>>, groups: seq<nat>, lo: nat, hi: nat, out: seq<S>)
    requires lo <= hi <= |items| && hi <= |groups|
  {
    forall g | 0 <= g < |out| :: out[g] == Fold(a, GroupItems(items, groups, g, lo, hi))
  }

  lemma FoldStep<S, V>(a: Agg<S, V>, items: seq<Option<V>>, groups: seq<nat>, g: nat, lo: nat, i: nat)
    requires lo <= i < |items| && i < |groups|
    ensures Fold(a, GroupItems(items, groups, g, lo, i + 1)) == Entered(a, items[i], groups[i] == g, Fold(a, GroupItems(items, groups, g, lo, i)))
  {
    var xs := GroupItems(items, groups, g, lo, i);
    if groups[i] == g && items[i].Some? {
      assert (xs + [items[i].value])[..|xs|] == xs;
    } else {
      assert xs + [] == xs;
    }
  }

  /** A slot after a row. */
  function Entered<S, V>(a: Agg<S, V>, item: Option<V>, mine: bool, s: S): S {
    if mine && item.Some? then a.add(s, item.value) else s
  }

  /** The fold of one chunk: a fresh vector of slots, updated row by row. */
  method FoldChunk<S(0), V>(a: Agg<S, V>, items: seq<Option<V>>, groups: seq<nat>, nGroups: nat, lo: nat, hi: nat)
    returns (out: seq<S>)
    requires lo <= hi <= |items| && hi <= |groups|
    ensures |out| == nGroups && Aggregated(a, items, groups, lo, hi, out)
  {
    hide Fold, GroupItems;
    NothingFolded(a, items, groups, lo);
    var local := new S[nGroups](i => a.zero);
    for i := lo to hi
      invariant forall g | 0 <= g < nGroups :: local[g] == Fold(a, GroupItems(items, groups, g, lo, i))
    {
      forall g: nat | g < nGroups
        ensures Fold(a, GroupItems(items, groups, g, lo, i + 1))
             == Entered(a, items[i], groups[i] == g, Fold(a, GroupItems(items, groups, g, lo, i)))
      {
        FoldStep(a, items, groups, g, lo, i);
      }
      if items[i].Some? && groups[i] < nGroups {
        local[groups[i]] := a.add(local[groups[i]], items[i].value);
      }
    }
    out := local[..];
  }

  /** Fold and reduce along any plan that covers the rows once, in order: every group's slot is
      the sequential fold of its values. */
  method RunPlan<S(0, !new), V(!new)>(a: Agg<S, V>, items: seq<Option<V>>, groups: seq<nat>, nGroups: nat, p: Plan,
                                      ghost lo: nat, ghost hi: nat)
    returns (out: seq<S>)
    requires Lawful(a) && hi <= |items| && hi <= |groups| && Contiguous(p, lo, hi)
    ensures |out| == nGroups && Aggregated(a, items, groups, lo, hi, out)
    decreases p
  {
    hide Lawful, Fold, GroupItems;
    match p
    case Identity =>
      NothingFolded(a, items, groups, lo);
      out := seq(nGroups, g => a.zero);
    case Chunk(x, y) =>
      out := FoldChunk(a, items, groups, nGroups, x, y);
    case Merge(l, mid, r) =>
      var left := RunPlan(a, items, groups, nGroups, l, lo, mid);
      var right := RunPlan(a, items, groups, nGroups, r, mid, hi);
      out := seq(nGroups, g requires 0 <= g < nGroups => a.merge(left[g], right[g]));
      forall g | 0 <= g < nGroups
        ensures out[g] == Fold(a, GroupItems(items, groups, g, lo, hi))
      {
        GroupItemsConcat(items, groups, g, lo, mid, hi);
        FoldConcat(a, GroupItems(items, groups, g, lo, mid), GroupItems(items, groups, g, mid, hi));
      }
  }

  lemma NothingFolded<S, V>(a: Agg<S, V>, items: seq<Option<V>>, groups: seq<nat>, lo: nat)
    requires lo <= |items| && lo <= |groups|
    ensures forall g: nat :: Fold(a, GroupItems(items, groups, g, lo, lo)) == a.zero
  {
  }

  // ----- 64-bit integers -----

  const TWO63: int := 0x8000_0000_0000_0000
  const TWO64: int := 0x1_0000_0000_0000_0000

  type I64 = x: int | -TWO63 <= x < TWO63

  /** Two's-complement wrap-around. */
  function Wrap(x: int): (r: I64)
    ensures -TWO63 <= x < TWO63 ==> r == x
  {
    (x + TWO63) % TWO64 - TWO63
  }

  lemma WrapPeriod(x: int, k: int)
    ensures Wrap(x + k * TWO64) == Wrap(x)
  {
    var a := x + TWO63;
    assert (a + k * TWO64) % TWO64 == a % TWO64;
  }

  lemma WrapAdd(x: int, y: int)
    ensures Wrap(Wrap(x) + y) == Wrap(x + y) && Wrap(x + Wrap(y)) == Wrap(x + y)
  {
    var j, k := (x + TWO63) / TWO64, (y + TWO63) / TWO64;
    assert Wrap(x) == x - j * TWO64 && Wrap(y) == y - k * TWO64;
    WrapPeriod(x + y, -j);
    WrapPeriod(x + y, -k);
  }

  function Total(vs: seq<I64>): int {
    if vs == [] then 0 else Total(vs[..|vs| - 1]) + vs[|vs| - 1]
  }

  function AddI64(s: I64, v: I64): I64 {
    Wrap(s + v)
  }

  const SUM_I64: Agg<I64, I64> := Agg(0, AddI64, AddI64)

  lemma SumLawful()
    ensures Lawful(SUM_I64)
  {
    hide Wrap;
    forall s: I64, t: I64, v: I64
      ensures AddI64(s, AddI64(t, v)) == AddI64(AddI64(s, t), v)
    {
      WrapAdd(s, t + v);
      WrapAdd(s + t, v);
    }
  }

  /** The wrapping sum is the true sum, wrapped once. */
  lemma {:induction false} SumIsWrapped(vs: seq<I64>)
    ensures Fold(SUM_I64, vs) == Wrap(Total(vs))
  {
    if vs != [] {
      var m := |vs| - 1;
      SumIsWrapped(vs[..m]);
      WrapAdd(Total(vs[..m]), vs[m]);
    }
  }

  datatype Extreme<T> = Extreme(value: T, has: bool)

  function AddMin(s: Extreme<I64>, v: I64): Extreme<I64> {
    Extreme(if v < s.value then v else s.value, true)
  }

  function MergeMin(s: Extreme<I64>, t: Extreme<I64>): Extreme<I64> {
    Extreme(if t.value < s.value then t.value else s.value, s.has || t.has)
  }

  function AddMax(s: Extreme<I64>, v: I64): Extreme<I64> {
    Extreme(if v > s.value then v else s.value, true)
  }

  function MergeMax(s: Extreme<I64>, t: Extreme<I64>): Extreme<I64> {
    Extreme(if t.value > s.value then t.value else s.value, s.has || t.has)
  }

  const MIN_I64: Agg<Extreme<I64>, I64> := Agg(Extreme(TWO63 - 1, false), AddMin, MergeMin)
  const MAX_I64: Agg<Extreme<I64>, I64> := Agg(Extreme(-TWO63, false), AddMax, MergeMax)

  lemma MinLawful()
    ensures Lawful(MIN_I64) && Lawful(MAX_I64)
  {
  }

  /** The flag is set exactly when the group has a value, and then the slot is its minimum. */
  lemma {:induction false} MinIsLeast(vs: seq<I64>)
    ensures var s := Fold(MIN_I64, vs);
            (s.has <==> vs != []) && (vs != [] ==> s.value in vs) && forall i | 0 <= i < |vs| :: s.value <= vs[i]
  {
    if vs != [] {
      MinIsLeast(vs[..|vs| - 1]);
    }
  }

  lemma {:induction false} MaxIsGreatest(vs: seq<I64>)
    ensures var s := Fold(MAX_I64, vs);
            (s.has <==> vs != []) && (vs != [] ==> s.value in vs) && forall i | 0 <= i < |vs| :: s.value >= vs[i]
  {
    if vs != [] {
      MaxIsGreatest(vs[..|vs| - 1]);
    }
  }

  // ----- 64-bit floats -----

  /** Ordered: negative infinity, the finite numbers, infinity; and NaN apart. */
  datatype F64 = NaN | NegInf | Fin(x: real) | PosInf

  predicate Less(a: F64, b: F64) {
    match a
    case NaN => false
    case NegInf => b.Fin? || b.PosInf?
    case Fin(x) => b.PosInf? || (b.Fin? && x < b.x)
    case PosInf => false
  }

  function PoisonMin(a: F64, b: F64): F64 {
    if a.NaN? || b.NaN? then NaN else if Less(b, a) then b else a
  }

  function PoisonMax(a: F64, b: F64): F64 {
    if a.NaN? || b.NaN? then NaN else if Less(a, b) then b else a
  }

  function AddMinF(s: Extreme<F64>, v: F64): Extreme<F64> {
    Extreme(PoisonMin(s.value, v), true)
  }

  function MergeMinF(s: Extreme<F64>, t: Extreme<F64>): Extreme<F64> {
    Extreme(PoisonMin(s.value, t.value), s.has || t.has)
  }

  function AddMaxF(s: Extreme<F64>, v: F64): Extreme<F64> {
    Extreme(PoisonMax(s.value, v), true)
  }

  function MergeMaxF(s: Extreme<F64>, t: Extreme<F64>): Extreme<F64> {
    Extreme(PoisonMax(s.value, t.value), s.has || t.has)
  }

  const MIN_F64: Agg<Extreme<F64>, F64> := Agg(Extreme(PosInf, false), AddMinF, MergeMinF)
  const MAX_F64: Agg<Extreme<F64>, F64> := Agg(Extreme(NegInf, false), AddMaxF, MergeMaxF)

  lemma MinFloatLawful()
    ensures Lawful(MIN_F64)
  {
    hide PoisonMin;
    forall a: F64
      ensures PoisonMin(a, PosInf) == a == PoisonMin(PosInf, a)
    {
      PoisonIdentity(a);
    }
    forall s: Extreme<F64>, t: Extreme<F64>, v: F64
      ensures MergeMinF(s, AddMinF(t, v)) == AddMinF(MergeMinF(s, t), v)
    {
      PoisonAssociates(s.value, t.value, v);
    }
  }

  lemma MaxFloatLawful()
    ensures Lawful(MAX_F64)
  {
    hide PoisonMax;
    forall a: F64
      ensures PoisonMax(a, NegInf) == a == PoisonMax(NegInf, a)
    {
      PoisonIdentity(a);
    }
    forall s: Extreme<F64>, t: Extreme<F64>, v: F64
      ensures MergeMaxF(s, AddMaxF(t, v)) == AddMaxF(MergeMaxF(s, t), v)
    {
      PoisonAssociates(s.value, t.value, v);
    }
  }

  lemma PoisonIdentity(a: F64)
    ensures PoisonMin(a, PosInf) == a == PoisonMin(PosInf, a)
    ensures PoisonMax(a, NegInf) == a == PoisonMax(NegInf, a)
  {
  }

  lemma PoisonAssociates(a: F64, b: F64, c: F64)
    ensures PoisonMin(a, PoisonMin(b, c)) == PoisonMin(PoisonMin(a, b), c)
    ensures PoisonMax(a, PoisonMax(b, c)) == PoisonMax(PoisonMax(a, b), c)
  {
  }

  /** One NaN makes the group NaN; without one the slot is the group's minimum. */
  lemma {:induction false} MinFIsLeast(vs: seq<F64>)
    ensures var s := Fold(MIN_F64, vs);
            (s.has <==> vs != []) && (NaN in vs ==> s.value == NaN) &&
            (NaN !in vs ==> (vs != [] ==> s.value in vs) && s.value != NaN && forall i | 0 <= i < |vs| :: !Less(vs[i], s.value))
  {
    if vs != [] {
      var m := |vs| - 1;
      assert vs == vs[..m] + [vs[m]];
      MinFIsLeast(vs[..m]);
    }
  }

  lemma {:induction false} MaxFIsGreatest(vs: seq<F64>)
    ensures var s := Fold(MAX_F64, vs);
            (s.has <==> vs != []) && (NaN in vs ==> s.value == NaN) &&
            (NaN !in vs ==> (vs != [] ==> s.value in vs) && s.value != NaN && forall i | 0 <= i < |vs| :: !Less(s.value, vs[i]))
  {
    if vs != [] {
      var m := |vs| - 1;
      assert vs == vs[..m] + [vs[m]];
      MaxFIsGreatest(vs[..m]);
    }
  }

  /** Addition without rounding; opposite infinities cancel to NaN. */
  function PlusF(a: F64, b: F64): F64 {
    if a.NaN? || b.NaN? || (a.PosInf? && b.NegInf?) || (a.NegInf? && b.PosInf?) then NaN
    else if a.Fin? && b.Fin? then Fin(a.x + b.x)
    else if a.Fin? then b
    else a
  }

  const SUM_F64: Agg<F64, F64> := Agg(Fin(0.0), PlusF, PlusF)

  lemma SumFloatLawful()
    ensures Lawful(SUM_F64)
  {
    hide PlusF;
    forall a: F64
      ensures PlusF(a, Fin(0.0)) == a == PlusF(Fin(0.0), a)
    {
      PlusIdentity(a);
    }
    forall s: F64, t: F64, v: F64
      ensures PlusF(s, PlusF(t, v)) == PlusF(PlusF(s, t), v)
    {
      PlusAssociates(s, t, v);
    }
  }

  lemma PlusIdentity(a: F64)
    ensures PlusF(a, Fin(0.0)) == a == PlusF(Fin(0.0), a)
  {
  }

  lemma PlusAssociates(a: F64, b: F64, c: F64)
    ensures PlusF(a, PlusF(b, c)) == PlusF(PlusF(a, b), c)
  {
  }

  /** The sum of the finite values. */
  function FiniteTotal(vs: seq<F64>): real {
    if vs == [] then 0.0
    else FiniteTotal(vs[..|vs| - 1]) + (if vs[|vs| - 1].Fin? then vs[|vs| - 1].x else 0.0)
  }

  /** What a sum is: NaN if it meets one or both infinities, else an infinity it meets, else the
      total. */
  function Summed(vs: seq<F64>): F64 {
    if NaN in vs || (PosInf in vs && NegInf in vs) then NaN
    else if PosInf in vs then PosInf
    else if NegInf in vs then NegInf
    else Fin(FiniteTotal(vs))
  }

  lemma {:induction false} SumFIsSummed(vs: seq<F64>)
    ensures Fold(SUM_F64, vs) == Summed(vs)
  {
    if vs != [] {
      var m := |vs| - 1;
      assert vs == vs[..m] + [vs[m]];
      SumFIsSummed(vs[..m]);
    }
  }

  // ----- counts and means -----

  function AddCount(s: nat, v: ()): nat {
    s + 1
  }

  function MergeCount(s: nat, t: nat): nat {
    s + t
  }

  const COUNT: Agg<nat, ()> := Agg(0, AddCount, MergeCount)

  lemma CountLawful()
    ensures Lawful(COUNT)
  {
  }

  lemma {:induction false} CountIsLength(vs: seq<()>)
    ensures Fold(COUNT, vs) == |vs|
  {
    if vs != [] {
      CountIsLength(vs[..|vs| - 1]);
    }
  }

  /** `compute_mean_i64` for one group. */
  function MeanOf(sum: I64, count: nat): Option<real> {
    if count == 0 then None else Some(sum as real / count as real)
  }

  /** A float divided by a count. */
  function Shared(sum: F64, count: nat): F64
    requires count > 0
  {
    if sum.Fin? then Fin(sum.x / count as real) else sum
  }

  /** `compute_mean_f64` for one group. */
  function MeanOfFloats(sum: F64, count: nat): Option<F64> {
    if count == 0 then None else Some(Shared(sum, count))
  }

  /** The smallest overflow: the mean of the largest integer and one comes out negative. */
  lemma OverflowingMean()
    ensures var vs: seq<I64> := [TWO63 - 1, 1];
            MeanOf(Fold(SUM_I64, vs), |vs|) == Some(-0x4000_0000_0000_0000 as real)
            && Total(vs) as real / |vs| as real == 0x4000_0000_0000_0000 as real
  {
    var vs: seq<I64> := [TWO63 - 1, 1];
    assert vs[..1] == [TWO63 - 1] && vs[..1][..0] == [];
    assert Total(vs[..1]) == TWO63 - 1 && Total(vs) == TWO63;
    SumIsWrapped(vs);
    assert Wrap(TWO63) == -TWO63;
  }

  lemma MeanInjective(a: int, b: int, n: nat)
    requires n > 0
    ensures a as real / n as real == b as real / n as real <==> a == b
  {
    var x, y, m := a as real, b as real, n as real;
    if x / m == y / m {
      assert x == (x / m) * m && y == (y / m) * m;
    }
  }

  /** The integer mean is the true mean exactly when the sum does not overflow 64 bits. */
  lemma MeanExactly(vs: seq<I64>)
    requires vs != []
    ensures MeanOf(Fold(SUM_I64, vs), |vs|) == Some(Total(vs) as real / |vs| as real) <==> -TWO63 <= Total(vs) < TWO63
  {
    SumIsWrapped(vs);
    MeanInjective(Wrap(Total(vs)), Total(vs), |vs|);
  }
}

/** Filter compaction: keep flags, an inclusive prefix sum, and a scatter whose threads race.
    Threads are modelled as two atomic steps each, interleaved in any order. */
module FilterCompaction {
  import opened BitArith
  import opened NullBitmap
  import opened Options

  const U32: nat := 0x1_0000_0000

  // ----- the rows that survive -----

  /** The rows below `i` that are kept, in order. */
  function KeptRows(keep: seq<nat>, i: nat): (rows: seq<nat>)
    requires i <= |keep|
    ensures |rows| <= i && forall p | 0 <= p < |rows| :: rows[p] < i && keep[rows[p]] != 0
  {
    if i == 0 then []
    else KeptRows(keep, i - 1) + (if keep[i - 1] != 0 then [i - 1] else [])
  }

  lemma {:induction false} KeptAscend(keep: seq<nat>, i: nat, p: nat, q: nat)
    requires i <= |keep| && p < q < |KeptRows(keep, i)|
    ensures KeptRows(keep, i)[p] < KeptRows(keep, i)[q]
  {
    if q < |KeptRows(keep, i - 1)| {
      KeptAscend(keep, i - 1, p, q);
    }
  }

  lemma {:induction false} KeptGrow(keep: seq<nat>, i: nat, n: nat)
    requires i <= n <= |keep|
    ensures KeptRows(keep, i) <= KeptRows(keep, n)
    decreases n
  {
    if i < n {
      KeptGrow(keep, i, n - 1);
    }
  }

  /** A kept row's place among the survivors is its inclusive count, less one. */
  lemma PlaceOf(keep: seq<nat>, gid: nat, n: nat)
    requires gid < n <= |keep| && keep[gid] != 0
    ensures var p := |KeptRows(keep, gid + 1)| - 1; 0 <= p < |KeptRows(keep, n)| && KeptRows(keep, n)[p] == gid
  {
    KeptGrow(keep, gid + 1, n);
  }

  /** And a survivor's row counts exactly the survivors up to it. */
  lemma RowOfPlace(keep: seq<nat>, n: nat, p: nat)
    requires n <= |keep| && p < |KeptRows(keep, n)|
    ensures var gid := KeptRows(keep, n)[p]; |KeptRows(keep, gid + 1)| - 1 == p
  {
    hide KeptRows;
    var rows := KeptRows(keep, n);
    var gid := rows[p];
    PlaceOf(keep, gid, n);
    var q := |KeptRows(keep, gid + 1)| - 1;
    if p < q {
      KeptAscend(keep, n, p, q);
    } else if q < p {
      KeptAscend(keep, n, q, p);
    }
  }

  /** The kept elements, in source order. */
  function Survivors<T>(xs: seq<T>, keep: seq<nat>): (out: seq<T>)
    requires |xs| == |keep|
    ensures |out| == |KeptRows(keep, |keep|)|
  {
    var rows := KeptRows(keep, |keep|);
    seq(|rows|, p requires 0 <= p < |rows| => xs[rows[p]])
  }

  // ----- passes 1 and 2 -----

  datatype FilterError =
    | InputLengthMismatch(bytes: nat, minBytes: nat, nRows: nat)
    | OutputLengthMismatch(got: nat, expected: nat)
    | RowCountOverflow(nRows: nat)
    | ScatterOverrun
    | DstDataTooSmall(got: nat, expected: nat)
    | DstValidTooSmall(got: nat, expected: nat)
    | ScatterPrefixSumMismatch(lastPrefix: nat, nOut: nat)

  ghost predicate KeepFlags(predData: seq<Byte>, predValid: seq<Byte>, keep: seq<nat>) {
    forall i | 0 <= i < |keep| :: keep[i] == if GetValid(predData, i) && GetValid(predValid, i) then 1 else 0
  }

  /** The inclusive prefix sum of the flags. */
  ghost predicate TruePrefix(keep: seq<nat>, prefix: seq<nat>) {
    |prefix| == |keep| && forall i | 0 <= i < |keep| :: prefix[i] == |KeptRows(keep, i + 1)|
  }

  datatype Prefixed = Prefixed(keep: seq<nat>, prefix: seq<nat>, nOut: nat)

  /** `compute_keep_and_prefix`. */
  method ComputeKeepAndPrefix(predData: seq<Byte>, predValid: seq<Byte>, n: nat) returns (r: Result<Prefixed, FilterError>)
    ensures r.Ok? <==> n == 0 || (|predData| >= ValidityBytes(n) && |predValid| >= ValidityBytes(n) && n < U32)
    ensures r.Ok? ==> |r.value.keep| == n && KeepFlags(predData, predValid, r.value.keep)
    ensures r.Ok? ==> TruePrefix(r.value.keep, r.value.prefix) && r.value.nOut == |KeptRows(r.value.keep, n)|
  {
    hide KeptRows, GetValid;
    if n == 0 {
      NothingKept([]);
      return Ok(Prefixed([], [], 0));
    }
    var minBytes := ValidityBytes(n);
    if |predData| < minBytes {
      return Err(InputLengthMismatch(|predData|, minBytes, n));
    }
    if |predValid| < minBytes {
      return Err(InputLengthMismatch(|predValid|, minBytes, n));
    }
    if n >= U32 {
      return Err(RowCountOverflow(n));
    }
    var keep := seq(n, i requires 0 <= i < n => if GetValid(predData, i) && GetValid(predValid, i) then 1 else 0);
    var prefix := Cumsum(keep);
    return Ok(Prefixed(keep, prefix, prefix[n - 1]));
  }

  lemma NothingKept(keep: seq<nat>)
    ensures KeptRows(keep, 0) == []
  {
  }

  method Cumsum(keep: seq<nat>) returns (prefix: seq<nat>)
    requires forall i | 0 <= i < |keep| :: keep[i] < 2
    ensures TruePrefix(keep, prefix)
  {
    prefix := [];
    var sum := 0;
    for i := 0 to |keep|
      invariant |prefix| == i && sum == |KeptRows(keep, i)|
      invariant forall j | 0 <= j < i :: prefix[j] == |KeptRows(keep, j + 1)|
    {
      sum := sum + keep[i];
      prefix := prefix + [sum];
    }
  }

  // ----- bitmaps of atomic words -----

  /** `set_valid_atomic_or`: the word and the bit in it. */
  function WordOf(row: nat): nat {
    (row / 8) / 4
  }

  function BitInWord(row: nat): nat {
    8 * ((row / 8) % 4) + row % 8
  }

  predicate WordBit(words: seq<nat>, row: nat) {
    WordOf(row) < |words| && Bit(words[WordOf(row)], BitInWord(row)) == 1
  }

  function OrRow(words: seq<nat>, row: nat): (out: seq<nat>)
    ensures |out| == |words|
  {
    if WordOf(row) < |words| then words[WordOf(row) := Or(words[WordOf(row)], Pow2(BitInWord(row)))] else words
  }

  lemma OrSetsOne(words: seq<nat>, row: nat, r: nat)
    requires WordOf(row) < |words|
    ensures WordBit(OrRow(words, row), r) <==> r == row || WordBit(words, r)
  {
    hide Or, Bit, Pow2;
    BitsOfOr(words[WordOf(row)], BitInWord(row));
    assert r == row <==> WordOf(r) == WordOf(row) && BitInWord(r) == BitInWord(row);
  }

  /** The same memory as bytes. */
  function BytesOf(words: seq<nat>): (bytes: seq<Byte>)
    ensures |bytes| == 4 * |words|
  {
    seq(4 * |words|, j requires 0 <= j < 4 * |words| => (words[j / 4] / Pow2(8 * (j % 4))) % 256)
  }

  lemma ByteView(words: seq<nat>, row: nat)
    ensures GetValid(BytesOf(words), row) <==> WordBit(words, row)
  {
    var j := row / 8;
    if j / 4 < |words| {
      WindowBit(words[j / 4], 8 * (j % 4), 8, row % 8);
      ByteBelow(0);
    }
  }

  // ----- pass 3: the scatter kernel -----

  /** What a launch binds: the source column, the flags, the prefix sum, and the overrun mark. */
  datatype Scatter<T> = Scatter(src: seq<T>, srcValid: seq<Byte>, keep: seq<nat>, prefix: seq<nat>, nOut: nat, sentinel: T)

  ghost predicate Bound<T>(k: Scatter<T>) {
    |k.keep| == |k.src| && |k.prefix| == |k.src|
  }

  /** `prefix_sum[gid] - 1u`, in 32 bits. */
  function Target<T>(k: Scatter<T>, gid: nat): nat
    requires gid < |k.prefix|
  {
    (k.prefix[gid] + U32 - 1) % U32
  }

  /** The destination buffers, and how far each thread has come. */
  datatype Machine<T> = Machine(data: seq<T>, words: seq<nat>, pc: seq<nat>)

  const STORE: nat := 0
  const MARK: nat := 1
  const DONE: nat := 2

  predicate MachineShape<T>(k: Scatter<T>, m: Machine<T>) {
    |m.data| == k.nOut + 1 && |m.pc| == |k.src| && k.nOut <= 32 * |m.words|
  }

  /** One atomic step of thread `gid`: the store of its value, then the OR of its validity bit. */
  function Step<T>(k: Scatter<T>, m: Machine<T>, gid: nat): (m': Machine<T>)
    requires |k.keep| == |k.src| && |k.prefix| == |k.src| && MachineShape(k, m)
    ensures MachineShape(k, m')
  {
    if gid >= |k.src| || m.pc[gid] >= DONE then m
    else if k.keep[gid] == 0 then m.(pc := m.pc[gid := DONE])
    else if Target(k, gid) >= k.nOut then m.(data := m.data[k.nOut := k.sentinel], pc := m.pc[gid := DONE])
    else if m.pc[gid] == STORE then m.(data := m.data[Target(k, gid) := k.src[gid]], pc := m.pc[gid := MARK])
    else
      m.(words := if GetValid(k.srcValid, gid) then OrRow(m.words, Target(k, gid)) else m.words, pc := m.pc[gid := DONE])
  }

  /** The threads that would write past the end. */
  ghost predicate Overruns<T>(k: Scatter<T>, gid: nat)
    requires Bound(k)
  {
    gid < |k.src| && k.keep[gid] != 0 && Target(k, gid) >= k.nOut
  }

  /** The slot past the end changes exactly when such a thread has run. */
  ghost predicate SentinelRight<T>(k: Scatter<T>, m: Machine<T>, zero: T)
    requires Bound(k) && MachineShape(k, m)
  {
    m.data[k.nOut] == (if exists gid: nat :: Overruns(k, gid) && m.pc[gid] == DONE then k.sentinel else zero)
  }

  lemma SentinelStep<T>(k: Scatter<T>, m: Machine<T>, zero: T, gid: nat)
    requires Bound(k) && MachineShape(k, m) && SentinelRight(k, m, zero)
    ensures SentinelRight(k, Step(k, m, gid), zero)
  {
    hide Target;
    var m' := Step(k, m, gid);
    assert forall g: nat | Overruns(k, g) :: m.pc[g] == DONE ==> m'.pc[g] == DONE;
    if Overruns(k, gid) && m.pc[gid] < DONE {
      assert m'.pc[gid] == DONE;
    } else {
      assert forall g: nat | Overruns(k, g) :: m'.pc[g] == DONE ==> m.pc[g] == DONE;
    }
  }

  // ----- every order of threads gives the survivors -----

  /** The prefix sum is the true one. */
  ghost predicate Sound<T>(k: Scatter<T>) {
    Bound(k) && TruePrefix(k.keep, k.prefix) && k.nOut == |KeptRows(k.keep, |k.keep|)| && |k.src| < U32
  }

  /** The thread that fills slot `p`. */
  ghost function Owner<T>(k: Scatter<T>, p: nat): nat
    requires Sound(k) && p < k.nOut
  {
    KeptRows(k.keep, |k.keep|)[p]
  }

  /** Targets and owners are inverse: kept rows map one to one onto the slots. */
  lemma TargetOwner<T>(k: Scatter<T>)
    requires Sound(k)
    ensures forall p | 0 <= p < k.nOut :: Owner(k, p) < |k.src| && k.keep[Owner(k, p)] != 0 && Target(k, Owner(k, p)) == p
    ensures forall gid | 0 <= gid < |k.src| && k.keep[gid] != 0 :: Target(k, gid) < k.nOut && Owner(k, Target(k, gid)) == gid
  {
    hide KeptRows;
    var n := |k.keep|;
    forall p | 0 <= p < k.nOut
      ensures Target(k, Owner(k, p)) == p
    {
      RowOfPlace(k.keep, n, p);
    }
    forall gid | 0 <= gid < |k.src| && k.keep[gid] != 0
      ensures Target(k, gid) < k.nOut && Owner(k, Target(k, gid)) == gid
    {
      PlaceOf(k.keep, gid, n);
    }
  }

  /** Each slot holds its owner's value once that has been stored, each bit its owner's validity
      once that has been marked, and nothing else has been touched. */
  ghost predicate Scattered<T>(k: Scatter<T>, m: Machine<T>, zero: T)
    requires Sound(k) && MachineShape(k, m)
  {
    (forall p | 0 <= p < k.nOut :: Owner(k, p) < |m.pc|) &&
    (forall p | 0 <= p < k.nOut && m.pc[Owner(k, p)] != STORE :: m.data[p] == k.src[Owner(k, p)]) &&
    m.data[k.nOut] == zero &&
    forall r: nat :: WordBit(m.words, r) <==> r < k.nOut && m.pc[Owner(k, r)] == DONE && GetValid(k.srcValid, Owner(k, r))
  }

  lemma ScatteredStep<T>(k: Scatter<T>, m: Machine<T>, zero: T, gid: nat)
    requires Sound(k) && MachineShape(k, m) && Scattered(k, m, zero) && forall g | 0 <= g < |m.pc| :: m.pc[g] <= DONE
    ensures Scattered(k, Step(k, m, gid), zero) && forall g | 0 <= g < |m.pc| :: Step(k, m, gid).pc[g] <= DONE
  {
    hide Target, Sound, WordBit, OrRow, GetValid, Owner;
    SoundIsBound(k);
    TargetOwner(k);
    var m' := Step(k, m, gid);
    if gid < |k.src| && m.pc[gid] < DONE && k.keep[gid] != 0 {
      var t := Target(k, gid);
      if m.pc[gid] == STORE {
        assert forall p | 0 <= p < k.nOut :: p != t ==> Owner(k, p) != gid;
      } else {
        assert WordOf(t) < |m.words|;
        forall r: nat
          ensures WordBit(m'.words, r) <==> r < k.nOut && m'.pc[Owner(k, r)] == DONE && GetValid(k.srcValid, Owner(k, r))
        {
          OrSetsOne(m.words, t, r);
          assert r < k.nOut && r != t ==> Owner(k, r) != gid;
        }
      }
    }
  }

  lemma SoundIsBound<T>(k: Scatter<T>)
    requires Sound(k)
    ensures Bound(k)
  {
  }

  // ----- launches -----

  /** A schedule in which every thread runs to its end. */
  ghost predicate Complete(n: nat, schedule: seq<nat>) {
    forall gid | 0 <= gid < n :: multiset(schedule)[gid] >= 2
  }

  /** Thread `gid` has taken at least the steps it was given. */
  ghost predicate Advanced(pc: seq<nat>, taken: multiset<nat>) {
    forall gid | 0 <= gid < |pc| :: pc[gid] <= DONE && (pc[gid] >= taken[gid] || pc[gid] == DONE)
  }

  lemma AdvancedStep<T>(k: Scatter<T>, m: Machine<T>, gid: nat, taken: multiset<nat>)
    requires Bound(k) && MachineShape(k, m) && Advanced(m.pc, taken)
    ensures Advanced(Step(k, m, gid).pc, taken + multiset{gid})
  {
    hide Target;
  }

  lemma AllDone(pc: seq<nat>, schedule: seq<nat>)
    requires Complete(|pc|, schedule) && Advanced(pc, multiset(schedule))
    ensures forall gid | 0 <= gid < |pc| :: pc[gid] == DONE
  {
  }

  /** The kernel, under any complete schedule of its threads. */
  method Launch<T>(k: Scatter<T>, zero: T, nWords: nat, schedule: seq<nat>) returns (m: Machine<T>)
    requires Bound(k) && k.nOut <= 32 * nWords && Complete(|k.src|, schedule)
    ensures MachineShape(k, m) && SentinelRight(k, m, zero) && (forall gid | 0 <= gid < |m.pc| :: m.pc[gid] == DONE)
    ensures |m.words| == nWords
    ensures Sound(k) ==> Scattered(k, m, zero)
  {
    hide Sound, Scattered, SentinelRight, Step, Complete, WordBit;
    m := Machine(seq(k.nOut + 1, i => zero), seq(nWords, i => 0), seq(|k.src|, i => STORE));
    Fresh(k, m, zero);
    for t := 0 to |schedule|
      invariant MachineShape(k, m) && SentinelRight(k, m, zero) && |m.words| == nWords
      invariant Advanced(m.pc, multiset(schedule[..t]))
      invariant Sound(k) ==> Scattered(k, m, zero)
    {
      assert schedule[..t + 1] == schedule[..t] + [schedule[t]];
      SentinelStep(k, m, zero, schedule[t]);
      AdvancedStep(k, m, schedule[t], multiset(schedule[..t]));
      if Sound(k) {
        ScatteredStep(k, m, zero, schedule[t]);
      }
      StepKeepsWords(k, m, schedule[t]);
      m := Step(k, m, schedule[t]);
    }
    assert schedule[..|schedule|] == schedule;
    AllDone(m.pc, schedule);
  }

  lemma StepKeepsWords<T>(k: Scatter<T>, m: Machine<T>, gid: nat)
    requires Bound(k) && MachineShape(k, m)
    ensures |Step(k, m, gid).words| == |m.words|
  {
  }

  lemma Fresh<T>(k: Scatter<T>, m: Machine<T>, zero: T)
    requires Bound(k) && MachineShape(k, m) && (forall i | 0 <= i < |m.data| :: m.data[i] == zero)
    requires (forall i | 0 <= i < |m.words| :: m.words[i] == 0) && (forall i | 0 <= i < |m.pc| :: m.pc[i] == STORE)
    ensures SentinelRight(k, m, zero) && Advanced(m.pc, multiset{})
    ensures Sound(k) ==> Scattered(k, m, zero)
  {
    forall r: nat
      ensures !WordBit(m.words, r)
    {
      ZeroBit(BitInWord(r));
    }
    if Sound(k) {
      TargetOwner(k);
    }
  }

  /** `dst_valid_min_bytes`, as 32-bit words. */
  function MinWords(nOut: nat): (words: nat)
    ensures nOut <= 32 * words && words >= 1
  {
    var w := (ValidityBytes(nOut) + 3) / 4;
    if w < 1 then 1 else w
  }

  /** One word at least, and otherwise as many as the bits need, and no more. */
  lemma WordsNeeded(nOut: nat)
    ensures 32 * MinWords(nOut) >= nOut
    ensures if nOut <= 32 then MinWords(nOut) == 1 else 32 * (MinWords(nOut) - 1) < nOut
  {
  }

  /** A finished scatter, as the caller reads it. */
  datatype Compacted<T> = Compacted(data: seq<T>, valid: seq<Byte>)

  /** The compacted column: the survivors, in source order, and their validity. */
  ghost predicate Compacts<T>(k: Scatter<T>, data: seq<T>, valid: seq<Byte>)
    requires Bound(k)
  {
    data == Survivors(k.src, k.keep) &&
    forall r: nat :: GetValid(valid, r) <==> r < |data| && GetValid(k.srcValid, KeptRows(k.keep, |k.keep|)[r])
  }

  /** The length guards. */
  ghost predicate Launchable<T>(k: Scatter<T>, dstLen: nat, dstValidLen: nat) {
    Bound(k) && dstLen > k.nOut && dstValidLen >= 4 * MinWords(k.nOut) && |k.srcValid| >= ValidityBytes(|k.src|) &&
    |k.src| < U32 && k.nOut < U32
  }

  /** `dispatch_scatter_i64` (and `_f64`): the length guards in order, the launch, the sentinel. It
      raises an overrun exactly when a kept row's target lies past the end, and never for a true
      prefix sum. */
  method DispatchScatter<T(==)>(k: Scatter<T>, zero: T, dstLen: nat, dstValidLen: nat, schedule: seq<nat>)
    returns (r: Result<Compacted<T>, FilterError>)
    requires k.sentinel != zero && Complete(|k.src|, schedule)
    ensures k.src != [] && r.Ok? ==> Launchable(k, dstLen, dstValidLen)
    ensures k.src == [] ==>
      (r.Ok? <==> k.keep == [] && k.prefix == [] && dstLen > k.nOut && dstValidLen >= 4 * MinWords(k.nOut)) &&
      (r.Ok? ==> r.value == Compacted([], []))
    ensures k.src != [] && Launchable(k, dstLen, dstValidLen) ==>
      (r == Err(ScatterOverrun) <==> exists gid: nat :: Overruns(k, gid)) && (r.Ok? <==> !exists gid: nat :: Overruns(k, gid))
    ensures k.src != [] && Launchable(k, dstLen, dstValidLen) && Sound(k) ==>
      r.Ok? && |r.value.data| == k.nOut + 1 && Compacts(k, r.value.data[..k.nOut], r.value.valid)
  {
    BytesNeeded(0);
    hide Sound, MinWords, ValidityBytes, Compacts, Scattered, Target;
    var n := |k.src|;
    if |k.keep| != n {
      return Err(OutputLengthMismatch(|k.keep|, n));
    }
    if |k.prefix| != n {
      return Err(OutputLengthMismatch(|k.prefix|, n));
    }
    if dstLen < k.nOut + 1 {
      return Err(DstDataTooSmall(dstLen, k.nOut + 1));
    }
    if dstValidLen < 4 * MinWords(k.nOut) {
      return Err(DstValidTooSmall(dstValidLen, 4 * MinWords(k.nOut)));
    }
    if |k.srcValid| < ValidityBytes(n) {
      return Err(InputLengthMismatch(|k.srcValid|, ValidityBytes(n), n));
    }
    if n == 0 {
      return Ok(Compacted([], []));
    }
    if n >= U32 {
      return Err(RowCountOverflow(n));
    }
    if k.nOut >= U32 {
      return Err(RowCountOverflow(k.nOut));
    }
    var m := Launch(k, zero, MinWords(k.nOut), schedule);
    if Sound(k) {
      SoundFits(k);
    }
    if m.data[k.nOut] == k.sentinel {
      return Err(ScatterOverrun);
    }
    if Sound(k) {
      FinishedCompacts(k, m, zero);
    }
    return Ok(Compacted(m.data, BytesOf(m.words)));
  }

  lemma SoundFits<T>(k: Scatter<T>)
    requires Sound(k)
    ensures |k.src| < U32 && k.nOut <= |k.src| && forall gid: nat :: !Overruns(k, gid)
  {
    TargetOwner(k);
  }

  lemma FinishedCompacts<T>(k: Scatter<T>, m: Machine<T>, zero: T)
    requires Sound(k) && MachineShape(k, m) && Scattered(k, m, zero) && forall gid | 0 <= gid < |m.pc| :: m.pc[gid] == DONE
    ensures Compacts(k, m.data[..k.nOut], BytesOf(m.words))
  {
    hide WordBit, BytesOf, GetValid;
    forall r: nat
      ensures GetValid(BytesOf(m.words), r) <==> WordBit(m.words, r)
    {
      ByteView(m.words, r);
    }
    assert m.data[..k.nOut] == Survivors(k.src, k.keep);
  }

  /** `compact_i64` over the shared flags and prefix: exactly the rows whose predicate is true and
      not null survive, in source order, with their validity. */
  method Compact<T(==)>(src: seq<T>, srcValid: seq<Byte>, pre: Prefixed, zero: T, sentinel: T, schedule: seq<nat>)
    returns (r: Result<Compacted<T>, FilterError>)
    requires sentinel != zero && Complete(|src|, schedule) && src != [] && |src| < U32
    requires |pre.keep| == |src| && TruePrefix(pre.keep, pre.prefix) && pre.nOut == |KeptRows(pre.keep, |src|)|
    requires |srcValid| >= ValidityBytes(|src|)
    ensures r.Ok? && Compacts(Scatter(src, srcValid, pre.keep, pre.prefix, pre.nOut, sentinel), r.value.data, r.value.valid)
  {
    hide Compacts, MinWords, ValidityBytes, Overruns, KeptRows;
    var k := Scatter(src, srcValid, pre.keep, pre.prefix, pre.nOut, sentinel);
    SoundFits(k);
    var out := DispatchScatter(k, zero, pre.nOut + 1, 4 * MinWords(pre.nOut), schedule);
    return Ok(Compacted(out.value.data[..pre.nOut], out.value.valid));
  }

  // ----- the Boolean variant -----

  /** Both destinations are bitmaps, and threads race on both. */
  datatype BoolMachine = BoolMachine(data: seq<nat>, words: seq<nat>, pc: seq<nat>)

  predicate BoolShape(k: Scatter<bool>, m: BoolMachine) {
    |m.data| == |m.words| && |m.pc| == |k.src| && k.nOut <= 32 * |m.words|
  }

  /** One atomic step: OR the value bit, then the validity bit; past the end, nothing. */
  function BoolStep(k: Scatter<bool>, m: BoolMachine, gid: nat): (m': BoolMachine)
    requires |k.keep| == |k.src| && |k.prefix| == |k.src| && BoolShape(k, m)
    ensures BoolShape(k, m') && |m'.words| == |m.words|
  {
    if gid >= |k.src| || m.pc[gid] >= DONE then m
    else if k.keep[gid] == 0 || Target(k, gid) >= k.nOut then m.(pc := m.pc[gid := DONE])
    else if m.pc[gid] == STORE then
      m.(data := if k.src[gid] then OrRow(m.data, Target(k, gid)) else m.data, pc := m.pc[gid := MARK])
    else
      m.(words := if GetValid(k.srcValid, gid) then OrRow(m.words, Target(k, gid)) else m.words, pc := m.pc[gid := DONE])
  }

  /** Thread `gid` has set data bit `r`. */
  ghost predicate SetsData(k: Scatter<bool>, pc: seq<nat>, gid: nat, r: nat)
    requires Bound(k) && |pc| == |k.src|
  {
    gid < |k.src| && k.keep[gid] != 0 && Target(k, gid) == r && pc[gid] != STORE && k.src[gid]
  }

  ghost predicate SetsValid(k: Scatter<bool>, pc: seq<nat>, gid: nat, r: nat)
    requires Bound(k) && |pc| == |k.src|
  {
    gid < |k.src| && k.keep[gid] != 0 && Target(k, gid) == r && pc[gid] == DONE && GetValid(k.srcValid, gid)
  }

  /** Bits within the output are those some thread has set, and no other is. */
  ghost predicate BoolWritten(k: Scatter<bool>, m: BoolMachine)
    requires Bound(k) && BoolShape(k, m)
  {
    forall r: nat ::
      (WordBit(m.data, r) <==> r < k.nOut && exists gid: nat :: SetsData(k, m.pc, gid, r)) &&
      (WordBit(m.words, r) <==> r < k.nOut && exists gid: nat :: SetsValid(k, m.pc, gid, r))
  }

  /** Whatever the prefix, a step sets the bits of its own thread. */
  lemma BoolWrittenStep(k: Scatter<bool>, m: BoolMachine, gid: nat)
    requires Bound(k) && BoolShape(k, m) && BoolWritten(k, m) && forall g | 0 <= g < |m.pc| :: m.pc[g] <= DONE
    ensures BoolWritten(k, BoolStep(k, m, gid)) && forall g | 0 <= g < |m.pc| :: BoolStep(k, m, gid).pc[g] <= DONE
  {
    var m' := BoolStep(k, m, gid);
    if gid < |k.src| && m.pc[gid] < DONE {
      forall r: nat
        ensures WordBit(m'.data, r) <==> r < k.nOut && exists g: nat :: SetsData(k, m'.pc, g, r)
        ensures WordBit(m'.words, r) <==> r < k.nOut && exists g: nat :: SetsValid(k, m'.pc, g, r)
      {
        BitsAfterStep(k, m, gid, r);
        if r < k.nOut {
          SettersAfterStep(k, m, gid, r);
        }
      }
    }
  }

  /** The bits a step adds. */
  lemma BitsAfterStep(k: Scatter<bool>, m: BoolMachine, gid: nat, r: nat)
    requires Bound(k) && BoolShape(k, m) && gid < |k.src| && m.pc[gid] < DONE
    ensures var m', own := BoolStep(k, m, gid), k.keep[gid] != 0 && Target(k, gid) == r < k.nOut;
            (WordBit(m'.data, r) <==> WordBit(m.data, r) || (own && m.pc[gid] == STORE && k.src[gid])) &&
            (WordBit(m'.words, r) <==> WordBit(m.words, r) || (own && m.pc[gid] != STORE && GetValid(k.srcValid, gid)))
  {
    hide Target, WordBit, OrRow, GetValid;
    var t := Target(k, gid);
    if k.keep[gid] != 0 && t < k.nOut {
      assert WordOf(t) < |m.words|;
      OrSetsOne(m.data, t, r);
      OrSetsOne(m.words, t, r);
    }
  }

  /** The threads that have set them. */
  lemma SettersAfterStep(k: Scatter<bool>, m: BoolMachine, gid: nat, r: nat)
    requires Bound(k) && BoolShape(k, m) && gid < |k.src| && m.pc[gid] < DONE && r < k.nOut
    ensures var pc, own := BoolStep(k, m, gid).pc, k.keep[gid] != 0 && Target(k, gid) == r;
            ((exists g: nat :: SetsData(k, pc, g, r)) <==>
              (exists g: nat :: SetsData(k, m.pc, g, r)) || (own && m.pc[gid] == STORE && k.src[gid])) &&
            ((exists g: nat :: SetsValid(k, pc, g, r)) <==>
              (exists g: nat :: SetsValid(k, m.pc, g, r)) || (own && m.pc[gid] != STORE && GetValid(k.srcValid, gid)))
  {
    hide Target, WordBit, OrRow, GetValid;
    var pc := BoolStep(k, m, gid).pc;
    forall g: nat
      ensures SetsData(k, pc, g, r) <==> SetsData(k, m.pc, g, r) || (g == gid && SetsData(k, pc, gid, r))
      ensures SetsValid(k, pc, g, r) <==> SetsValid(k, m.pc, g, r) || (g == gid && SetsValid(k, pc, gid, r))
    {
    }
    var own := k.keep[gid] != 0 && Target(k, gid) == r;
    assert SetsData(k, pc, gid, r) <==> SetsData(k, m.pc, gid, r) || (own && m.pc[gid] == STORE && k.src[gid]);
    assert SetsValid(k, pc, gid, r) <==> own && m.pc[gid] != STORE && GetValid(k.srcValid, gid);
  }

  lemma BoolAdvancedStep(k: Scatter<bool>, m: BoolMachine, gid: nat, taken: multiset<nat>)
    requires Bound(k) && BoolShape(k, m) && Advanced(m.pc, taken)
    ensures Advanced(BoolStep(k, m, gid).pc, taken + multiset{gid})
  {
    hide Target;
  }

  lemma BoolFresh(k: Scatter<bool>, m: BoolMachine)
    requires Bound(k) && BoolShape(k, m) && forall i | 0 <= i < |m.words| :: m.words[i] == 0 == m.data[i]
    requires forall i | 0 <= i < |m.pc| :: m.pc[i] == STORE
    ensures Advanced(m.pc, multiset{}) && BoolWritten(k, m)
  {
    forall r: nat
      ensures !WordBit(m.words, r) && !WordBit(m.data, r)
    {
      ZeroBit(BitInWord(r));
    }
  }

  /** `filter_scatter_bool` under any complete schedule. */
  method LaunchBool(k: Scatter<bool>, nWords: nat, schedule: seq<nat>) returns (m: BoolMachine)
    requires Bound(k) && k.nOut <= 32 * nWords && Complete(|k.src|, schedule)
    ensures BoolShape(k, m) && (forall gid | 0 <= gid < |m.pc| :: m.pc[gid] == DONE)
    ensures BoolWritten(k, m)
  {
    hide BoolWritten, BoolStep, Complete, WordBit;
    m := BoolMachine(seq(nWords, i => 0), seq(nWords, i => 0), seq(|k.src|, i => STORE));
    BoolFresh(k, m);
    for t := 0 to |schedule|
      invariant BoolShape(k, m) && Advanced(m.pc, multiset(schedule[..t]))
      invariant BoolWritten(k, m)
    {
      assert schedule[..t + 1] == schedule[..t] + [schedule[t]];
      BoolAdvancedStep(k, m, schedule[t], multiset(schedule[..t]));
      BoolWrittenStep(k, m, schedule[t]);
      m := BoolStep(k, m, schedule[t]);
    }
    assert schedule[..|schedule|] == schedule;
    AllDone(m.pc, schedule);
  }

  function Bools(bytes: seq<Byte>, n: nat): (bs: seq<bool>)
    ensures |bs| == n
  {
    seq(n, i requires 0 <= i < n => GetValid(bytes, i))
  }

  /** Row `gid` is kept, and its prefix less one, in 32 bits, is `i`. */
  predicate Lands(keep: seq<nat>, prefix: seq<nat>, gid: nat, i: nat) {
    gid < |keep| && gid < |prefix| && keep[gid] != 0 && (prefix[gid] - 1) % U32 == i
  }

  /** `dispatch_scatter_bool`: no value can mark an overrun, so the last prefix is checked instead. */
  method DispatchScatterBool(srcData: seq<Byte>, srcValid: seq<Byte>, keep: seq<nat>, prefix: seq<nat>, n: nat, nOut: nat,
                             dstDataLen: nat, dstValidLen: nat, schedule: seq<nat>)
    returns (r: Result<Compacted<Byte>, FilterError>)
    requires Complete(n, schedule) && n > 0
    ensures r.Ok? <==>
      |keep| == n && |prefix| == n && |srcData| >= ValidityBytes(n) && |srcValid| >= ValidityBytes(n) &&
      dstDataLen >= 4 * MinWords(nOut) && dstValidLen >= 4 * MinWords(nOut) && n < U32 && nOut < U32 && prefix[n - 1] == nOut
    ensures r.Ok? ==> forall i: nat ::
      (GetValid(r.value.data, i) <==> i < nOut && exists gid: nat :: gid < n && Lands(keep, prefix, gid, i) && GetValid(srcData, gid)) &&
      (GetValid(r.value.valid, i) <==> i < nOut && exists gid: nat :: gid < n && Lands(keep, prefix, gid, i) && GetValid(srcValid, gid))
    ensures r.Ok? ==>
      var k := Scatter(Bools(srcData, n), srcValid, keep, prefix, nOut, false);
      Sound(k) ==>
        (forall i: nat :: GetValid(r.value.data, i) <==> i < nOut && Survivors(k.src, keep)[i]) &&
        forall i: nat :: GetValid(r.value.valid, i) <==> i < nOut && GetValid(srcValid, KeptRows(keep, n)[i])
  {
    hide Sound, BoolWritten, MinWords, ValidityBytes, GetValid, Bools, Lands, Target;
    if |keep| != n {
      return Err(OutputLengthMismatch(|keep|, n));
    }
    if |prefix| != n {
      return Err(OutputLengthMismatch(|prefix|, n));
    }
    if |srcData| < ValidityBytes(n) {
      return Err(InputLengthMismatch(|srcData|, ValidityBytes(n), n));
    }
    if |srcValid| < ValidityBytes(n) {
      return Err(InputLengthMismatch(|srcValid|, ValidityBytes(n), n));
    }
    if dstDataLen < 4 * MinWords(nOut) {
      return Err(DstDataTooSmall(dstDataLen, 4 * MinWords(nOut)));
    }
    if dstValidLen < 4 * MinWords(nOut) {
      return Err(DstValidTooSmall(dstValidLen, 4 * MinWords(nOut)));
    }
    if nOut >= U32 {
      return Err(RowCountOverflow(nOut));
    }
    if prefix[n - 1] != nOut {
      return Err(ScatterPrefixSumMismatch(prefix[n - 1], nOut));
    }
    if n >= U32 {
      return Err(RowCountOverflow(n));
    }
    var k := Scatter(Bools(srcData, n), srcValid, keep, prefix, nOut, false);
    var m := LaunchBool(k, MinWords(nOut), schedule);
    BoolFinished(k, m);
    BoolsAre(srcData, n);
    if Sound(k) {
      BoolSurvivors(k, BytesOf(m.data), BytesOf(m.words));
    }
    return Ok(Compacted(BytesOf(m.data), BytesOf(m.words)));
  }

  lemma BoolsAre(bytes: seq<Byte>, n: nat)
    ensures forall i: nat | i < n :: Bools(bytes, n)[i] <==> GetValid(bytes, i)
  {
  }

  lemma BoolFinished(k: Scatter<bool>, m: BoolMachine)
    requires Bound(k) && BoolShape(k, m) && BoolWritten(k, m) && forall gid | 0 <= gid < |m.pc| :: m.pc[gid] == DONE
    ensures forall i: nat ::
      (GetValid(BytesOf(m.data), i) <==> i < k.nOut && exists gid: nat :: gid < |k.src| && Lands(k.keep, k.prefix, gid, i) && k.src[gid]) &&
      (GetValid(BytesOf(m.words), i) <==>
        i < k.nOut && exists gid: nat :: gid < |k.src| && Lands(k.keep, k.prefix, gid, i) && GetValid(k.srcValid, gid))
  {
    hide WordBit, BytesOf, GetValid;
    forall i: nat
      ensures GetValid(BytesOf(m.data), i) <==> i < k.nOut && exists gid: nat :: SetsData(k, m.pc, gid, i)
      ensures GetValid(BytesOf(m.words), i) <==> i < k.nOut && exists gid: nat :: SetsValid(k, m.pc, gid, i)
    {
      ByteView(m.data, i);
      ByteView(m.words, i);
    }
    assert forall gid: nat, i: nat :: SetsData(k, m.pc, gid, i) <==> gid < |k.src| && Lands(k.keep, k.prefix, gid, i) && k.src[gid];
    assert forall gid: nat, i: nat ::
      SetsValid(k, m.pc, gid, i) <==> gid < |k.src| && Lands(k.keep, k.prefix, gid, i) && GetValid(k.srcValid, gid);
  }

  /** Of a true prefix sum, those are the survivors' bits. */
  lemma BoolSurvivors(k: Scatter<bool>, data: seq<Byte>, valid: seq<Byte>)
    requires Sound(k)
    requires forall i: nat ::
      (GetValid(data, i) <==> i < k.nOut && exists gid: nat :: gid < |k.src| && Lands(k.keep, k.prefix, gid, i) && k.src[gid]) &&
      (GetValid(valid, i) <==>
        i < k.nOut && exists gid: nat :: gid < |k.src| && Lands(k.keep, k.prefix, gid, i) && GetValid(k.srcValid, gid))
    ensures |Survivors(k.src, k.keep)| == k.nOut == |KeptRows(k.keep, |k.src|)|
    ensures forall i: nat :: GetValid(data, i) <==> i < k.nOut && Survivors(k.src, k.keep)[i]
    ensures forall i: nat :: GetValid(valid, i) <==> i < k.nOut && GetValid(k.srcValid, KeptRows(k.keep, |k.src|)[i])
  {
    hide GetValid, KeptRows, Lands, Owner;
    SoundIsBound(k);
    forall i: nat | i < k.nOut
      ensures (exists gid: nat :: gid < |k.src| && Lands(k.keep, k.prefix, gid, i) && k.src[gid]) <==> k.src[KeptRows(k.keep, |k.src|)[i]]
      ensures (exists gid: nat :: gid < |k.src| && Lands(k.keep, k.prefix, gid, i) && GetValid(k.srcValid, gid))
              <==> GetValid(k.srcValid, KeptRows(k.keep, |k.src|)[i])
    {
      OnlyOwnerLands(k, i);
      OwnerIsKept(k, i);
    }
  }

  lemma OwnerIsKept(k: Scatter<bool>, p: nat)
    requires Sound(k) && p < k.nOut
    ensures Owner(k, p) == KeptRows(k.keep, |k.src|)[p]
  {
  }

  lemma OnlyOwnerLands(k: Scatter<bool>, i: nat)
    requires Sound(k) && i < k.nOut
    ensures Owner(k, i) < |k.src| && forall gid: nat | gid < |k.src| :: Lands(k.keep, k.prefix, gid, i) <==> gid == Owner(k, i)
  {
    hide Owner, KeptRows;
    TargetOwner(k);
    forall gid: nat | gid < |k.src|
      ensures Lands(k.keep, k.prefix, gid, i) <==> gid == Owner(k, i)
    {
      assert Lands(k.keep, k.prefix, gid, i) <==> k.keep[gid] != 0 && Target(k, gid) == i;
    }
  }

  /** The check suffices for every prefix that never falls and counts each kept row. */
  lemma LastPrefixSuffices<T>(k: Scatter<T>)
    requires Bound(k) && k.src != [] && k.prefix[|k.src| - 1] == k.nOut < U32
    requires forall i, j | 0 <= i <= j < |k.src| :: k.prefix[i] <= k.prefix[j]
    requires forall i | 0 <= i < |k.src| && k.keep[i] != 0 :: k.prefix[i] > 0
    ensures forall gid: nat :: !Overruns(k, gid)
  {
    forall gid: nat | gid < |k.src| && k.keep[gid] != 0
      ensures Target(k, gid) < k.nOut
    {
      assert 0 < k.prefix[gid] <= k.prefix[|k.src| - 1];
    }
  }
}

/** The resident dense-key gather against the equi-join it replaces. */
module JoinGather {
  import opened DenseKey
  import opened FusionAcceptance
  import opened FusionAnalyzer
  import opened FusionCompile
  import opened FusionDispatch
  import opened FusionHeads
  import opened FusionIr
  import opened FusionNullSafety
  import opened FusionNulls
  import opened FusionReference
  import opened FusionSound
  import opened FusionValidity
  import opened Options

  // ----- the equi-join -----

  datatype How = LeftJoin | InnerJoin | OtherJoin

  /** A frame with one nullable integer key column, and its Float32 value columns. */
  datatype Table = Table(key: seq<Option<int>>, cols: map<string, seq<PCell>>)

  predicate TableShape(t: Table) {
    forall c | c in t.cols :: |t.cols[c]| == |t.key|
  }

  datatype Pair = Pair(left: nat, right: Option<nat>)

  /** The right rows before `j` whose key is `k`, in order. */
  function Matching(rk: seq<Option<int>>, k: int, j: nat): (ms: seq<nat>)
    requires j <= |rk|
    ensures forall m | 0 <= m < |ms| :: ms[m] < j && rk[ms[m]] == Some(k)
  {
    if j == 0 then []
    else Matching(rk, k, j - 1) + (if rk[j - 1] == Some(k) then [j - 1] else [])
  }

  /** A null key matches nothing; an unmatched left row survives a left join. */
  function RowPairs(how: How, i: nat, k: Option<int>, rk: seq<Option<int>>): (ps: seq<Pair>)
    ensures forall m | 0 <= m < |ps| :: ps[m].left == i && (ps[m].right.Some? ==> ps[m].right.value < |rk|)
  {
    var ms := if k.None? then [] else Matching(rk, k.value, |rk|);
    if ms == [] then (if how.LeftJoin? then [Pair(i, None)] else [])
    else seq(|ms|, m requires 0 <= m < |ms| => Pair(i, Some(ms[m])))
  }

  function JoinPairs(how: How, lk: seq<Option<int>>, rk: seq<Option<int>>): (ps: seq<Pair>)
    ensures forall m | 0 <= m < |ps| :: ps[m].left < |lk| && (ps[m].right.Some? ==> ps[m].right.value < |rk|)
  {
    if lk == [] then []
    else
      var m := |lk| - 1;
      JoinPairs(how, lk[..m], rk) + RowPairs(how, m, lk[m], rk)
  }

  // ----- which rows those are -----

  lemma {:induction false} MatchingExactly(rk: seq<Option<int>>, k: int, j: nat)
    requires j <= |rk|
    ensures forall r: nat :: r in Matching(rk, k, j) <==> r < j && rk[r] == Some(k)
    ensures forall a, b | 0 <= a < b < |Matching(rk, k, j)| :: Matching(rk, k, j)[a] < Matching(rk, k, j)[b]
  {
    if j > 0 {
      MatchingExactly(rk, k, j - 1);
    }
  }

  /** Two rows are paired if and only if both carry the same key. */
  lemma {:induction false} PairedExactly(how: How, lk: seq<Option<int>>, rk: seq<Option<int>>, i: nat, j: nat)
    ensures Pair(i, Some(j)) in JoinPairs(how, lk, rk) <==> i < |lk| && j < |rk| && lk[i].Some? && lk[i] == rk[j]
    decreases |lk|
  {
    hide RowPairs;
    if lk != [] {
      var m := |lk| - 1;
      PairedExactly(how, lk[..m], rk, i, j);
      RowPairedExactly(how, m, lk[m], rk, i, j);
    }
  }

  /** One row's pairs: its partners in order, or itself alone, or nothing. */
  lemma RowPairsByPartners(how: How, m: nat, k: Option<int>, rk: seq<Option<int>>)
    ensures var ps, ms := RowPairs(how, m, k, rk), if k.None? then [] else Matching(rk, k.value, |rk|);
            (ms == [] ==> ps == if how == LeftJoin then [Pair(m, None)] else []) &&
            (ms != [] ==> |ps| == |ms| && forall t | 0 <= t < |ms| :: ps[t] == Pair(m, Some(ms[t])))
  {
    hide Matching;
  }

  lemma RowPairedExactly(how: How, m: nat, k: Option<int>, rk: seq<Option<int>>, i: nat, j: nat)
    ensures Pair(i, Some(j)) in RowPairs(how, m, k, rk) <==> i == m && j < |rk| && k.Some? && k == rk[j]
  {
    hide RowPairs, Matching;
    RowPairsByPartners(how, m, k, rk);
    if k.Some? {
      var ms, ps := Matching(rk, k.value, |rk|), RowPairs(how, m, k, rk);
      MatchingExactly(rk, k.value, |rk|);
      assert k == Some(k.value);
      assert ms != [] ==> (Pair(i, Some(j)) in ps <==> i == m && j in ms) by { PartnerListed(m, ms, ps, i, j); }
    }
  }

  lemma PartnerListed(m: nat, ms: seq<nat>, ps: seq<Pair>, i: nat, j: nat)
    ensures |ps| == |ms| && (forall t | 0 <= t < |ms| :: ps[t] == Pair(m, Some(ms[t]))) ==> (Pair(i, Some(j)) in ps <==> i == m && j in ms)
  {
    if |ps| == |ms| && (forall t | 0 <= t < |ms| :: ps[t] == Pair(m, Some(ms[t]))) && i == m && j in ms {
      var t :| 0 <= t < |ms| && ms[t] == j;
      assert ps[t] == Pair(i, Some(j));
    }
  }

  /** A left row stands alone if and only if it is a left join and its key is null or on no right row. */
  lemma {:induction false} AloneExactly(how: How, lk: seq<Option<int>>, rk: seq<Option<int>>, i: nat)
    ensures Pair(i, None) in JoinPairs(how, lk, rk) <==> how == LeftJoin && i < |lk| && (lk[i].None? || lk[i] !in rk)
    decreases |lk|
  {
    hide RowPairs;
    if lk != [] {
      var m := |lk| - 1;
      AloneExactly(how, lk[..m], rk, i);
      RowAloneExactly(how, m, lk[m], rk, i);
    }
  }

  lemma RowAloneExactly(how: How, m: nat, k: Option<int>, rk: seq<Option<int>>, i: nat)
    ensures Pair(i, None) in RowPairs(how, m, k, rk) <==> how == LeftJoin && i == m && (k.None? || k !in rk)
  {
    hide RowPairs, Matching;
    RowPairsByPartners(how, m, k, rk);
    if k.Some? {
      var ms := Matching(rk, k.value, |rk|);
      MatchingExactly(rk, k.value, |rk|);
      assert k == Some(k.value);
      assert ms != [] ==> ms[0] in ms && rk[ms[0]] == k;
      assert forall r: nat | r < |rk| && rk[r] == k :: r in ms;
    }
  }

  /** Left rows in order, and the right rows of one in order. */
  predicate Precedes(a: Pair, b: Pair) {
    a.left < b.left || (a.left == b.left && a.right.Some? && b.right.Some? && a.right.value < b.right.value)
  }

  predicate InOrder(ps: seq<Pair>) {
    forall a, b | 0 <= a < b < |ps| :: Precedes(ps[a], ps[b])
  }

  /** Pairs come in that order, so none comes twice. */
  lemma {:induction false} PairsInOrder(how: How, lk: seq<Option<int>>, rk: seq<Option<int>>)
    ensures InOrder(JoinPairs(how, lk, rk))
    decreases |lk|
  {
    hide RowPairs, InOrder;
    if lk == [] {
      NoPairs(how, lk, rk);
    } else {
      var m := |lk| - 1;
      PairsInOrder(how, lk[..m], rk);
      RowInOrder(how, m, lk[m], rk);
      var before, own := JoinPairs(how, lk[..m], rk), RowPairs(how, m, lk[m], rk);
      assert JoinPairs(how, lk, rk) == before + own;
      BeforeOwn(how, lk, rk, m);
      Consecutive(before, own, m);
    }
  }

  lemma Consecutive(before: seq<Pair>, own: seq<Pair>, m: nat)
    requires (forall a | 0 <= a < |before| :: before[a].left < m) && forall a | 0 <= a < |own| :: own[a].left == m
    requires InOrder(before) && InOrder(own)
    ensures InOrder(before + own)
  {
    var ps := before + own;
    forall a, b | 0 <= a < b < |ps|
      ensures Precedes(ps[a], ps[b])
    {
      if a >= |before| {
        assert Precedes(own[a - |before|], own[b - |before|]);
      } else if b < |before| {
        assert Precedes(before[a], before[b]);
      } else {
        assert ps[a] == before[a] && ps[b] == own[b - |before|];
      }
    }
  }

  lemma NoPairs(how: How, lk: seq<Option<int>>, rk: seq<Option<int>>)
    requires lk == []
    ensures InOrder(JoinPairs(how, lk, rk))
  {
  }

  lemma BeforeOwn(how: How, lk: seq<Option<int>>, rk: seq<Option<int>>, m: nat)
    requires m < |lk|
    ensures forall a | 0 <= a < |JoinPairs(how, lk[..m], rk)| :: JoinPairs(how, lk[..m], rk)[a].left < m
    ensures forall a | 0 <= a < |RowPairs(how, m, lk[m], rk)| :: RowPairs(how, m, lk[m], rk)[a].left == m
  {
  }

  lemma RowInOrder(how: How, m: nat, k: Option<int>, rk: seq<Option<int>>)
    ensures InOrder(RowPairs(how, m, k, rk))
  {
    hide RowPairs, Matching;
    RowPairsByPartners(how, m, k, rk);
    if k.Some? {
      MatchingExactly(rk, k.value, |rk|);
    }
  }

  /** A joined row carries its left row's cells, and its right row's or nulls. */
  lemma JoinedRow(how: How, left: Table, right: Table, m: nat)
    requires TableShape(left) && TableShape(right) && m < |JoinPairs(how, left.key, right.key)|
    ensures var j, p := Joined(how, left, right), JoinPairs(how, left.key, right.key)[m];
            |j.key| == |JoinPairs(how, left.key, right.key)| && j.key[m] == left.key[p.left] &&
            (forall c | c in left.cols && c !in right.cols :: j.cols[c][m] == left.cols[c][p.left]) &&
            forall c | c in right.cols :: j.cols[c][m] == if p.right.Some? then right.cols[c][p.right.value] else Null
  {
  }

  // ----- the joined table -----

  function TakeLeft<T>(ps: seq<Pair>, col: seq<T>): (out: seq<T>)
    requires forall m | 0 <= m < |ps| :: ps[m].left < |col|
    ensures |out| == |ps|
  {
    seq(|ps|, m requires 0 <= m < |ps| => col[ps[m].left])
  }

  function TakeRight(ps: seq<Pair>, col: seq<PCell>): (out: seq<PCell>)
    requires forall m | 0 <= m < |ps| :: ps[m].right.Some? ==> ps[m].right.value < |col|
    ensures |out| == |ps|
  {
    seq(|ps|, m requires 0 <= m < |ps| => if ps[m].right.Some? then col[ps[m].right.value] else Null)
  }

  /** The value columns after the join. */
  function Joined(how: How, left: Table, right: Table): Table
    requires TableShape(left) && TableShape(right)
  {
    var ps := JoinPairs(how, left.key, right.key);
    Table(TakeLeft(ps, left.key),
          (map c | c in left.cols :: TakeLeft(ps, left.cols[c])) + (map c | c in right.cols :: TakeRight(ps, right.cols[c])))
  }

  function FrameOf(t: Table): Frame {
    Frame(|t.key|, name => if name in t.cols then t.cols[name] else seq(|t.key|, i => Null))
  }

  /** What Polars returns: the join, then the column appended over it. */
  ghost function JoinThenChain(sem: Sem, how: How, left: Table, right: Table, e: Expr, name: string): Table
    requires TableShape(left) && TableShape(right)
  {
    var j := Joined(how, left, right);
    j.(cols := j.cols[name := PolarsColumn(sem, FrameOf(j), e)])
  }

  // ----- joins on a dense key -----

  predicate NullFreeKey(key: seq<Option<int>>) {
    None !in key
  }

  function KeyValues(key: seq<Option<int>>): (ks: seq<int>)
    ensures |ks| == |key|
    ensures NullFreeKey(key) ==> forall i | 0 <= i < |key| :: key[i] == Some(ks[i])
  {
    seq(|key|, i requires 0 <= i < |key| => if key[i].Some? then key[i].value else 0)
  }

  lemma {:induction false} OneMatch(rk: seq<Option<int>>, n: int, j: nat, p: nat)
    requires NullFreeKey(rk) && Dense(KeyValues(rk), n) && j <= n && p < n
    ensures Matching(rk, KeyValues(rk)[p], j) == if p < j then [p] else []
    decreases j
  {
    if j > 0 {
      OneMatch(rk, n, j - 1, p);
      assert KeyValues(rk)[j - 1] == KeyValues(rk)[p] <==> j - 1 == p;
    }
  }

  lemma OneRow(how: How, i: nat, k: Option<int>, rk: seq<Option<int>>, n: int, p: nat)
    requires NullFreeKey(rk) && Dense(KeyValues(rk), n) && p < n && k == Some(KeyValues(rk)[p])
    ensures RowPairs(how, i, k, rk) == [Pair(i, Some(p))]
  {
    OneMatch(rk, n, n, p);
  }

  function Paired(p: seq<nat>): (ps: seq<Pair>)
    ensures |ps| == |p|
  {
    seq(|p|, i requires 0 <= i < |p| => Pair(i, Some(p[i])))
  }

  /** `p` leads from every left row to the right row with its key. */
  ghost predicate Partners(lk: seq<Option<int>>, rk: seq<Option<int>>, p: seq<nat>) {
    |p| == |lk| && forall i | 0 <= i < |lk| :: p[i] < |rk| && lk[i] == Some(KeyValues(rk)[p[i]])
  }

  /** On a dense key every left row joins exactly its partner, in a left or an inner join. */
  lemma {:induction false} DenseJoin(how: How, lk: seq<Option<int>>, rk: seq<Option<int>>, p: seq<nat>)
    requires NullFreeKey(rk) && Dense(KeyValues(rk), |rk|) && Partners(lk, rk, p)
    ensures JoinPairs(how, lk, rk) == Paired(p)
  {
    hide NullFreeKey, Dense, KeyValues, RowPairs;
    if lk != [] {
      var m := |lk| - 1;
      DenseJoin(how, lk[..m], rk, p[..m]);
      OneRow(how, m, lk[m], rk, |rk|, p[m]);
      assert Paired(p) == Paired(p[..m]) + [Pair(m, Some(p[m]))];
    }
  }

  // ----- the gather plan -----

  /** `_attach_gather_scope`: the joined columns the chain reads, and the spliced graph. */
  function AttachGather(schema: set<string>, e: Expr, dimCols: set<string>, keyName: string): Option<Graph> {
    var base := Analyze(Ctx(schema, None), e);
    if base.None? then None
    else
      var cols := StagedColumns(base.value.descriptors);
      if keyName in cols || dimCols * cols == {} then None
      else Analyze(Ctx(schema, Some(Gather(dimCols * cols, keyName))), e)
  }

  /** The staged index: `int32`, two's complement. */
  function ToI32(k: int): (r: int)
    ensures -0x8000_0000 <= r < 0x8000_0000 && (r - k) % 0x1_0000_0000 == 0
  {
    var r := k % 0x1_0000_0000;
    if r < 0x8000_0000 then r else r - 0x1_0000_0000
  }

  function KeyCells(ks: seq<int>): (cells: seq<Cell>)
    ensures |cells| == |ks|
  {
    seq(|ks|, i requires 0 <= i < |ks| => Num(ToI32(ks[i]) as real))
  }

  function ColumnOf(cols: map<string, seq<PCell>>, name: string): seq<PCell> {
    if name in cols then cols[name] else []
  }

  /** The inputs staged for the gather: long columns of the left frame, the long key, and
      the short reordered columns of the right frame. */
  function GatherEnv(sem: Sem, left: Table, gathered: set<string>, reordered: map<string, seq<Cell>>): Env {
    Env(sem, |left.key|, name => Rows(StageCells(ColumnOf(left.cols, name))), name => Scalar(NaN), gathered,
        Rows(KeyCells(KeyValues(left.key))), name => Rows(if name in reordered then reordered[name] else []))
  }

  /** Two environments that agree on the columns an expression reads give it one value. */
  lemma {:induction false} SameColumnsSameValue(a: Env, b: Env, e: Expr)
    requires a.sem == b.sem && a.n == b.n && forall c | c in Reads(e) :: ColumnValue(a, c) == ColumnValue(b, c)
    ensures DEval(a, e) == DEval(b, e)
    decreases e
  {
    hide Elementwise, WhereArr, ShiftArr, ScanArr, ColumnValue, FnOp, ShiftOffset;
    match e
    case Column(_, name) => assert name in Reads(e);
    case Binary(_, l, r) =>
      SameColumnsSameValue(a, b, l);
      SameColumnsSameValue(a, b, r);
    case Cast(_, arg) => SameColumnsSameValue(a, b, arg);
    case Ternary(c, t, f) =>
      SameColumnsSameValue(a, b, c);
      SameColumnsSameValue(a, b, t);
      SameColumnsSameValue(a, b, f);
    case Function(fn, args) =>
      if args != [] {
        assert ReadsAll(args) == Reads(args[0]) + ReadsAll(args[1..]);
        SameColumnsSameValue(a, b, args[0]);
        if !fn.ShiftFn? {
          SameColumnsSameValues(a, b, args);
        }
      }
    case _ =>
  }

  lemma {:induction false} SameColumnsSameValues(a: Env, b: Env, es: seq<Expr>)
    requires a.sem == b.sem && a.n == b.n && forall c | c in ReadsAll(es) :: ColumnValue(a, c) == ColumnValue(b, c)
    ensures DEvalAll(a, es) == DEvalAll(b, es)
    decreases es
  {
    hide ColumnValue;
    if es != [] {
      SameColumnsSameValue(a, b, es[0]);
      SameColumnsSameValues(a, b, es[1..]);
    }
  }

  // ----- the resident branch -----

  /** The run-time guards of `_try_resident_gather`. */
  predicate Guards(how: How, left: Table, right: Table) {
    !how.OtherJoin? && left.key != [] && right.key != [] && NullFreeKey(left.key) && NullFreeKey(right.key) &&
    Dense(KeyValues(right.key), |right.key|) && InBounds(KeyValues(left.key), |right.key|)
  }

  lemma PartnersExist(how: How, left: Table, right: Table) returns (p: seq<nat>)
    requires Guards(how, left, right)
    ensures Partners(left.key, right.key, p)
  {
    var lks, rks := KeyValues(left.key), KeyValues(right.key);
    Pigeonhole(rks, |rks|);
    p := [];
    for i := 0 to |lks|
      invariant |p| == i && forall k | 0 <= k < i :: p[k] < |rks| && rks[p[k]] == lks[k]
    {
      assert lks[i] in rks;
      var q :| 0 <= q < |rks| && rks[q] == lks[i];
      p := p + [q];
    }
  }

  /** The reordered short columns hold, at position `k`, the value whose key is `k`. */
  ghost predicate Reordered(right: Table, reordered: map<string, seq<Cell>>, c: string) {
    c in right.cols && c in reordered && |right.cols[c]| == |right.key| == |reordered[c]| &&
    InBounds(KeyValues(right.key), |right.key|) &&
    forall i | 0 <= i < |right.key| :: reordered[c][KeyValues(right.key)[i]] == StageCell(right.cols[c][i])
  }

  /** `Take(dim, key)` is the joined column. */
  lemma TakeIsJoin(left: Table, right: Table, p: seq<nat>, reordered: map<string, seq<Cell>>, c: string)
    requires NullFreeKey(left.key) && Partners(left.key, right.key, p) && Reordered(right, reordered, c)
    requires |right.key| <= 0x8000_0000
    ensures TakeArr(Rows(reordered[c]), Rows(KeyCells(KeyValues(left.key)))) == Rows(StageCells(TakeRight(Paired(p), right.cols[c])))
  {
    var lks, rks := KeyValues(left.key), KeyValues(right.key);
    var taken := TakeArr(Rows(reordered[c]), Rows(KeyCells(lks)));
    var joined := StageCells(TakeRight(Paired(p), right.cols[c]));
    forall i | 0 <= i < |lks|
      ensures taken.cells[i] == joined[i]
    {
      assert left.key[i] == Some(lks[i]) && lks[i] == rks[p[i]];
      assert ToI32(lks[i]) == lks[i];
      FloorOfInt(lks[i]);
    }
  }

  lemma FloorOfInt(k: int)
    ensures (k as real).Floor == k
  {
  }

  lemma LeftIsKept<T>(p: seq<nat>, col: seq<T>)
    requires |p| == |col|
    ensures TakeLeft(Paired(p), col) == col
  {
  }

  /** On a dense key the join keeps every left row and adds its partner's values. */
  lemma JoinedColumns(how: How, left: Table, right: Table, p: seq<nat>)
    requires Guards(how, left, right) && TableShape(left) && TableShape(right) && Partners(left.key, right.key, p)
    requires left.cols.Keys !! right.cols.Keys
    ensures Joined(how, left, right).key == left.key
    ensures Joined(how, left, right).cols.Keys == left.cols.Keys + right.cols.Keys
    ensures forall c | c in left.cols :: Joined(how, left, right).cols[c] == left.cols[c]
    ensures forall c | c in right.cols :: Joined(how, left, right).cols[c] == TakeRight(Paired(p), right.cols[c])
  {
    hide NullFreeKey, Dense, Partners, TakeLeft, TakeRight, KeyValues;
    DenseJoin(how, left.key, right.key, p);
    PartnerCount(left.key, right.key, p);
    LeftIsKept(p, left.key);
    forall c | c in left.cols
      ensures TakeLeft(Paired(p), left.cols[c]) == left.cols[c]
    {
      LeftIsKept(p, left.cols[c]);
    }
  }

  lemma PartnerCount(lk: seq<Option<int>>, rk: seq<Option<int>>, p: seq<nat>)
    requires Partners(lk, rk, p)
    ensures |p| == |lk| && forall m | 0 <= m < |p| :: Paired(p)[m].right.value < |rk|
  {
  }

  /** What the plan promises about the names: no clash, and the chain reads value columns only. */
  ghost predicate Named(left: Table, right: Table, schema: set<string>, keyName: string) {
    left.cols.Keys !! right.cols.Keys && keyName !in left.cols && keyName !in right.cols &&
    schema == left.cols.Keys + right.cols.Keys + {keyName}
  }

  /** The gather's inputs give the chain the columns of the joined frame. */
  lemma GatheredColumns(sem: Sem, how: How, left: Table, right: Table, e: Expr, reordered: map<string, seq<Cell>>, p: seq<nat>)
    requires Guards(how, left, right) && TableShape(left) && TableShape(right) && Partners(left.key, right.key, p)
    requires left.cols.Keys !! right.cols.Keys && Reads(e) <= left.cols.Keys + right.cols.Keys
    requires |right.key| <= 0x8000_0000
    requires reordered.Keys == right.cols.Keys && forall c | c in right.cols :: Reordered(right, reordered, c)
    ensures var j := Joined(how, left, right);
            DEval(GatherEnv(sem, left, right.cols.Keys * Reads(e), reordered), e) == DEval(FrameEnv(sem, FrameOf(j)), e)
  {
    hide Guards, Partners, Reordered, DEval, Joined, TakeArr, TakeRight, StageCells, KeyCells;
    var j := Joined(how, left, right);
    JoinedColumns(how, left, right, p);
    var a, b := GatherEnv(sem, left, right.cols.Keys * Reads(e), reordered), FrameEnv(sem, FrameOf(j));
    forall c | c in Reads(e)
      ensures ColumnValue(a, c) == ColumnValue(b, c)
    {
      if c in right.cols {
        GuardedKey(how, left, right);
        TakeIsJoin(left, right, p, reordered, c);
      }
    }
    SameColumnsSameValue(a, b, e);
  }

  lemma GuardedKey(how: How, left: Table, right: Table)
    requires Guards(how, left, right)
    ensures NullFreeKey(left.key)
  {
  }

  lemma FrameOfShape(t: Table)
    requires TableShape(t)
    ensures FrameShape(FrameOf(t))
  {
  }

  lemma JoinedShape(how: How, left: Table, right: Table)
    requires TableShape(left) && TableShape(right)
    ensures TableShape(Joined(how, left, right))
  {
  }

  /** The tables a gather can be tried on: rectangular, and indexable in 32 bits. */
  predicate Tables(left: Table, right: Table) {
    TableShape(left) && TableShape(right) && |right.key| <= 0x8000_0000
  }

  /** What is assumed of the operators and the data, over the joined frame. */
  ghost predicate GatherAssumed(sem: Sem, how: How, left: Table, right: Table, e: Expr)
    requires Tables(left, right)
  {
    Lawful(sem) && PlainParameters(e) && Ordinary(sem, FrameOf(Joined(how, left, right)), e)
  }

  /** The columns read, and the dimension columns that reach the output, have no nulls in the rows joined. */
  ghost predicate GatherClean(how: How, left: Table, right: Table, e: Expr, name: string)
    requires Tables(left, right)
  {
    NullFree(FrameOf(Joined(how, left, right)), Reads(e) + (right.cols.Keys - {name}))
  }

  /** The finished frame of the resident branch, from the staged arrays. */
  function Resident(left: Table, reordered: map<string, seq<Cell>>, values: seq<Cell>, name: string): Table {
    var ks := KeyValues(left.key);
    Table(left.key, (left.cols + map c | c in reordered :: Indexed(reordered[c], ks))[name := Masked(values, NoMask(|values|))])
  }

  function Indexed(short: seq<Cell>, ks: seq<int>): (col: seq<PCell>)
    ensures |col| == |ks|
  {
    seq(|ks|, i requires 0 <= i < |ks| => Val(At(Rows(short), ks[i])))
  }

  /** A reordered column indexed by the key is the joined column exactly if that has no nulls. */
  lemma IndexedIsJoined(left: Table, right: Table, p: seq<nat>, reordered: map<string, seq<Cell>>, c: string)
    requires NullFreeKey(left.key) && Partners(left.key, right.key, p) && Reordered(right, reordered, c)
    ensures Indexed(reordered[c], KeyValues(left.key)) == TakeRight(Paired(p), right.cols[c])
       <==> Null !in TakeRight(Paired(p), right.cols[c])
  {
    var lks, rks := KeyValues(left.key), KeyValues(right.key);
    var joined, out := TakeRight(Paired(p), right.cols[c]), Indexed(reordered[c], lks);
    forall i | 0 <= i < |lks|
      ensures out[i] == Val(StageCell(joined[i]))
    {
      assert left.key[i] == Some(lks[i]) && lks[i] == rks[p[i]];
      assert joined[i] == right.cols[c][p[i]];
    }
    if Null in joined {
      var i :| 0 <= i < |joined| && joined[i] == Null;
      assert out[i] != joined[i];
    } else {
      assert forall i | 0 <= i < |joined| :: joined[i] in joined;
    }
  }

  /** The arrays the resident branch has staged and computed. */
  ghost predicate Arrays(sem: Sem, left: Table, right: Table, e: Expr, reordered: map<string, seq<Cell>>, values: seq<Cell>) {
    reordered.Keys == right.cols.Keys && (forall c | c in right.cols :: Reordered(right, reordered, c)) &&
    |values| == |left.key| &&
    forall i | 0 <= i < |left.key| ::
      values[i] == At(DEval(GatherEnv(sem, left, right.cols.Keys * Reads(e), reordered), e), i)
  }

  /** The names do not clash, and the chain reads value columns. */
  ghost predicate Apart(left: Table, right: Table, e: Expr) {
    left.cols.Keys !! right.cols.Keys && Reads(e) <= left.cols.Keys + right.cols.Keys
  }

  /** The values are the device's over the joined frame. */
  lemma ResidentValues(sem: Sem, how: How, left: Table, right: Table, e: Expr, reordered: map<string, seq<Cell>>, values: seq<Cell>)
    requires Tables(left, right) && Guards(how, left, right) && Apart(left, right, e) && Arrays(sem, left, right, e, reordered, values)
    ensures FrameOf(Joined(how, left, right)).n == |left.key|
    ensures values == DeviceValues(sem, FrameOf(Joined(how, left, right)), e)
  {
    hide Guards, Joined, Reads, DEval, Partners, Reordered, GatherEnv, FrameOf, DeviceValues;
    var j := Joined(how, left, right);
    var p := PartnersExist(how, left, right);
    FrameOfHeight(j);
    JoinedColumns(how, left, right, p);
    GatheredColumns(sem, how, left, right, e, reordered, p);
  }

  /** Column by column: the resident frame is the joined one exactly if its dimension columns and the
      chain's column are. */
  lemma ResidentColumns(sem: Sem, how: How, left: Table, right: Table, e: Expr, name: string,
                        reordered: map<string, seq<Cell>>, values: seq<Cell>)
    requires Tables(left, right) && Guards(how, left, right) && Apart(left, right, e) && Arrays(sem, left, right, e, reordered, values)
    ensures Resident(left, reordered, values, name) == JoinThenChain(sem, how, left, right, e, name) <==>
      Masked(values, NoMask(|values|)) == PolarsColumn(sem, FrameOf(Joined(how, left, right)), e) &&
      NullFree(FrameOf(Joined(how, left, right)), right.cols.Keys - {name})
  {
    hide Guards, Joined, Reads, DEval, Reordered, Indexed, PolarsColumn, GatherEnv, Masked, NoMask, KeyValues, FrameOf;
    var j := Joined(how, left, right);
    var r, s := Resident(left, reordered, values, name), JoinThenChain(sem, how, left, right, e, name);
    ResidentDims(sem, how, left, right, e, reordered, values);
    assert r.cols.Keys == s.cols.Keys;
    if r == s {
      assert r.cols[name] == s.cols[name];
      forall c | c in right.cols.Keys - {name}
        ensures Null !in FrameOf(j).col(c)
      {
        assert r.cols[c] == s.cols[c];
      }
    }
    if Masked(values, NoMask(|values|)) == PolarsColumn(sem, FrameOf(j), e) && NullFree(FrameOf(j), right.cols.Keys - {name}) {
      forall c | c in r.cols
        ensures r.cols[c] == s.cols[c]
      {
        assert c == name || c in left.cols || c in right.cols.Keys - {name};
      }
      assert r.cols == s.cols;
    }
  }

  /** The columns of the join: left ones are kept, and dimension columns are right exactly if null-free. */
  lemma ResidentDims(sem: Sem, how: How, left: Table, right: Table, e: Expr, reordered: map<string, seq<Cell>>, values: seq<Cell>)
    requires Tables(left, right) && Guards(how, left, right) && Apart(left, right, e) && Arrays(sem, left, right, e, reordered, values)
    ensures var j := Joined(how, left, right);
            j.key == left.key && j.cols.Keys == left.cols.Keys + right.cols.Keys
            && (forall c | c in left.cols :: j.cols[c] == left.cols[c])
            && forall c | c in right.cols ::
                 Indexed(reordered[c], KeyValues(left.key)) == j.cols[c] <==> Null !in FrameOf(j).col(c)
  {
    hide Guards, Joined, Reads, DEval, Partners, Reordered, TakeRight, Indexed, NullFreeKey, GatherEnv, KeyValues;
    var j := Joined(how, left, right);
    var p := PartnersExist(how, left, right);
    JoinedColumns(how, left, right, p);
    GuardedKey(how, left, right);
    forall c | c in right.cols
      ensures Indexed(reordered[c], KeyValues(left.key)) == j.cols[c] <==> Null !in FrameOf(j).col(c)
    {
      IndexedIsJoined(left, right, p, reordered, c);
    }
  }

  /** Under the guards, gathering and running the spliced graph gives the joined frame with the chain's
      column if no shift is positive and the columns are clean; for a chain, only then. */
  lemma ResidentExactly(sem: Sem, how: How, left: Table, right: Table, e: Expr, name: string,
                        reordered: map<string, seq<Cell>>, values: seq<Cell>)
    requires Tables(left, right) && Guards(how, left, right) && Apart(left, right, e) && Arrays(sem, left, right, e, reordered, values)
    requires GatherAssumed(sem, how, left, right, e) && Supported(e)
    ensures Unshifted(e) && GatherClean(how, left, right, e, name) ==>
      Resident(left, reordered, values, name) == JoinThenChain(sem, how, left, right, e, name)
    ensures Straight(e) ==>
      (Resident(left, reordered, values, name) == JoinThenChain(sem, how, left, right, e, name)
       <==> Unshifted(e) && GatherClean(how, left, right, e, name))
  {
    hide Joined, Lawful, PlainParameters, Ordinary, Reads, Supported, Straight, Unshifted, Resident, JoinThenChain, PolarsColumn,
      Masked, NoMask, FrameOf, FrameShape, Arrays, DeviceValues, Apart, KeyValues, Dense, InBounds, NullFreeKey;
    var j := Joined(how, left, right);
    JoinedShape(how, left, right);
    FrameOfShape(j);
    ResidentValues(sem, how, left, right, e, reordered, values);
    ResidentColumns(sem, how, left, right, e, name, reordered, values);
    CleanParts(FrameOf(j), Reads(e), right.cols.Keys - {name});
    if Unshifted(e) && NullFree(FrameOf(j), Reads(e)) {
      UnmaskedColumn(sem, FrameOf(j), e);
    }
    if Straight(e) {
      UnmaskedExactly(sem, FrameOf(j), e);
    }
  }

  lemma CleanParts(frame: Frame, a: set<string>, b: set<string>)
    ensures NullFree(frame, a + b) <==> NullFree(frame, a) && NullFree(frame, b)
  {
    if NullFree(frame, a + b) {
      assert forall c | c in a || c in b :: c in a + b;
    }
  }

  lemma FrameOfHeight(t: Table)
    ensures FrameOf(t).n == |t.key|
  {
  }

  /** `_try_resident_gather`: whenever its guards pass, and only then, it delivers. What it delivers is the
      join followed by the chain if no shift is positive and the columns are clean, and for a chain without
      conditions only then. */
  method TryResidentGather(sem: Sem, how: How, left: Table, right: Table, dimCols: seq<string>, graph: Graph,
                           gathered: set<string>, name: string,
                           ghost e: Expr, ghost schema: set<string>, ghost keyName: string, ghost view: nat -> Leaf)
    returns (r: Option<Table>)
    requires Viewed(view, e) && Tables(left, right) && OneInputScans(e)
    requires Named(left, right, schema, keyName) && AttachGather(schema, e, right.cols.Keys, keyName) == Some(graph)
    requires gathered == right.cols.Keys * Reads(e) && (set c | c in dimCols) == right.cols.Keys
    ensures r.Some? <==> Guards(how, left, right)
    ensures r.Some? && GatherAssumed(sem, how, left, right, e) && Unshifted(e) && GatherClean(how, left, right, e, name) ==>
      r.value == JoinThenChain(sem, how, left, right, e, name)
    ensures r.Some? && GatherAssumed(sem, how, left, right, e) && Straight(e) ==>
      (r.value == JoinThenChain(sem, how, left, right, e, name) <==> Unshifted(e) && GatherClean(how, left, right, e, name))
  {
    hide Viewed, GatherAssumed, GatherClean, Reads, Unshifted, Straight, Analyze, DEval, RunGraph, KeyValues, Dense, FrameOf, Joined,
      JoinThenChain, Resident, Reordered, GatherEnv, StagedColumns, Supported, Matches, WellLaidOut, OneInputScans;
    if how.OtherJoin? || left.key == [] || right.key == [] || !NullFreeKey(left.key) || !NullFreeKey(right.key) {
      return None;
    }
    var rks, lks := KeyValues(right.key), KeyValues(left.key);
    var dense := IsDenseKey(rks, |right.key|);
    if !dense {
      return None;
    }
    var lo, hi := Extremes(lks);
    if lo < 0 || hi >= |right.key| {
      assert !InBounds(lks, |right.key|);
      return None;
    }
    var reordered := ReorderAll(right, rks, dimCols);
    AttachedReads(schema, e, left, right, keyName, view);
    var env := GatherEnv(sem, left, gathered, reordered);
    GraphDelivers(sem, how, left, right, e, schema, keyName, view, graph, reordered);
    var value := RunGraph(env, graph).value;
    if value.Scalar? && |left.key| != 1 {
      return None;
    }
    var values := seq(|left.key|, i => At(value, i));
    if GatherAssumed(sem, how, left, right, e) {
      ResidentExactly(sem, how, left, right, e, name, reordered, values);
    }
    return Some(Resident(left, reordered, values, name));
  }

  /** The spliced graph runs, and fills every row. */
  lemma GraphDelivers(sem: Sem, how: How, left: Table, right: Table, e: Expr, schema: set<string>, keyName: string,
                      view: nat -> Leaf, graph: Graph, reordered: map<string, seq<Cell>>)
    requires Viewed(view, e) && Tables(left, right) && OneInputScans(e) && Guards(how, left, right)
    requires Named(left, right, schema, keyName) && AttachGather(schema, e, right.cols.Keys, keyName) == Some(graph)
    requires reordered.Keys == right.cols.Keys && forall c | c in right.cols :: Reordered(right, reordered, c)
    ensures var env := GatherEnv(sem, left, right.cols.Keys * Reads(e), reordered);
            RunGraph(env, graph) == Some(DEval(env, e)) && DEval(env, e).Rows?
  {
    hide Viewed, OneInputScans, Reads, Analyze, DEval, RunGraph, FrameOf, Joined, Guards, Partners,
      Reordered, GatherEnv, StagedColumns, Supported, Matches, WellLaidOut, AttachGather, VisitOps, GatherLeaves;
    AttachedReads(schema, e, left, right, keyName, view);
    var gathered := right.cols.Keys * Reads(e);
    var env := GatherEnv(sem, left, gathered, reordered);
    var ctx := Ctx(schema, Some(Gather(gathered, keyName)));
    GatherEnvMatches(ctx, env, sem, left, reordered);
    CompileSound(view, ctx, env, e);
    var p := PartnersExist(how, left, right);
    GatheredColumns(sem, how, left, right, e, reordered, p);
    ReadingGivesRows(sem, FrameOf(Joined(how, left, right)), e);
  }

  method ReorderAll(right: Table, rks: seq<int>, dimCols: seq<string>) returns (reordered: map<string, seq<Cell>>)
    requires rks == KeyValues(right.key) && Dense(rks, |right.key|) && TableShape(right)
    requires (set c | c in dimCols) == right.cols.Keys
    ensures reordered.Keys == right.cols.Keys && forall c | c in right.cols :: Reordered(right, reordered, c)
  {
    hide KeyValues, Reordered, Distinct;
    reordered := map[];
    for k := 0 to |dimCols|
      invariant reordered.Keys == set c | c in dimCols[..k]
      invariant forall c | c in reordered :: Reordered(right, reordered, c)
    {
      var c := dimCols[k];
      assert c in right.cols;
      var out := ReorderByKey(rks, StageCells(right.cols[c]), |right.key|);
      ghost var before := reordered;
      reordered := reordered[c := out];
      ReorderedStep(right, rks, before, c, out, reordered);
      assert dimCols[..k + 1] == dimCols[..k] + [c];
    }
    assert dimCols[..|dimCols|] == dimCols;
  }

  lemma ReorderedStep(right: Table, rks: seq<int>, before: map<string, seq<Cell>>, c: string, out: seq<Cell>,
                      after: map<string, seq<Cell>>)
    requires TableShape(right) && c in right.cols && rks == KeyValues(right.key)
    requires |out| == |right.key| && InBounds(rks, |out|)
    requires forall i | 0 <= i < |out| :: out[rks[i]] == StageCell(right.cols[c][i])
    requires after == before[c := out] && forall d | d in before :: Reordered(right, before, d)
    ensures forall d | d in after :: Reordered(right, after, d)
  {
    hide KeyValues;
    forall d | d in after
      ensures Reordered(right, after, d)
    {
      assert d != c ==> Reordered(right, before, d);
    }
  }

  lemma GatherEnvMatches(ctx: Ctx, env: Env, sem: Sem, left: Table, reordered: map<string, seq<Cell>>)
    requires ctx.gather.Some? && env == GatherEnv(sem, left, ctx.gather.value.cols, reordered)
    ensures Matches(ctx, env)
  {
  }

  /** A gather is attached to a supported chain that reads a dimension column and not the key. */
  lemma AttachedReads(schema: set<string>, e: Expr, left: Table, right: Table, keyName: string, view: nat -> Leaf)
    requires Viewed(view, e) && Named(left, right, schema, keyName) && AttachGather(schema, e, right.cols.Keys, keyName).Some?
    ensures Supported(e) && Reads(e) <= left.cols.Keys + right.cols.Keys && Reads(e) != {}
    ensures AttachGather(schema, e, right.cols.Keys, keyName)
         == Analyze(Ctx(schema, Some(Gather(right.cols.Keys * Reads(e), keyName))), e)
  {
    hide Viewed, Supported, Reads, Analyze, StagedColumns;
    AcceptsExactly(view, Ctx(schema, None), e);
    AcceptedReads(view, Ctx(schema, None), e);
  }

  /** Exactly the chains without a key, and with a dimension column, get a gather. */
  lemma AttachesExactly(view: nat -> Leaf, schema: set<string>, e: Expr, dimCols: set<string>, keyName: string)
    requires Viewed(view, e) && keyName in schema
    ensures AttachGather(schema, e, dimCols, keyName).Some? <==>
      Supported(e) && Reads(e) <= schema && keyName !in Reads(e) && dimCols * Reads(e) != {}
  {
    hide Viewed, Supported, Reads, Analyze, StagedColumns;
    var base := Ctx(schema, None);
    AcceptsExactly(view, base, e);
    if Analyze(base, e).Some? {
      AcceptedReads(view, base, e);
      var gathered := dimCols * Reads(e);
      SplicesExactly(view, Ctx(schema, Some(Gather(gathered, keyName))), e);
      assert Reads(e) * gathered == gathered;
    }
  }

  /** The resident branch is taken. */
  predicate Resides(how: How, left: Table, right: Table, schema: set<string>, e: Expr, keyName: string) {
    AttachGather(schema, e, right.cols.Keys, keyName).Some? && Guards(how, left, right)
  }

  /** `_dispatch_join` under the HStack above it: if that was routed, the resident branch where its plan is
      attached and its guards pass, else the join on the CPU and the fused chain over it. */
  method DispatchJoin(sem: Sem, how: How, left: Table, right: Table, dimCols: seq<string>, e: Expr, name: string,
                      schema: set<string>, keyName: string, spare: seq<Cell>, ghost view: nat -> Leaf)
    returns (r: Option<Table>)
    requires Viewed(view, e) && Tables(left, right) && OneInputScans(e) && ArithmeticLaw(sem)
    requires Named(left, right, schema, keyName) && (set c | c in dimCols) == right.cols.Keys
    requires |spare| == |Joined(how, left, right).key|
    ensures r.Some? <==> Analyze(Ctx(schema, None), e).Some? && !RouteBinding(Ctx(schema, None), false, Reads(e), e).FallBack?
    ensures r.Some? && !Resides(how, left, right, schema, e, keyName) ==>
      (Dependable(sem, FrameOf(Joined(how, left, right)), false, e) ==>
        r.value == JoinThenChain(sem, how, left, right, e, name))
    ensures r.Some? && Resides(how, left, right, schema, e, keyName) && GatherAssumed(sem, how, left, right, e) ==>
      (Unshifted(e) && GatherClean(how, left, right, e, name) ==>
        r.value == JoinThenChain(sem, how, left, right, e, name))
    ensures r.Some? && Resides(how, left, right, schema, e, keyName) && GatherAssumed(sem, how, left, right, e) && Straight(e) ==>
      (r.value == JoinThenChain(sem, how, left, right, e, name) <==> Unshifted(e) && GatherClean(how, left, right, e, name))
  {
    hide Viewed, OneInputScans, ArithmeticLaw, Reads, Analyze, FrameOf, Joined, Guards, StagedColumns, Dependable, RouteBinding,
      GatherAssumed, GatherClean, Unshifted, Straight, PolarsColumn, FrameShape, AttachGather, Delivered;
    var ctx := Ctx(schema, None);
    if Analyze(ctx, e).None? || RouteBinding(ctx, false, Reads(e), e).FallBack? {
      return None;
    }
    var graph := AttachGather(schema, e, right.cols.Keys, keyName);
    if graph.Some? {
      r := TryResidentGather(sem, how, left, right, dimCols, graph.value, right.cols.Keys * Reads(e), name,
                             e, schema, keyName, view);
      if r.Some? {
        return;
      }
    }
    var j := Joined(how, left, right);
    JoinedShape(how, left, right);
    FrameOfShape(j);
    FrameOfHeight(j);
    var col := FusedColumn(ctx, false, e, sem, FrameOf(j), spare, view);
    return Some(j.(cols := j.cols[name := col.value]));
  }

  // ----- a shift in a gathered chain -----

  /** The chain `d.shift(w)` over a dimension column is given a gather, and with a positive shift the resident
      frame is never the joined one. */
  lemma ShiftedGatherIsWrong(how: How, left: Table, right: Table, d: string, w: nat, name: string, keyName: string,
                             schema: set<string>, reordered: map<string, seq<Cell>>, values: seq<Cell>)
    requires Tables(left, right) && Guards(how, left, right) && Named(left, right, schema, keyName) && d in right.cols && w > 0
    requires Arrays(REFERENCE, left, right, ShiftOf(d, w), reordered, values)
    ensures AttachGather(schema, ShiftOf(d, w), right.cols.Keys, keyName).Some?
    ensures Resident(left, reordered, values, name) != JoinThenChain(REFERENCE, how, left, right, ShiftOf(d, w), name)
  {
    hide Guards, Joined, FrameOf, AttachGather, Resident, JoinThenChain, Arrays, REFERENCE, Lawful;
    var e := ShiftOf(d, w);
    ShiftOfIsChain(d, w);
    ShiftIsViewed(d, w);
    AttachesExactly(ShiftView(d, w), schema, e, right.cols.Keys, keyName);
    ReferenceIsLawful();
    ShiftIsOrdinary(FrameOf(Joined(how, left, right)), d, w);
    ResidentExactly(REFERENCE, how, left, right, e, name, reordered, values);
  }

  lemma ShiftIsOrdinary(frame: Frame, x: string, w: nat)
    ensures Ordinary(REFERENCE, frame, ShiftOf(x, w))
  {
    hide REFERENCE;
    var args := ShiftOf(x, w).args;
    assert args[1..] == [args[1]] && args[1..][1..] == [];
    assert Ordinary(REFERENCE, frame, args[0]) && Ordinary(REFERENCE, frame, args[1]);
    assert OrdinaryAll(REFERENCE, frame, args[1..]);
  }

  /** One such input: one row on each side, under key zero, and `d.shift(1)`. */
  lemma ShiftedGatherInput()
    ensures var left, right := Table([Some(0)], map[]), Table([Some(0)], map["d" := [Val(Num(5.0))]]);
            var schema, reordered, values := {"d", "k"}, map["d" := [Num(5.0)]], [Num(0.0)];
            Tables(left, right) && Guards(LeftJoin, left, right) && Named(left, right, schema, "k")
            && AttachGather(schema, ShiftOf("d", 1), right.cols.Keys, "k").Some?
            && Arrays(REFERENCE, left, right, ShiftOf("d", 1), reordered, values)
            && Resident(left, reordered, values, "y") != JoinThenChain(REFERENCE, LeftJoin, left, right, ShiftOf("d", 1), "y")
  {
    hide REFERENCE, AttachGather, Resident, JoinThenChain;
    var left, right := Table([Some(0)], map[]), Table([Some(0)], map["d" := [Val(Num(5.0))]]);
    var reordered, values := map["d" := [Num(5.0)]], [Num(0.0)];
    assert KeyValues(right.key) == [0] && KeyValues(left.key) == [0];
    ShiftOfIsChain("d", 1);
    assert Reordered(right, reordered, "d");
    OneRowArrays();
    ShiftedGatherIsWrong(LeftJoin, left, right, "d", 1, "y", "k", {"d", "k"}, reordered, values);
  }

  lemma OneRowArrays()
    ensures var left, right := Table([Some(0)], map[]), Table([Some(0)], map["d" := [Val(Num(5.0))]]);
            At(DEval(GatherEnv(REFERENCE, left, right.cols.Keys * Reads(ShiftOf("d", 1)), map["d" := [Num(5.0)]]), ShiftOf("d", 1)), 0) == Num(0.0)
  {
    hide REFERENCE;
    var left, right := Table([Some(0)], map[]), Table([Some(0)], map["d" := [Val(Num(5.0))]]);
    ShiftOfIsChain("d", 1);
    var env := GatherEnv(REFERENCE, left, right.cols.Keys * Reads(ShiftOf("d", 1)), map["d" := [Num(5.0)]]);
    var e := ShiftOf("d", 1);
    assert ShiftOffset(e.args) == Some(1);
    assert DEval(env, e) == ShiftArr(DEval(env, e.args[0]), 1);
  }
}

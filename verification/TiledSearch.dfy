/** Top-k search over row tiles of the corpus, merged on the host, against the untiled search. */
module TiledSearch {
  import opened DenseKey
  import opened IndexArith
  import opened Options

  datatype Hit = Hit(index: int, score: real)

  /** Similarities rank descending, distances ascending. */
  predicate Better(desc: bool, a: real, b: real) {
    if desc then a >= b else a <= b
  }

  /** The order hits are sorted in: by score, then by index. */
  predicate Before(desc: bool, a: Hit, b: Hit) {
    if a.score == b.score then a.index <= b.index else Better(desc, a.score, b.score)
  }

  function Indices(hits: seq<Hit>): (rows: seq<int>)
    ensures |rows| == |hits| && forall i | 0 <= i < |hits| :: rows[i] == hits[i].index
  {
    seq(|hits|, i requires 0 <= i < |hits| => hits[i].index)
  }

  /** Distinct rows below `n`, each with its own score. */
  ghost predicate Genuine(scores: seq<real>, n: nat, hits: seq<Hit>) {
    n <= |scores| && Distinct(Indices(hits)) &&
    forall i | 0 <= i < |hits| :: 0 <= hits[i].index < n && hits[i].score == scores[hits[i].index]
  }

  ghost predicate IsHit(hits: seq<Hit>, row: int) {
    exists i | 0 <= i < |hits| :: hits[i].index == row
  }

  /** `k` rows among the first `n`, none of which scores worse than a row left out. */
  ghost predicate TopK(desc: bool, scores: seq<real>, n: nat, k: nat, hits: seq<Hit>) {
    |hits| == k && Genuine(scores, n, hits) &&
    forall i, row | 0 <= i < |hits| && 0 <= row < n && !IsHit(hits, row) :: Better(desc, hits[i].score, scores[row])
  }

  // ----- sorting -----

  ghost predicate Sorted(desc: bool, hits: seq<Hit>) {
    forall i, j | 0 <= i < j < |hits| :: Before(desc, hits[i], hits[j])
  }

  function Insert(desc: bool, hits: seq<Hit>, h: Hit): (out: seq<Hit>)
    ensures multiset(out) == multiset(hits) + multiset{h}
  {
    if hits == [] then [h]
    else if Before(desc, h, hits[0]) then [h] + hits
    else
      assert hits == [hits[0]] + hits[1..];
      [hits[0]] + Insert(desc, hits[1..], h)
  }

  lemma {:induction false} InsertSorts(desc: bool, hits: seq<Hit>, h: Hit)
    requires Sorted(desc, hits)
    ensures Sorted(desc, Insert(desc, hits, h))
  {
    if hits != [] && !Before(desc, h, hits[0]) {
      var rest := Insert(desc, hits[1..], h);
      InsertSorts(desc, hits[1..], h);
      forall j | 0 <= j < |rest|
        ensures Before(desc, hits[0], rest[j])
      {
        assert rest[j] in multiset(rest);
        assert rest[j] == h || rest[j] in hits[1..];
      }
    }
  }

  /** The library sort, by its contract: a sorted permutation. */
  function Sort(desc: bool, hits: seq<Hit>): (out: seq<Hit>)
    ensures multiset(out) == multiset(hits) && |out| == |hits|
  {
    if hits == [] then []
    else
      assert hits == hits[..|hits| - 1] + [hits[|hits| - 1]];
      var out := Insert(desc, Sort(desc, hits[..|hits| - 1]), hits[|hits| - 1]);
      assert |multiset(out)| == |out|;
      out
  }

  lemma {:induction false} SortSorts(desc: bool, hits: seq<Hit>)
    ensures Sorted(desc, Sort(desc, hits))
  {
    if hits != [] {
      SortSorts(desc, hits[..|hits| - 1]);
      InsertSorts(desc, Sort(desc, hits[..|hits| - 1]), hits[|hits| - 1]);
    }
  }

  /** A permutation of genuine hits is genuine. */
  lemma PermutedGenuine(scores: seq<real>, n: nat, hits: seq<Hit>, out: seq<Hit>)
    requires Genuine(scores, n, hits) && multiset(out) == multiset(hits)
    ensures Genuine(scores, n, out)
  {
    forall i | 0 <= i < |out|
      ensures out[i] in hits
    {
      assert out[i] in multiset(out);
    }
    forall i, j | 0 <= i < j < |out|
      ensures out[i].index != out[j].index
    {
      if out[i].index == out[j].index {
        assert out[i] == out[j];
        TwiceInMultiset(out, i, j);
        OnceInMultiset(hits, out[i]);
      }
    }
  }

  lemma TwiceInMultiset(out: seq<Hit>, i: int, j: int)
    requires 0 <= i < j < |out| && out[i] == out[j]
    ensures multiset(out)[out[i]] >= 2
  {
    assert out == out[..i] + [out[i]] + out[i + 1..j] + [out[j]] + out[j + 1..];
  }

  lemma {:induction false} OnceInMultiset(hits: seq<Hit>, h: Hit)
    requires Distinct(Indices(hits))
    ensures multiset(hits)[h] <= 1
  {
    if hits != [] {
      var m := |hits| - 1;
      assert hits == hits[..m] + [hits[m]];
      assert Indices(hits[..m]) == Indices(hits)[..m];
      OnceInMultiset(hits[..m], h);
      forall i | 0 <= i < m
        ensures hits[..m][i] != hits[m]
      {
        assert Indices(hits)[i] != Indices(hits)[m];
      }
    }
  }

  // ----- merging -----

  /** A tile's hits, moved to the corpus rows they came from. */
  function Shifted(hits: seq<Hit>, offset: nat): (out: seq<Hit>)
    ensures |out| == |hits|
  {
    seq(|hits|, i requires 0 <= i < |hits| => Hit(hits[i].index + offset, hits[i].score))
  }

  /** `k` hits, all strictly better than one in a sorted list, push it past position `k`. */
  lemma Crowded(desc: bool, all: seq<Hit>, some: seq<Hit>, p: nat)
    requires Sorted(desc, all) && p < |all| && Distinct(Indices(all)) && Distinct(Indices(some))
    requires forall i | 0 <= i < |some| :: some[i] in all && !Better(desc, all[p].score, some[i].score)
    ensures |some| <= p
  {
    hide Sorted, Better;
    var before := Indices(all)[..p];
    forall i | 0 <= i < |some|
      ensures some[i].index in before
    {
      var q :| 0 <= q < |all| && all[q] == some[i];
      if p <= q {
        SortedBetter(desc, all, p, q);
      }
      assert before[q] == some[i].index;
    }
    assert Elements(Indices(some)) <= Elements(before);
    ElementsSize(Indices(some));
    ElementsSize(before);
    SubsetSize(Elements(Indices(some)), Elements(before));
  }

  lemma SortedBetter(desc: bool, all: seq<Hit>, p: nat, q: nat)
    requires Sorted(desc, all) && p <= q < |all|
    ensures Better(desc, all[p].score, all[q].score)
  {
    assert p < q ==> Before(desc, all[p], all[q]);
  }

  lemma SubsetSize(a: set<int>, b: set<int>)
    requires a <= b
    ensures |a| <= |b|
  {
    assert b == a + (b - a);
  }

  function Min(a: nat, b: nat): nat {
    if a < b then a else b
  }

  /** Hits of all rows leave no row out. */
  lemma AllRowsHit(scores: seq<real>, n: nat, hits: seq<Hit>, row: nat)
    requires Genuine(scores, n, hits) && |hits| == n && row < n
    ensures IsHit(hits, row)
  {
    Pigeonhole(Indices(hits), n);
    assert row in Indices(hits);
    var i :| 0 <= i < n && Indices(hits)[i] == row;
    assert hits[i].index == row;
  }

  lemma CandidatesGenuine(scores: seq<real>, off: nat, rows: nat, best: seq<Hit>, tile: seq<Hit>)
    requires off + rows <= |scores| && Genuine(scores, off, best) && Genuine(scores[off..off + rows], rows, tile)
    ensures Genuine(scores, off + rows, best + Shifted(tile, off))
  {
    var cands := best + Shifted(tile, off);
    forall i | 0 <= i < |cands|
      ensures 0 <= cands[i].index < off + rows && cands[i].score == scores[cands[i].index]
      ensures i < |best| <==> cands[i].index < off
    {
      if i >= |best| {
        var t := tile[i - |best|];
        assert cands[i] == Hit(t.index + off, t.score) && t.score == scores[off..off + rows][t.index];
      }
    }
    forall i, j | 0 <= i < j < |cands|
      ensures cands[i].index != cands[j].index
    {
      if j < |best| {
        assert Indices(best)[i] != Indices(best)[j];
      } else if i >= |best| {
        assert Indices(tile)[i - |best|] != Indices(tile)[j - |best|];
      }
    }
  }

  /** If `k` of the candidates are no worse than a row, so are the first `k` in order. */
  lemma FirstAreBetter(desc: bool, all: seq<Hit>, part: seq<Hit>, x: real, i: nat)
    requires Sorted(desc, all) && Distinct(Indices(all)) && Distinct(Indices(part)) && i < |part| && i < |all|
    requires forall b | 0 <= b < |part| :: part[b] in all && Better(desc, part[b].score, x)
    ensures Better(desc, all[i].score, x)
  {
    if !Better(desc, all[i].score, x) {
      Crowded(desc, all, part, i);
    }
  }

  lemma InMultiset(hits: seq<Hit>, out: seq<Hit>, i: nat)
    requires multiset(hits) == multiset(out) && i < |hits|
    ensures hits[i] in out
  {
    assert hits[i] in multiset(out);
  }

  lemma GenuinePrefix(scores: seq<real>, n: nat, all: seq<Hit>, k: nat)
    requires Genuine(scores, n, all) && k <= |all|
    ensures Genuine(scores, n, all[..k])
  {
    assert Indices(all[..k]) == Indices(all)[..k];
  }

  /** A row outside a part's hits, and the part has room for `k`: all its hits are better. */
  lemma PartDecides(desc: bool, scores: seq<real>, n: nat, k: nat, hits: seq<Hit>, row: nat)
    requires TopK(desc, scores, n, Min(k, n), hits) && row < n && !IsHit(hits, row)
    ensures |hits| == k && forall b | 0 <= b < |hits| :: Better(desc, hits[b].score, scores[row])
  {
    if |hits| == n {
      AllRowsHit(scores, n, hits, row);
    }
  }

  /** The candidates of a merge in order, and the rows they stand for. */
  ghost predicate Merged(desc: bool, scores: seq<real>, n: nat, cands: seq<Hit>, all: seq<Hit>) {
    multiset(cands) == multiset(all) && |all| == |cands| && Sorted(desc, all) && Genuine(scores, n, all)
  }

  /** A part that has the best `k` of its rows keeps the others behind the first `k` of the merge. */
  lemma PartWins(desc: bool, scores: seq<real>, n: nat, cands: seq<Hit>, all: seq<Hit>, part: seq<Hit>, start: nat,
                 x: real, i: nat)
    requires Merged(desc, scores, n, cands, all) && start + |part| <= |cands| && cands[start..start + |part|] == part
    requires Distinct(Indices(part)) && i < |part| && i < |all|
    requires forall b | 0 <= b < |part| :: Better(desc, part[b].score, x)
    ensures Better(desc, all[i].score, x)
  {
    hide Sorted, Better, Distinct;
    PartOf(cands, all, part, start);
    FirstAreBetter(desc, all, part, x, i);
  }

  lemma OutsideBest(desc: bool, scores: seq<real>, off: nat, n: nat, k: nat, best: seq<Hit>, shifted: seq<Hit>,
                    all: seq<Hit>, i: nat, row: nat)
    requires off <= n && TopK(desc, scores, off, Min(k, off), best) && Merged(desc, scores, n, best + shifted, all)
    requires row < off && !IsHit(all, row) && i < k && i < |all|
    ensures Better(desc, all[i].score, scores[row])
  {
    hide Sorted, Better, IsHit;
    BestNotHit(best, shifted, all, row);
    PartDecides(desc, scores, off, k, best, row);
    PartWins(desc, scores, n, best + shifted, all, best, 0, scores[row], i);
  }

  lemma BestNotHit(best: seq<Hit>, shifted: seq<Hit>, all: seq<Hit>, row: nat)
    requires multiset(best + shifted) == multiset(all) && !IsHit(all, row)
    ensures !IsHit(best, row) && !IsHit(shifted, row)
  {
    var cands := best + shifted;
    if IsHit(best, row) || IsHit(shifted, row) {
      if IsHit(best, row) {
        var b :| 0 <= b < |best| && best[b].index == row;
        assert cands[b].index == row;
      } else {
        var b :| 0 <= b < |shifted| && shifted[b].index == row;
        assert cands[|best| + b].index == row;
      }
      CandidateIsHit(cands, all, row);
    }
  }

  lemma OutsideTile(desc: bool, scores: seq<real>, off: nat, rows: nat, k: nat, best: seq<Hit>, tile: seq<Hit>,
                    all: seq<Hit>, i: nat, row: nat)
    requires off + rows <= |scores| && TopK(desc, scores[off..off + rows], rows, Min(k, rows), tile)
    requires Merged(desc, scores, off + rows, best + Shifted(tile, off), all)
    requires off <= row < off + rows && !IsHit(all, row) && i < k && i < |all|
    ensures Better(desc, all[i].score, scores[row])
  {
    hide Sorted, Better, IsHit;
    var shifted := Shifted(tile, off);
    BestNotHit(best, shifted, all, row);
    if IsHit(tile, row - off) {
      ShiftedHit(tile, off, row);
    }
    PartDecides(desc, scores[off..off + rows], rows, k, tile, row - off);
    ShiftedDistinct(tile, off);
    PartWins(desc, scores, off + rows, best + shifted, all, shifted, |best|, scores[row], i);
  }

  lemma BehindTheCut(desc: bool, all: seq<Hit>, scores: seq<real>, n: nat, cut: nat, i: nat, row: nat)
    requires Sorted(desc, all) && Genuine(scores, n, all) && i < cut <= |all| && row < n
    requires IsHit(all, row) && !IsHit(all[..cut], row)
    ensures Better(desc, all[i].score, scores[row])
  {
    hide Sorted, Better;
    var q :| 0 <= q < |all| && all[q].index == row;
    assert forall p | 0 <= p < cut :: all[..cut][p] == all[p] && all[..cut][p].index != row;
    SortedBetter(desc, all, i, q);
  }

  /** Merging the best of a prefix with the best of the next tile gives the best of both. */
  lemma MergeTopK(desc: bool, scores: seq<real>, off: nat, rows: nat, k: nat, best: seq<Hit>, tile: seq<Hit>)
    requires off + rows <= |scores| && TopK(desc, scores, off, Min(k, off), best)
    requires TopK(desc, scores[off..off + rows], rows, Min(k, rows), tile)
    ensures var all := Sort(desc, best + Shifted(tile, off));
            Min(k, off + rows) <= |all| && TopK(desc, scores, off + rows, Min(k, off + rows), all[..Min(k, off + rows)])
  {
    var n, cut := off + rows, Min(k, off + rows);
    var all := Sort(desc, best + Shifted(tile, off));
    MergeOrdered(desc, scores, off, rows, k, best, tile);
    forall i, row | 0 <= i < cut && 0 <= row < n && !IsHit(all[..cut], row)
      ensures Better(desc, all[i].score, scores[row])
    {
      hide Sort, Better, Merged, TopK, IsHit;
      if IsHit(all, row) {
        MergedParts(desc, scores, n, best + Shifted(tile, off), all);
        BehindTheCut(desc, all, scores, n, cut, i, row);
      } else if row < off {
        OutsideBest(desc, scores, off, n, k, best, Shifted(tile, off), all, i, row);
      } else {
        OutsideTile(desc, scores, off, rows, k, best, tile, all, i, row);
      }
    }
    PrefixIsTopK(desc, scores, n, all, cut);
  }

  lemma MergeOrdered(desc: bool, scores: seq<real>, off: nat, rows: nat, k: nat, best: seq<Hit>, tile: seq<Hit>)
    requires off + rows <= |scores| && TopK(desc, scores, off, Min(k, off), best)
    requires TopK(desc, scores[off..off + rows], rows, Min(k, rows), tile)
    ensures var cands := best + Shifted(tile, off);
            Min(k, off + rows) <= |cands| && Merged(desc, scores, off + rows, cands, Sort(desc, cands))
  {
    hide Sort, Sorted, Genuine, Better, IsHit;
    var cands := best + Shifted(tile, off);
    CandidatesGenuine(scores, off, rows, best, tile);
    PermutedGenuine(scores, off + rows, cands, Sort(desc, cands));
    SortSorts(desc, cands);
  }

  lemma MergedParts(desc: bool, scores: seq<real>, n: nat, cands: seq<Hit>, all: seq<Hit>)
    requires Merged(desc, scores, n, cands, all)
    ensures Sorted(desc, all) && Genuine(scores, n, all)
  {
  }

  lemma PrefixIsTopK(desc: bool, scores: seq<real>, n: nat, all: seq<Hit>, cut: nat)
    requires cut <= |all| && Genuine(scores, n, all)
    requires forall i, row | 0 <= i < cut && 0 <= row < n && !IsHit(all[..cut], row) :: Better(desc, all[i].score, scores[row])
    ensures TopK(desc, scores, n, cut, all[..cut])
  {
    hide Better, IsHit;
    GenuinePrefix(scores, n, all, cut);
  }

  lemma CandidateIsHit(cands: seq<Hit>, all: seq<Hit>, row: int)
    requires multiset(cands) == multiset(all) && exists i | 0 <= i < |cands| :: cands[i].index == row
    ensures IsHit(all, row)
  {
    var i :| 0 <= i < |cands| && cands[i].index == row;
    InMultiset(cands, all, i);
  }

  lemma ShiftedHit(tile: seq<Hit>, off: nat, row: int)
    requires IsHit(tile, row - off)
    ensures IsHit(Shifted(tile, off), row)
  {
    var i :| 0 <= i < |tile| && tile[i].index == row - off;
    assert Shifted(tile, off)[i].index == row;
  }

  lemma ShiftedDistinct(tile: seq<Hit>, off: nat)
    requires Distinct(Indices(tile))
    ensures Distinct(Indices(Shifted(tile, off)))
  {
    assert forall i | 0 <= i < |tile| :: Indices(Shifted(tile, off))[i] == Indices(tile)[i] + off;
  }

  lemma PartOf(cands: seq<Hit>, all: seq<Hit>, part: seq<Hit>, start: nat)
    requires multiset(cands) == multiset(all) && start + |part| <= |cands| && cands[start..start + |part|] == part
    ensures forall b | 0 <= b < |part| :: part[b] in all
  {
    forall b | 0 <= b < |part|
      ensures part[b] in all
    {
      assert part[b] == cands[start + b];
      InMultiset(cands, all, start + b);
    }
  }

  // ----- scores are determined -----

  function ScoresOf(hits: seq<Hit>): multiset<real> {
    if hits == [] then multiset{} else ScoresOf(hits[..|hits| - 1]) + multiset{hits[|hits| - 1].score}
  }

  /** The scores of a set of rows below `n`. */
  ghost function SetScores(scores: seq<real>, rows: set<int>, n: nat): multiset<real>
    requires n <= |scores|
  {
    if n == 0 then multiset{} else SetScores(scores, rows, n - 1) + (if n - 1 in rows then multiset{scores[n - 1]} else multiset{})
  }

  lemma {:induction false} SetScoresUnion(scores: seq<real>, a: set<int>, b: set<int>, n: nat)
    requires a !! b && n <= |scores|
    ensures SetScores(scores, a + b, n) == SetScores(scores, a, n) + SetScores(scores, b, n)
  {
    if n > 0 {
      SetScoresUnion(scores, a, b, n - 1);
    }
  }

  lemma {:induction false} SingleScore(scores: seq<real>, x: int, n: nat)
    requires n <= |scores|
    ensures SetScores(scores, {x}, n) == if 0 <= x < n then multiset{scores[x]} else multiset{}
  {
    if n > 0 {
      SingleScore(scores, x, n - 1);
    }
  }

  function Copies(c: real, m: nat): multiset<real> {
    if m == 0 then multiset{} else Copies(c, m - 1) + multiset{c}
  }

  /** The rows of a set below `n`. */
  ghost function BelowIn(rows: set<int>, n: nat): set<int> {
    set r | r in rows && 0 <= r < n
  }

  lemma BelowStep(rows: set<int>, n: nat)
    requires n > 0
    ensures |BelowIn(rows, n)| == |BelowIn(rows, n - 1)| + if n - 1 in rows then 1 else 0
  {
    var less, more := BelowIn(rows, n - 1), BelowIn(rows, n);
    if n - 1 in rows {
      assert more == less + {n - 1};
    } else {
      assert more == less;
    }
  }

  lemma {:induction false} ConstantScores(scores: seq<real>, rows: set<int>, n: nat, c: real)
    requires n <= |scores| && forall r | r in rows && 0 <= r < n :: scores[r] == c
    ensures SetScores(scores, rows, n) == Copies(c, |BelowIn(rows, n)|)
  {
    hide BelowIn, Copies;
    CopiesStep(c, 0);
    if n == 0 {
      NoneBelow(rows);
    } else {
      ConstantScores(scores, rows, n - 1, c);
      BelowStep(rows, n);
      CopiesStep(c, |BelowIn(rows, n - 1)|);
    }
  }

  lemma CopiesStep(c: real, m: nat)
    ensures Copies(c, m + 1) == Copies(c, m) + multiset{c} && Copies(c, 0) == multiset{}
  {
  }

  lemma NoneBelow(rows: set<int>)
    ensures |BelowIn(rows, 0)| == 0
  {
    assert BelowIn(rows, 0) == {};
  }

  lemma LastElement(rows: seq<int>)
    requires Distinct(rows) && rows != []
    ensures var m := |rows| - 1;
            Elements(rows) == Elements(rows[..m]) + {rows[m]} && Elements(rows[..m]) !! {rows[m]}
  {
    var m := |rows| - 1;
    assert rows == rows[..m] + [rows[m]];
    assert forall i | 0 <= i < m :: rows[..m][i] == rows[i] && rows[i] != rows[m];
  }

  lemma {:induction false} HitScores(scores: seq<real>, n: nat, hits: seq<Hit>)
    requires Genuine(scores, n, hits)
    ensures ScoresOf(hits) == SetScores(scores, Elements(Indices(hits)), n)
  {
    hide SetScores, Elements;
    var rows := Indices(hits);
    if hits == [] {
      NoElements(rows);
      NoScores(scores, n);
    } else {
      var m := |hits| - 1;
      GenuinePrefix(scores, n, hits, m);
      HitScores(scores, n, hits[..m]);
      assert Indices(hits[..m]) == rows[..m];
      LastElement(rows);
      SetScoresUnion(scores, Elements(rows[..m]), {rows[m]}, n);
      SingleScore(scores, rows[m], n);
    }
  }

  lemma NoElements(rows: seq<int>)
    requires rows == []
    ensures Elements(rows) == {}
  {
  }

  lemma {:induction false} NoScores(scores: seq<real>, n: nat)
    requires n <= |scores|
    ensures SetScores(scores, {}, n) == multiset{}
  {
    if n > 0 {
      NoScores(scores, n - 1);
    }
  }

  /** Any two answers to a top-k question have the same scores, ties and all. */
  lemma TopKScoresUnique(desc: bool, scores: seq<real>, n: nat, k: nat, x: seq<Hit>, y: seq<Hit>)
    requires TopK(desc, scores, n, k, x) && TopK(desc, scores, n, k, y)
    ensures ScoresOf(x) == ScoresOf(y)
  {
    hide Genuine, Better, IsHit, SetScores, ScoresOf, TopK;
    var a, b := Elements(Indices(x)), Elements(Indices(y));
    TopKGenuine(desc, scores, n, k, x);
    TopKGenuine(desc, scores, n, k, y);
    HitScores(scores, n, x);
    HitScores(scores, n, y);
    DistinctCount(desc, scores, n, k, x);
    DistinctCount(desc, scores, n, k, y);
    if (forall i | 0 <= i < |x| :: x[i].index in b) || (forall j | 0 <= j < |y| :: y[j].index in a) {
      SameRows(x, y, k);
    } else {
      var i :| 0 <= i < |x| && x[i].index !in b;
      var j :| 0 <= j < |y| && y[j].index !in a;
      forall p, q | p in a && p !in b && q in b && q !in a
        ensures scores[p] == scores[q]
      {
        Swapped(desc, scores, n, k, x, y, p, q);
        Swapped(desc, scores, n, k, y, x, q, p);
        BetterBothWays(desc, scores[p], scores[q]);
      }
      assert Indices(x)[i] == x[i].index && Indices(y)[j] == y[j].index;
      FewerScores(scores, n, a, b, x[i].index, y[j].index);
    }
  }

  lemma SameRows(x: seq<Hit>, y: seq<Hit>, k: nat)
    requires var a, b := Elements(Indices(x)), Elements(Indices(y));
             |a| == k == |b| &&
             ((forall i | 0 <= i < |x| :: x[i].index in b) || (forall j | 0 <= j < |y| :: y[j].index in a))
    ensures Elements(Indices(x)) == Elements(Indices(y))
  {
    var a, b := Elements(Indices(x)), Elements(Indices(y));
    if forall i | 0 <= i < |x| :: x[i].index in b {
      SubsetOfSameSize(a, b);
    } else {
      SubsetOfSameSize(b, a);
    }
  }

  lemma FewerScores(scores: seq<real>, n: nat, a: set<int>, b: set<int>, r: int, s: int)
    requires n <= |scores| && |a| == |b| && (forall x | x in a :: 0 <= x < n) && (forall x | x in b :: 0 <= x < n)
    requires r in a && r !in b && s in b && s !in a
    requires forall p, q | p in a && p !in b && q in b && q !in a :: scores[p] == scores[q]
    ensures SetScores(scores, a, n) == SetScores(scores, b, n)
  {
    hide SetScores, BelowIn;
    var both, onlyA, onlyB := a * b, a - b, b - a;
    assert a == both + onlyA && b == both + onlyB;
    assert |a| == |both| + |onlyA| && |b| == |both| + |onlyB|;
    SetScoresUnion(scores, both, onlyA, n);
    SetScoresUnion(scores, both, onlyB, n);
    AllBelow(onlyA, n);
    AllBelow(onlyB, n);
    ConstantScores(scores, onlyA, n, scores[s]);
    forall q | q in onlyB
      ensures scores[q] == scores[s]
    {
      assert scores[r] == scores[q] && scores[r] == scores[s];
    }
    ConstantScores(scores, onlyB, n, scores[s]);
  }

  lemma AllBelow(rows: set<int>, n: nat)
    requires forall x | x in rows :: 0 <= x < n
    ensures BelowIn(rows, n) == rows
  {
  }

  lemma TopKGenuine(desc: bool, scores: seq<real>, n: nat, k: nat, x: seq<Hit>)
    requires TopK(desc, scores, n, k, x)
    ensures Genuine(scores, n, x) && n <= |scores|
  {
  }

  lemma BetterBothWays(desc: bool, a: real, b: real)
    requires Better(desc, a, b) && Better(desc, b, a)
    ensures a == b
  {
  }

  lemma DistinctCount(desc: bool, scores: seq<real>, n: nat, k: nat, x: seq<Hit>)
    requires TopK(desc, scores, n, k, x)
    ensures |Elements(Indices(x))| == k && forall r | r in Elements(Indices(x)) :: 0 <= r < n
  {
    ElementsSize(Indices(x));
  }

  lemma Swapped(desc: bool, scores: seq<real>, n: nat, k: nat, x: seq<Hit>, y: seq<Hit>, p: int, q: int)
    requires TopK(desc, scores, n, k, x) && TopK(desc, scores, n, k, y)
    requires p in Elements(Indices(x)) && q in Elements(Indices(y)) && q !in Elements(Indices(x))
    ensures 0 <= p < n && 0 <= q < n && Better(desc, scores[p], scores[q])
  {
    var i :| 0 <= i < |x| && Indices(x)[i] == p;
    var j :| 0 <= j < |y| && Indices(y)[j] == q;
    assert y[j].index == q && x[i].index == p;
    assert !IsHit(x, q) by {
      assert forall t | 0 <= t < |x| :: Indices(x)[t] in Elements(Indices(x));
    }
  }

  // ----- the searches -----

  /** The rows that the partition puts first. */
  type Pick = (seq<real>, nat) -> seq<int>

  function HitsAt(xs: seq<real>, rows: seq<int>): (hits: seq<Hit>)
    ensures |hits| == |rows|
  {
    seq(|rows|, i requires 0 <= i < |rows| => Hit(rows[i], if 0 <= rows[i] < |xs| then xs[rows[i]] else 0.0))
  }

  /** Similarity, where more is better, or squared distance, where less is. */
  datatype Metric = Cosine | SquaredDistance

  /** What the partition runs over: it finds smallest values, so similarities are negated. */
  function PartitionOn(metric: Metric, xs: seq<real>): (ys: seq<real>)
    ensures |ys| == |xs|
  {
    if metric.Cosine? then seq(|xs|, i requires 0 <= i < |xs| => -xs[i]) else xs
  }

  /** `k` distinct positions, in any order, with none smaller among the others. */
  ghost predicate Smallest(xs: seq<real>, k: nat, rows: seq<int>) {
    |rows| == k && Distinct(rows) && (forall i | 0 <= i < k :: 0 <= rows[i] < |xs|) &&
    forall i, row | 0 <= i < k && 0 <= row < |xs| && row !in rows :: xs[rows[i]] <= xs[row]
  }

  /** The partition's contract. */
  ghost predicate Partitions(pick: Pick) {
    forall xs: seq<real>, k: nat | k <= |xs| :: Smallest(xs, k, pick(xs, k))
  }

  /** The hits of one query over the rows `lo..lo+rows`. */
  function TileHits(scores: seq<real>, lo: nat, rows: nat, k: nat, metric: Metric, pick: Pick): seq<Hit>
    requires lo + rows <= |scores|
  {
    Picked(scores[lo..lo + rows], k, metric, pick)
  }

  /** The hits of one query over all rows. */
  function Picked(scores: seq<real>, k: nat, metric: Metric, pick: Pick): seq<Hit> {
    HitsAt(scores, pick(PartitionOn(metric, scores), k))
  }

  ghost predicate Matrix(scores: seq<seq<real>>, n: nat) {
    forall q | 0 <= q < |scores| :: |scores[q]| == n
  }

  /** Row `q` of a flat `(Q, k)` result holds the hits of query `q`. */
  ghost predicate Rowed(flat: seq<Hit>, hits: seq<seq<Hit>>, k: nat) {
    |flat| == |hits| * k && (forall q | 0 <= q < |hits| :: |hits[q]| == k) &&
    forall q, j | 0 <= q < |hits| && 0 <= j < k :: 0 <= q * k + j < |flat| && flat[q * k + j] == hits[q][j]
  }

  lemma RowedAppend(flat: seq<Hit>, hits: seq<seq<Hit>>, k: nat, row: seq<Hit>)
    requires Rowed(flat, hits, k) && |row| == k
    ensures Rowed(flat + row, hits + [row], k)
  {
    var m := |hits|;
    Distributes(m, 1, k);
    forall q, j | 0 <= q < m + 1 && 0 <= j < k
      ensures 0 <= q * k + j < (m + 1) * k && (flat + row)[q * k + j] == (hits + [row])[q][j]
    {
      RowBound(q, j, k, m + 1);
      if q < m {
        RowBound(q, j, k, m);
      }
    }
  }

  /** The flat result and, row by row, the hits it holds: `vector_search_topk_rerank` without a weight, over a slice of the corpus. */
  method Search(scores: seq<seq<real>>, lo: nat, rows: nat, n: nat, k: nat, metric: Metric, pick: Pick)
    returns (flat: seq<Hit>, hits: seq<seq<Hit>>)
    requires Matrix(scores, n) && lo + rows <= n && k <= rows && Partitions(pick)
    ensures Rowed(flat, hits, k) && |hits| == |scores|
    ensures forall q | 0 <= q < |scores| :: hits[q] == TileHits(scores[q], lo, rows, k, metric, pick)
    ensures forall q | 0 <= q < |scores| :: TopK(metric.Cosine?, scores[q][lo..lo + rows], rows, k, hits[q])
  {
    hide TopK, Rowed, Partitions, TileHits;
    flat, hits := [], [];
    NoRowsYet(k);
    for q := 0 to |scores|
      invariant Rowed(flat, hits, k) && |hits| == q
      invariant forall p | 0 <= p < q :: hits[p] == TileHits(scores[p], lo, rows, k, metric, pick)
      invariant forall p | 0 <= p < q :: TopK(metric.Cosine?, scores[p][lo..lo + rows], rows, k, hits[p])
    {
      var row := TileHits(scores[q], lo, rows, k, metric, pick);
      Partitioned(metric, pick, scores[q][lo..lo + rows], k);
      TileIsPicked(scores[q], lo, rows, k, metric, pick);
      RowedAppend(flat, hits, k, row);
      flat := flat + row;
      hits := hits + [row];
    }
  }

  lemma NoRowsYet(k: nat)
    ensures Rowed([], [], k)
  {
  }

  lemma TileIsPicked(scores: seq<real>, lo: nat, rows: nat, k: nat, metric: Metric, pick: Pick)
    requires lo + rows <= |scores|
    ensures TileHits(scores, lo, rows, k, metric, pick) == Picked(scores[lo..lo + rows], k, metric, pick)
  {
  }

  /** Smallest of what the partition runs over are best. */
  lemma Partitioned(metric: Metric, pick: Pick, xs: seq<real>, k: nat)
    requires Partitions(pick) && k <= |xs|
    ensures TopK(metric.Cosine?, xs, |xs|, k, Picked(xs, k, metric, pick)) && |Picked(xs, k, metric, pick)| == k
  {
    var ys := PartitionOn(metric, xs);
    var rows := pick(ys, k);
    assert Smallest(ys, k, rows);
    var hits := Picked(xs, k, metric, pick);
    assert Indices(hits) == rows;
    forall i, row | 0 <= i < |hits| && 0 <= row < |xs| && !IsHit(hits, row)
      ensures Better(metric.Cosine?, hits[i].score, xs[row])
    {
      assert forall j | 0 <= j < |rows| :: hits[j].index == rows[j] && rows[j] != row;
      assert ys[rows[i]] <= ys[row];
    }
  }

  /** One query's merge of a tile: push, sort, truncate. */
  method MergeTile(desc: bool, flat: seq<Hit>, q: nat, per: nat, offset: nat, kk: nat, best: seq<Hit>,
                   ghost hits: seq<seq<Hit>>, ghost scores: seq<real>, ghost rows: nat)
    returns (out: seq<Hit>)
    requires Rowed(flat, hits, per) && q < |hits| && offset + rows <= |scores| && per == Min(kk, rows)
    requires TopK(desc, scores, offset, Min(kk, offset), best)
    requires TopK(desc, scores[offset..offset + rows], rows, per, hits[q])
    ensures TopK(desc, scores, offset + rows, Min(kk, offset + rows), out) && Sorted(desc, out)
  {
    hide TopK, Sort, Rowed, Sorted;
    var cands := best;
    TopKSize(desc, scores[offset..offset + rows], rows, per, hits[q]);
    ghost var shifted := Shifted(hits[q], offset);
    for j := 0 to per
      invariant cands == best + shifted[..j]
    {
      RowedAt(flat, hits, per, q, j);
      var h := flat[q * per + j];
      cands := cands + [Hit(h.index + offset, h.score)];
      assert shifted[..j + 1] == shifted[..j] + [shifted[j]];
    }
    assert shifted[..per] == shifted;
    MergeTopK(desc, scores, offset, rows, kk, best, hits[q]);
    TopKSize(desc, scores, offset, Min(kk, offset), best);
    var all := Sort(desc, cands);
    out := if |all| <= kk then all else all[..kk];
    SortSorts(desc, cands);
    SortedPrefix(desc, all, |out|);
    assert out == all[..|out|];
    Truncates(all, kk, offset, rows);
  }

  lemma RowedAt(flat: seq<Hit>, hits: seq<seq<Hit>>, k: nat, q: nat, j: nat)
    requires Rowed(flat, hits, k) && q < |hits| && j < k
    ensures |hits[q]| == k && 0 <= q * k + j < |flat| && flat[q * k + j] == hits[q][j]
  {
  }

  lemma SortedPrefix(desc: bool, all: seq<Hit>, cut: nat)
    requires Sorted(desc, all) && cut <= |all|
    ensures Sorted(desc, all[..cut])
  {
  }

  lemma Truncates(all: seq<Hit>, k: nat, offset: nat, rows: nat)
    requires |all| == Min(k, offset) + Min(k, rows)
    ensures (if |all| <= k then all else all[..k]) == all[..Min(k, offset + rows)]
  {
  }

  lemma TopKSize(desc: bool, scores: seq<real>, n: nat, k: nat, hits: seq<Hit>)
    requires TopK(desc, scores, n, k, hits)
    ensures |hits| == k
  {
  }

  // ----- what a search promises -----

  /** Query `q`'s part of the flat result: `k` distinct rows, each with its own score. */
  ghost predicate Holds(flat: seq<Hit>, q: nat, k: nat, n: nat, scores: seq<real>) {
    q * k >= 0 && q * k + k <= |flat| && n == |scores| &&
    (forall j | q * k <= j < q * k + k :: 0 <= flat[j].index < n && flat[j].score == scores[flat[j].index]) &&
    forall i, j | q * k <= i < j < q * k + k :: flat[i].index != flat[j].index
  }

  /** No row left out of it has a higher score, or a lower one. */
  ghost predicate Highest(flat: seq<Hit>, q: nat, k: nat, scores: seq<real>) {
    q * k >= 0 && q * k + k <= |flat| &&
    forall j, row | q * k <= j < q * k + k && 0 <= row < |scores| && LeftOut(flat, q, k, row) :: flat[j].score >= scores[row]
  }

  ghost predicate Lowest(flat: seq<Hit>, q: nat, k: nat, scores: seq<real>) {
    q * k >= 0 && q * k + k <= |flat| &&
    forall j, row | q * k <= j < q * k + k && 0 <= row < |scores| && LeftOut(flat, q, k, row) :: flat[j].score <= scores[row]
  }

  ghost predicate LeftOut(flat: seq<Hit>, q: nat, k: nat, row: int)
    requires q * k >= 0 && q * k + k <= |flat|
  {
    forall j | q * k <= j < q * k + k :: flat[j].index != row
  }

  /** Best first, equal scores by row. */
  ghost predicate Falling(flat: seq<Hit>, q: nat, k: nat) {
    q * k >= 0 && q * k + k <= |flat| &&
    forall i, j | q * k <= i < j < q * k + k ::
      flat[i].score > flat[j].score || (flat[i].score == flat[j].score && flat[i].index < flat[j].index)
  }

  ghost predicate Rising(flat: seq<Hit>, q: nat, k: nat) {
    q * k >= 0 && q * k + k <= |flat| &&
    forall i, j | q * k <= i < j < q * k + k ::
      flat[i].score < flat[j].score || (flat[i].score == flat[j].score && flat[i].index < flat[j].index)
  }

  /** A query's slice of the flat result. */
  lemma FlatSlice(flat: seq<Hit>, hits: seq<seq<Hit>>, k: nat, q: nat)
    requires Rowed(flat, hits, k) && q < |hits|
    ensures 0 <= q * k && q * k + k <= |flat| && |hits[q]| == k
    ensures forall j | q * k <= j < q * k + k :: flat[j] == hits[q][j - q * k]
  {
    MulNonNegative(q, k);
    MulMono(q + 1, |hits|, k);
    Distributes(q, 1, k);
    forall j | q * k <= j < q * k + k
      ensures flat[j] == hits[q][j - q * k]
    {
      RowedAt(flat, hits, k, q, j - q * k);
    }
  }

  /** The top-k of a query, read off the flat result. */
  lemma FlatTopK(flat: seq<Hit>, hits: seq<seq<Hit>>, k: nat, q: nat, desc: bool, scores: seq<real>, n: nat)
    requires Rowed(flat, hits, k) && q < |hits| && TopK(desc, scores, n, k, hits[q]) && |scores| == n
    ensures Holds(flat, q, k, n, scores) && if desc then Highest(flat, q, k, scores) else Lowest(flat, q, k, scores)
  {
    hide Rowed, Better, IsHit, LeftOut;
    FlatSlice(flat, hits, k, q);
    var base, own := q * k, hits[q];
    forall i, j | base <= i < j < base + k
      ensures flat[i].index != flat[j].index
    {
      assert Indices(own)[i - base] != Indices(own)[j - base];
    }
    forall j, row | base <= j < base + k && 0 <= row < |scores| && LeftOut(flat, q, k, row)
      ensures if desc then flat[j].score >= scores[row] else flat[j].score <= scores[row]
    {
      NotAmongHits(flat, own, q, k, row);
      BetterMeans(desc, own[j - base].score, scores[row]);
    }
  }

  lemma NotAmongHits(flat: seq<Hit>, own: seq<Hit>, q: nat, k: nat, row: int)
    requires q * k >= 0 && q * k + k <= |flat| && |own| == k && LeftOut(flat, q, k, row)
    requires forall j | q * k <= j < q * k + k :: flat[j] == own[j - q * k]
    ensures !IsHit(own, row)
  {
    assert forall t | 0 <= t < |own| :: own[t] == flat[q * k + t] && flat[q * k + t].index != row;
  }

  lemma BetterMeans(desc: bool, a: real, b: real)
    ensures Better(desc, a, b) <==> if desc then a >= b else a <= b
  {
  }

  lemma FlatSorted(flat: seq<Hit>, hits: seq<seq<Hit>>, k: nat, q: nat, desc: bool, scores: seq<real>, n: nat)
    requires Rowed(flat, hits, k) && q < |hits| && Genuine(scores, n, hits[q]) && Sorted(desc, hits[q])
    ensures if desc then Falling(flat, q, k) else Rising(flat, q, k)
  {
    hide Rowed;
    FlatSlice(flat, hits, k, q);
    var base, own := q * k, hits[q];
    forall i, j | base <= i < j < base + k
      ensures Before(desc, flat[i], flat[j]) && flat[i].index != flat[j].index
    {
      assert Before(desc, own[i - base], own[j - base]);
      assert Indices(own)[i - base] != Indices(own)[j - base];
    }
  }

  /** `vector_search_topk_tiled` without a weight: it ends for every tile size; every query gets `k` rows,
      each with its own score, the highest similarities or the lowest squared distances there are, and
      over several tiles best first; and the scores are those of the untiled search. */
  method SearchTiled(scores: seq<seq<real>>, n: nat, k: nat, tileRows: nat, metric: Metric, pick: Pick)
    returns (flat: seq<Hit>, ghost hits: seq<seq<Hit>>)
    requires Matrix(scores, n) && 1 <= k <= n && tileRows >= 1 && Partitions(pick)
    ensures |flat| == |scores| * k && Rowed(flat, hits, k) && |hits| == |scores|
    ensures forall q | 0 <= q < |scores| :: Holds(flat, q, k, n, scores[q])
    ensures metric.Cosine? ==> forall q | 0 <= q < |scores| :: Highest(flat, q, k, scores[q])
    ensures metric.SquaredDistance? ==> forall q | 0 <= q < |scores| :: Lowest(flat, q, k, scores[q])
    ensures metric.Cosine? && tileRows < n ==> forall q | 0 <= q < |scores| :: Falling(flat, q, k)
    ensures metric.SquaredDistance? && tileRows < n ==> forall q | 0 <= q < |scores| :: Rising(flat, q, k)
    ensures forall q | 0 <= q < |scores| :: ScoresOf(hits[q]) == ScoresOf(Picked(scores[q], k, metric, pick))
  {
    hide TopK, Rowed, Partitions, Picked, ScoresOf, Holds, Highest, Lowest, Falling, Rising, Sorted, TileHits;
    ghost var desc := metric.Cosine?;
    if tileRows >= n {
      flat, hits := Search(scores, 0, n, n, k, metric, pick);
      RowedSize(flat, hits, k);
      forall q | 0 <= q < |scores|
        ensures Holds(flat, q, k, n, scores[q]) && if desc then Highest(flat, q, k, scores[q]) else Lowest(flat, q, k, scores[q])
        ensures ScoresOf(hits[q]) == ScoresOf(Picked(scores[q], k, metric, pick))
      {
        assert scores[q][0..n] == scores[q];
        TileIsPicked(scores[q], 0, n, k, metric, pick);
        FlatTopK(flat, hits, k, q, desc, scores[q], n);
      }
      return;
    }
    var best := MergeTiles(scores, n, k, tileRows, metric, pick);
    hits := best;
    flat := Flattened(best, k, desc, scores, n);
    RowedSize(flat, hits, k);
    forall q | 0 <= q < |scores|
      ensures Holds(flat, q, k, n, scores[q]) && if desc then Highest(flat, q, k, scores[q]) else Lowest(flat, q, k, scores[q])
      ensures if desc then Falling(flat, q, k) else Rising(flat, q, k)
      ensures ScoresOf(hits[q]) == ScoresOf(Picked(scores[q], k, metric, pick))
    {
      FlatTopK(flat, hits, k, q, desc, scores[q], n);
      TopKGenuine(desc, scores[q], n, k, hits[q]);
      FlatSorted(flat, hits, k, q, desc, scores[q], n);
      Partitioned(metric, pick, scores[q], k);
      TopKScoresUnique(desc, scores[q], n, k, hits[q], Picked(scores[q], k, metric, pick));
    }
  }

  lemma RowedSize(flat: seq<Hit>, hits: seq<seq<Hit>>, k: nat)
    requires Rowed(flat, hits, k)
    ensures |flat| == |hits| * k
  {
  }

  /** The running best of every query after all tiles. */
  method MergeTiles(scores: seq<seq<real>>, n: nat, k: nat, tileRows: nat, metric: Metric, pick: Pick)
    returns (best: seq<seq<Hit>>)
    requires Matrix(scores, n) && 1 <= k <= n && tileRows >= 1 && Partitions(pick)
    ensures |best| == |scores|
    ensures forall q | 0 <= q < |scores| :: TopK(metric.Cosine?, scores[q], n, k, best[q]) && Sorted(metric.Cosine?, best[q])
  {
    hide TopK, Rowed, Partitions, Sorted, TileHits;
    var desc := metric.Cosine?;
    var kk := Min(k, n);
    best := seq(|scores|, q => []);
    var offset := 0;
    NoHitsYet(desc, scores, kk);
    while offset < n
      invariant 0 <= offset <= n && |best| == |scores|
      invariant forall q | 0 <= q < |scores| :: TopK(desc, scores[q], offset, Min(kk, offset), best[q]) && Sorted(desc, best[q])
      decreases n - offset
    {
      var rows := Min(n - offset, tileRows);
      var per := Min(kk, rows);
      var tile, found := Search(scores, offset, rows, n, per, metric, pick);
      for q := 0 to |scores|
        invariant |best| == |scores|
        invariant forall p | 0 <= p < q :: TopK(desc, scores[p], offset + rows, Min(kk, offset + rows), best[p]) && Sorted(desc, best[p])
        invariant forall p | q <= p < |scores| :: TopK(desc, scores[p], offset, Min(kk, offset), best[p])
      {
        var merged := MergeTile(desc, tile, q, per, offset, kk, best[q], found, scores[q], rows);
        best := best[q := merged];
      }
      offset := offset + rows;
    }
  }

  lemma NoHitsYet(desc: bool, scores: seq<seq<real>>, k: nat)
    ensures Sorted(desc, [])
    ensures forall q | 0 <= q < |scores| :: TopK(desc, scores[q], 0, Min(k, 0), [])
  {
    assert Indices([]) == [];
  }

  method Flattened(best: seq<seq<Hit>>, k: nat, ghost desc: bool, ghost scores: seq<seq<real>>, ghost n: nat)
    returns (flat: seq<Hit>)
    requires |scores| == |best| && forall q | 0 <= q < |best| :: TopK(desc, scores[q], n, k, best[q])
    ensures Rowed(flat, best, k)
  {
    hide TopK, Rowed;
    flat := [];
    NoRowsYet(k);
    for q := 0 to |best|
      invariant Rowed(flat, best[..q], k)
    {
      assert best[..q + 1] == best[..q] + [best[q]];
      TopKSize(desc, scores[q], n, k, best[q]);
      RowedAppend(flat, best[..q], k, best[q]);
      flat := flat + best[q];
    }
    assert best[..|best|] == best;
  }

  // ----- scores of vectors -----

  function Dot(a: seq<real>, b: seq<real>, d: nat): real
    requires d <= |a| && d <= |b|
  {
    if d == 0 then 0.0 else Dot(a, b, d - 1) + Times(a[d - 1], b[d - 1])
  }

  function Times(a: real, b: real): real {
    a * b
  }

  /** `l2_normalize_rows` of one row; a row of zeros stays as it is here. */
  function Normalized(a: seq<real>, root: real -> real): (out: seq<real>)
    ensures |out| == |a|
  {
    var norm := root(Dot(a, a, |a|));
    if norm == 0.0 then a else seq(|a|, i requires 0 <= i < |a| => a[i] / norm)
  }

  /** The metric as it is computed: a product of normalised rows, or the square of a difference, expanded. */
  function Score(metric: Metric, root: real -> real, q: seq<real>, c: seq<real>, d: nat): real
    requires |q| == d == |c|
  {
    if metric.Cosine? then Dot(Normalized(q, root), Normalized(c, root), d)
    else
      var cross := Dot(q, c, d);
      Dot(q, q, d) + Dot(c, c, d) - (cross + cross)
  }

  function DistanceSquared(q: seq<real>, c: seq<real>, d: nat): real
    requires d <= |q| && d <= |c|
  {
    if d == 0 then 0.0 else DistanceSquared(q, c, d - 1) + (q[d - 1] - c[d - 1]) * (q[d - 1] - c[d - 1])
  }

  lemma SquareOfDifference(a: real, b: real)
    ensures (a - b) * (a - b) == a * a + b * b - (a * b + a * b)
  {
  }

  /** The expansion is the squared distance. */
  lemma {:induction false} ExpansionIsDistance(q: seq<real>, c: seq<real>, d: nat)
    requires d <= |q| && d <= |c|
    ensures Dot(q, q, d) + Dot(c, c, d) - (Dot(q, c, d) + Dot(q, c, d)) == DistanceSquared(q, c, d)
  {
    if d > 0 {
      ExpansionIsDistance(q, c, d - 1);
      SquareOfDifference(q[d - 1], c[d - 1]);
    }
  }

  lemma QuotientProduct(a: real, b: real, m: real, n: real)
    requires m != 0.0 && n != 0.0
    ensures ((a / m) * (b / n)) * (m * n) == a * b
  {
    var x, y := a / m, b / n;
    assert x * m == a && y * n == b;
    Grouped(x, y, m);
    Grouped(y, a, n);
    ThreeProducts(x * y, m, n);
  }

  lemma Grouped(x: real, y: real, m: real)
    ensures (x * y) * m == (x * m) * y && x * y == y * x
  {
  }

  lemma ThreeProducts(a: real, m: real, n: real)
    ensures a * (m * n) == (a * m) * n
  {
  }

  lemma TimesLaws(s: real, t: real, f: real)
    ensures Times(s + t, f) == Times(s, f) + Times(t, f) && Times(0.0, f) == 0.0
  {
  }

  lemma TimesQuotients(a: real, b: real, x: real, y: real, m: real, n: real)
    requires m != 0.0 && n != 0.0 && x == a / m && y == b / n
    ensures Times(Times(x, y), m * n) == Times(a, b)
  {
    QuotientProduct(a, b, m, n);
  }

  lemma {:induction false} DotOfQuotients(q: seq<real>, c: seq<real>, x: seq<real>, y: seq<real>, m: real, n: real, f: real, d: nat)
    requires d <= |q| == |x| && d <= |c| == |y| && m != 0.0 && n != 0.0 && f == m * n
    requires (forall i | 0 <= i < |q| :: x[i] == q[i] / m) && forall i | 0 <= i < |c| :: y[i] == c[i] / n
    ensures Times(Dot(x, y, d), f) == Dot(q, c, d)
  {
    hide Times;
    if d == 0 {
      TimesLaws(0.0, 0.0, f);
    } else {
      DotOfQuotients(q, c, x, y, m, n, f, d - 1);
      TimesQuotients(q[d - 1], c[d - 1], x[d - 1], y[d - 1], m, n);
      TimesLaws(Dot(x, y, d - 1), Times(x[d - 1], y[d - 1]), f);
    }
  }

  /** The similarity times the norms is the scalar product. */
  lemma SimilarityIsCosine(root: real -> real, q: seq<real>, c: seq<real>, d: nat)
    requires |q| == d == |c| && root(Dot(q, q, d)) != 0.0 && root(Dot(c, c, d)) != 0.0
    ensures Score(Cosine, root, q, c, d) * (root(Dot(q, q, d)) * root(Dot(c, c, d))) == Dot(q, c, d)
  {
    hide Dot;
    var m, n := root(Dot(q, q, d)), root(Dot(c, c, d));
    DotOfQuotients(q, c, Normalized(q, root), Normalized(c, root), m, n, m * n, d);
  }

  const OP_COSINE: nat := 0
  const OP_KNN_L2: nat := 1

  /** The metric an operation code asks for. */
  function MetricOf(op: nat): Option<Metric> {
    if op == OP_COSINE then Some(Cosine) else if op == OP_KNN_L2 then Some(SquaredDistance) else None
  }

  function Scores(metric: Metric, root: real -> real, queries: seq<seq<real>>, corpus: seq<seq<real>>, d: nat): (scores: seq<seq<real>>)
    requires Matrix(queries, d) && Matrix(corpus, d)
    ensures Matrix(scores, |corpus|) && |scores| == |queries|
    ensures forall q, r | 0 <= q < |queries| && 0 <= r < |corpus| :: scores[q][r] == Score(metric, root, queries[q], corpus[r], d)
  {
    seq(|queries|, q requires 0 <= q < |queries| =>
      seq(|corpus|, r requires 0 <= r < |corpus| => Score(metric, root, queries[q], corpus[r], d)))
  }

  /** The search by operation code: zero finds the highest similarities and one the lowest distances; any
      other code is refused. */
  method VectorSearch(op: nat, root: real -> real, queries: seq<seq<real>>, corpus: seq<seq<real>>, d: nat, k: nat, tileRows: nat,
                      pick: Pick) returns (flat: Option<seq<Hit>>)
    requires Matrix(queries, d) && Matrix(corpus, d) && 1 <= k <= |corpus| && tileRows >= 1 && Partitions(pick)
    ensures flat.Some? <==> op == 0 || op == 1
    ensures op == 0 ==> forall q | 0 <= q < |queries| ::
      var own := seq(|corpus|, r requires 0 <= r < |corpus| => Score(Cosine, root, queries[q], corpus[r], d));
      Holds(flat.value, q, k, |corpus|, own) && Highest(flat.value, q, k, own)
    ensures op == 1 ==> forall q | 0 <= q < |queries| ::
      var own := seq(|corpus|, r requires 0 <= r < |corpus| => DistanceSquared(queries[q], corpus[r], d));
      Holds(flat.value, q, k, |corpus|, own) && Lowest(flat.value, q, k, own)
  {
    hide Partitions, Score, Holds, Highest, Lowest, Rowed, Dot, DistanceSquared;
    if MetricOf(op).None? {
      return None;
    }
    var metric := MetricOf(op).value;
    var scores := Scores(metric, root, queries, corpus, d);
    var found, _ := SearchTiled(scores, |corpus|, k, tileRows, metric, pick);
    forall q | 0 <= q < |queries|
      ensures op == 0 ==>
        var own := seq(|corpus|, r requires 0 <= r < |corpus| => Score(Cosine, root, queries[q], corpus[r], d));
        Holds(found, q, k, |corpus|, own) && Highest(found, q, k, own)
      ensures op == 1 ==>
        var own := seq(|corpus|, r requires 0 <= r < |corpus| => DistanceSquared(queries[q], corpus[r], d));
        Holds(found, q, k, |corpus|, own) && Lowest(found, q, k, own)
    {
      ScoresOfQuery(metric, root, queries, corpus, d, q);
      assert Holds(found, q, k, |corpus|, scores[q]);
    }
    return Some(found);
  }

  lemma ScoresOfQuery(metric: Metric, root: real -> real, queries: seq<seq<real>>, corpus: seq<seq<real>>, d: nat, q: nat)
    requires Matrix(queries, d) && Matrix(corpus, d) && q < |queries|
    ensures var own := Scores(metric, root, queries, corpus, d)[q];
            (metric.Cosine? ==> own == seq(|corpus|, r requires 0 <= r < |corpus| => Score(Cosine, root, queries[q], corpus[r], d))) &&
            (metric.SquaredDistance? ==>
              own == seq(|corpus|, r requires 0 <= r < |corpus| => DistanceSquared(queries[q], corpus[r], d)))
  {
    hide Score, DistanceSquared;
    var own := Scores(metric, root, queries, corpus, d)[q];
    if metric.SquaredDistance? {
      forall r | 0 <= r < |corpus|
        ensures own[r] == DistanceSquared(queries[q], corpus[r], d)
      {
        ScoreIsDistance(root, queries[q], corpus[r], d);
      }
      assert own == seq(|corpus|, r requires 0 <= r < |corpus| => DistanceSquared(queries[q], corpus[r], d));
    } else {
      assert own == seq(|corpus|, r requires 0 <= r < |corpus| => Score(Cosine, root, queries[q], corpus[r], d));
    }
  }

  lemma ScoreIsDistance(root: real -> real, q: seq<real>, c: seq<real>, d: nat)
    requires |q| == d == |c|
    ensures Score(SquaredDistance, root, q, c, d) == DistanceSquared(q, c, d)
  {
    ExpansionIsDistance(q, c, d);
  }
}

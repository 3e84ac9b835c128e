/** Dense-key detection: scattering marks into `seen` recognises the permutations of
    `0..n-1`, and scattering values by such a key inverts it. */
module DenseKey {
  import opened Options

  predicate InBounds(key: seq<int>, n: int) {
    forall i | 0 <= i < |key| :: 0 <= key[i] < n
  }

  predicate Distinct(key: seq<int>) {
    forall i, j | 0 <= i < j < |key| :: key[i] != key[j]
  }

  predicate Covers(key: seq<int>, n: int) {
    forall k | 0 <= k < n :: k in key
  }

  /** A permutation of `0..n-1`, for some positive `n`. */
  predicate Dense(key: seq<int>, n: int) {
    0 < n == |key| && InBounds(key, n) && Distinct(key)
  }

  // ----- the pigeonhole principle -----

  function Elements(s: seq<int>): set<int> {
    set x | x in s
  }

  function Below(n: nat): (r: set<int>)
    ensures |r| == n && forall k :: k in r <==> 0 <= k < n
  {
    if n == 0 then {} else Below(n - 1) + {n - 1}
  }

  lemma {:induction false} ElementsSize(s: seq<int>)
    ensures |Elements(s)| <= |s| && (|Elements(s)| == |s| <==> Distinct(s))
  {
    if s != [] {
      var m := |s| - 1;
      var t := s[..m];
      ElementsSize(t);
      assert s == t + [s[m]];
      assert Elements(s) == Elements(t) + {s[m]};
      if s[m] in t {
        var i :| 0 <= i < m && t[i] == s[m];
        assert !Distinct(s);
      } else {
        assert forall i | 0 <= i < m :: s[i] == t[i] && t[i] in t;
        assert Distinct(s) <==> Distinct(t);
      }
    }
  }

  lemma SubsetOfSameSize(a: set<int>, b: set<int>)
    requires a <= b && |a| == |b|
    ensures a == b
  {
    assert b == a + (b - a);
    assert |b| == |a| + |b - a|;
  }

  /** `n` keys below `n` are distinct exactly when they leave no gap. */
  lemma Pigeonhole(key: seq<int>, n: int)
    requires |key| == n && InBounds(key, n)
    ensures Distinct(key) <==> Covers(key, n)
  {
    var keys, below := Elements(key), Below(n);
    ElementsSize(key);
    assert keys <= below;
    if Distinct(key) {
      SubsetOfSameSize(keys, below);
      forall k | 0 <= k < n
        ensures k in key
      {
        assert k in below;
      }
    }
    if Covers(key, n) {
      assert forall k | k in below :: k in key && k in keys;
      assert keys == below;
    }
  }

  // ----- the methods -----

  method Extremes(key: seq<int>) returns (lo: int, hi: int)
    requires key != []
    ensures lo in key && hi in key && forall i | 0 <= i < |key| :: lo <= key[i] <= hi
  {
    lo, hi := key[0], key[0];
    for i := 1 to |key|
      invariant lo in key && hi in key && forall j | 0 <= j < i :: lo <= key[j] <= hi
    {
      lo := if key[i] < lo then key[i] else lo;
      hi := if key[i] > hi then key[i] else hi;
    }
  }

  /** `seen[key] = True`, then `seen.all()`. */
  method AllSeen(key: seq<int>, n: nat) returns (all: bool)
    requires InBounds(key, n)
    ensures all <==> Covers(key, n)
  {
    var seen := new bool[n](i => false);
    for i := 0 to |key|
      invariant forall k | 0 <= k < n :: seen[k] <==> k in key[..i]
    {
      seen[key[i]] := true;
      assert key[..i + 1] == key[..i] + [key[i]];
    }
    assert key[..|key|] == key;
    for k := 0 to n
      invariant forall j | 0 <= j < k :: j in key
    {
      if !seen[k] {
        return false;
      }
    }
    return true;
  }

  /** `is_dense_key` accepts exactly the permutations of `0..n-1`. */
  method IsDenseKey(key: seq<int>, n: int) returns (dense: bool)
    ensures dense <==> Dense(key, n)
  {
    if n <= 0 || |key| != n {
      return false;
    }
    var lo, hi := Extremes(key);
    if Dense(key, n) {
      DenseExtremes(key, n, lo, hi);
    }
    if lo != 0 || hi != n - 1 {
      return false;
    }
    dense := AllSeen(key, n);
    Pigeonhole(key, n);
  }

  lemma DenseExtremes(key: seq<int>, n: int, lo: int, hi: int)
    requires Dense(key, n) && lo in key && hi in key && forall i | 0 <= i < |key| :: lo <= key[i] <= hi
    ensures lo == 0 && hi == n - 1
  {
    Pigeonhole(key, n);
    assert 0 in key && n - 1 in key;
  }

  /** `reorder_by_key`: the value at position `k` is the one whose key is `k`. */
  method ReorderByKey<T(0)>(key: seq<int>, value: seq<T>, n: int) returns (out: seq<T>)
    requires Dense(key, n) && |value| == n
    ensures |out| == n && forall i | 0 <= i < n :: out[key[i]] == value[i]
  {
    var slots := new T[n];
    for i := 0 to n
      invariant forall j | 0 <= j < i :: slots[key[j]] == value[j]
    {
      slots[key[i]] := value[i];
    }
    out := slots[..];
  }

  /** `dense_positions`: both at once. */
  method DensePositions<T(0)>(key: seq<int>, value: seq<T>, n: int) returns (r: Option<seq<T>>)
    ensures r.Some? <==> Dense(key, n) && |value| == n
    ensures r.Some? ==> |r.value| == n && forall i | 0 <= i < n :: r.value[key[i]] == value[i]
  {
    var dense := IsDenseKey(key, n);
    if !dense || |value| != n {
      return None;
    }
    var out := ReorderByKey(key, value, n);
    return Some(out);
  }
}

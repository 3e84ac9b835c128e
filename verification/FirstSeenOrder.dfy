/** Numbering the distinct values of a sequence in the order in which they first appear:
    the dictionary builders and the group build. */
module FirstSeenOrder {
  import opened Options

  const U32_MAX: nat := 0xFFFF_FFFF

  /** The positions at which a value appears for the first time. */
  function FirstRows<T(==)>(xs: seq<T>): (rows: seq<nat>)
    ensures forall g | 0 <= g < |rows| :: rows[g] < |xs|
  {
    if xs == [] then []
    else
      var m := |xs| - 1;
      FirstRows(xs[..m]) + (if xs[m] in xs[..m] then [] else [m])
  }

  /** Each listed row is the first with its value. */
  lemma {:induction false} FirstRowsAreFirst<T>(xs: seq<T>, g: nat)
    requires g < |FirstRows(xs)|
    ensures xs[FirstRows(xs)[g]] !in xs[..FirstRows(xs)[g]]
  {
    var m := |xs| - 1;
    var before := FirstRows(xs[..m]);
    if g < |before| {
      FirstRowsAreFirst(xs[..m], g);
      assert xs[..m][..before[g]] == xs[..before[g]];
    }
  }

  lemma {:induction false} FirstRowsAscend<T>(xs: seq<T>, g: nat, h: nat)
    requires g < h < |FirstRows(xs)|
    ensures FirstRows(xs)[g] < FirstRows(xs)[h]
  {
    var m := |xs| - 1;
    if h < |FirstRows(xs[..m])| {
      FirstRowsAscend(xs[..m], g, h);
    }
  }

  /** Every value is listed. */
  lemma {:induction false} FirstRowsCover<T>(xs: seq<T>, i: nat) returns (g: nat)
    requires i < |xs|
    ensures g < |FirstRows(xs)| && xs[FirstRows(xs)[g]] == xs[i]
  {
    var m := |xs| - 1;
    if i == m && xs[m] !in xs[..m] {
      g := |FirstRows(xs[..m])|;
    } else {
      var j :| 0 <= j < m && xs[..m][j] == xs[i];
      g := FirstRowsCover(xs[..m], j);
    }
  }

  /** Two listed rows carry different values. */
  lemma FirstRowsDistinct<T>(xs: seq<T>, g: nat, h: nat)
    requires g < h < |FirstRows(xs)|
    ensures xs[FirstRows(xs)[g]] != xs[FirstRows(xs)[h]]
  {
    FirstRowsAreFirst(xs, h);
    FirstRowsAscend(xs, g, h);
    var a, b := FirstRows(xs)[g], FirstRows(xs)[h];
    assert xs[..b][a] == xs[a];
  }

  lemma FirstRowsAppend<T>(xs: seq<T>, x: T)
    ensures FirstRows(xs + [x]) == FirstRows(xs) + (if x in xs then [] else [|xs|])
  {
    assert (xs + [x])[..|xs|] == xs;
  }

  // ----- groups -----

  /** Group `gs[i]` of row `i` is the one whose first row carries the row's value. */
  ghost predicate Grouped<T(!new)>(xs: seq<T>, gs: seq<nat>, firsts: seq<nat>) {
    |gs| == |xs| && (forall g | 0 <= g < |firsts| :: firsts[g] < |xs|) &&
    forall i | 0 <= i < |xs| :: gs[i] < |firsts| && xs[firsts[gs[i]]] == xs[i]
  }

  /** `index` numbers the values seen so far, each by the position of its first row in the list. */
  ghost predicate Numbers<T(!new)>(xs: seq<T>, firsts: seq<nat>, index: map<T, nat>) {
    (forall g | 0 <= g < |firsts| :: firsts[g] < |xs|) && (forall x :: x in index <==> x in xs) &&
    forall x | x in index :: index[x] < |firsts| && xs[firsts[index[x]]] == x
  }

  lemma NumbersGrow<T(!new)>(xs: seq<T>, x: T, firsts: seq<nat>, index: map<T, nat>)
    requires Numbers(xs, firsts, index)
    ensures x in index <==> x in xs
    ensures x in index ==> Numbers(xs + [x], firsts, index)
    ensures x !in index ==> Numbers(xs + [x], firsts + [|xs|], index[x := |firsts|])
  {
    var ys := xs + [x];
    assert forall y :: y in ys <==> y in xs || y == x;
    assert forall i | 0 <= i < |xs| :: ys[i] == xs[i];
    assert ys[|xs|] == x;
  }

  /** `checked_add(1).unwrap_or(u32::MAX)`. */
  function SaturatingSuccessor(g: nat): nat {
    if g >= U32_MAX then U32_MAX else g + 1
  }

  /** `cpu_hashmap_build`: a hash map from key to group id, group ids counted up with a
      saturating 32-bit counter, rows recorded as 32-bit numbers. */
  method CpuHashmapBuild(keys: seq<nat>) returns (rowToGroup: seq<nat>, nGroups: nat, firstRow: seq<nat>)
    requires |keys| <= U32_MAX
    ensures firstRow == FirstRows(keys) && nGroups == |firstRow| && Grouped(keys, rowToGroup, firstRow)
  {
    hide FirstRows, Grouped, Numbers;
    var groupForKey: map<nat, nat> := map[];
    NothingSeen();
    nGroups, rowToGroup, firstRow := 0, [], [];
    for row := 0 to |keys|
      invariant |rowToGroup| == row && nGroups == |firstRow| <= row
      invariant firstRow == FirstRows(keys[..row])
      invariant Numbers(keys[..row], firstRow, groupForKey)
      invariant Grouped(keys[..row], rowToGroup, firstRow)
    {
      var key := keys[row];
      assert keys[..row + 1] == keys[..row] + [key];
      NumbersGrow(keys[..row], key, firstRow, groupForKey);
      FirstRowsAppend(keys[..row], key);
      GroupedGrows(keys[..row], key, rowToGroup, firstRow, groupForKey);
      if key !in groupForKey {
        groupForKey := groupForKey[key := nGroups];
        nGroups := SaturatingSuccessor(nGroups);
        firstRow := firstRow + [row % (U32_MAX + 1)];
      }
      rowToGroup := rowToGroup + [groupForKey[key]];
    }
    assert keys[..|keys|] == keys;
  }

  lemma NothingSeen()
    ensures FirstRows<nat>([]) == [] && Numbers<nat>([], [], map[]) && Grouped<nat>([], [], [])
  {
  }

  lemma GroupedGrows<T(!new)>(xs: seq<T>, x: T, gs: seq<nat>, firsts: seq<nat>, index: map<T, nat>)
    requires Numbers(xs, firsts, index) && Grouped(xs, gs, firsts)
    ensures x in index ==> Grouped(xs + [x], gs + [index[x]], firsts)
    ensures x !in index ==> Grouped(xs + [x], gs + [|firsts|], firsts + [|xs|])
  {
    var ys := xs + [x];
    assert forall i | 0 <= i < |xs| :: ys[i] == xs[i];
    assert ys[|xs|] == x;
  }

  // ----- dictionaries -----

  /** The strings that are there, in order. */
  function Present(strings: seq<Option<string>>): (xs: seq<string>)
  {
    if strings == [] then []
    else
      var m := |strings| - 1;
      Present(strings[..m]) + (if strings[m].Some? then [strings[m].value] else [])
  }

  /** The entries at the listed rows. */
  function Listed(xs: seq<string>, firsts: seq<nat>): (dict: seq<string>)
    requires forall g | 0 <= g < |firsts| :: firsts[g] < |xs|
    ensures |dict| == |firsts|
  {
    seq(|firsts|, g requires 0 <= g < |firsts| => xs[firsts[g]])
  }

  function Dictionary(strings: seq<Option<string>>): seq<string> {
    Listed(Present(strings), FirstRows(Present(strings)))
  }

  /** Codes and flags of a nullable string column over a dictionary of distinct entries. */
  ghost predicate Coded(strings: seq<Option<string>>, dict: seq<string>, codes: seq<nat>, valid: seq<bool>) {
    |codes| == |strings| && |valid| == |strings| && (forall g, h | 0 <= g < h < |dict| :: dict[g] != dict[h]) &&
    forall i | 0 <= i < |strings| ::
      (valid[i] <==> strings[i].Some?) &&
      (if valid[i] then codes[i] < |dict| && dict[codes[i]] == strings[i].value else codes[i] == 0)
  }

  lemma PresentAppend(strings: seq<Option<string>>, s: Option<string>)
    ensures Present(strings + [s]) == Present(strings) + (if s.Some? then [s.value] else [])
  {
    assert (strings + [s])[..|strings|] == strings;
  }

  /** `seen` finds each distinct string's place in the dictionary. */
  ghost predicate Finds(dict: seq<string>, seen: map<string, nat>) {
    (forall x :: x in seen <==> x in dict) && forall x | x in seen :: seen[x] < |dict| && dict[seen[x]] == x
  }

  lemma DictionaryStep(strings: seq<Option<string>>, s: Option<string>)
    ensures var d := Dictionary(strings);
            Dictionary(strings + [s]) == if s.Some? && s.value !in d then d + [s.value] else d
  {
    var xs, d := Present(strings), Dictionary(strings);
    PresentAppend(strings, s);
    if s.Some? {
      FirstRowsAppend(xs, s.value);
      assert s.value in d <==> s.value in xs by {
        if s.value in xs {
          var i :| 0 <= i < |xs| && xs[i] == s.value;
          var g := FirstRowsCover(xs, i);
          assert d[g] == s.value;
        }
      }
      var ys, rows := xs + [s.value], FirstRows(xs);
      assert forall g | 0 <= g < |rows| :: ys[rows[g]] == xs[rows[g]];
      assert Listed(ys, rows) == Listed(xs, rows);
      assert Listed(ys, rows + [|xs|]) == Listed(xs, rows) + [s.value];
      assert s.value in xs ==> rows + [] == rows;
    } else {
      assert xs + [] == xs;
    }
  }

  /** `build_dict_nullable`: the dictionary lists the distinct strings in first-seen order, and
      every code leads back to its string. */
  method BuildDictNullable(strings: seq<Option<string>>) returns (dict: seq<string>, codes: seq<nat>, valid: seq<bool>)
    requires |strings| <= U32_MAX
    ensures dict == Dictionary(strings) && Coded(strings, dict, codes, valid)
  {
    hide Dictionary, Coded, Finds;
    dict, codes, valid := [], [], [];
    var seen: map<string, nat> := map[];
    EmptyDictionary();
    for i := 0 to |strings|
      invariant dict == Dictionary(strings[..i]) && Finds(dict, seen) && |dict| <= i
      invariant Coded(strings[..i], dict, codes, valid)
    {
      var s := strings[i];
      assert strings[..i + 1] == strings[..i] + [s];
      DictionaryStep(strings[..i], s);
      CodedStep(strings[..i], s, dict, codes, valid, seen);
      match s
      case Some(x) =>
        valid := valid + [true];
        if x !in seen {
          var idx := |dict| % (U32_MAX + 1);
          dict := dict + [x];
          seen := seen[x := idx];
        }
        codes := codes + [seen[x]];
      case None =>
        valid := valid + [false];
        codes := codes + [0];
    }
    assert strings[..|strings|] == strings;
  }

  lemma EmptyDictionary()
    ensures Dictionary([]) == [] && Coded([], [], [], []) && Finds([], map[])
  {
  }

  lemma CodedStep(strings: seq<Option<string>>, s: Option<string>, dict: seq<string>, codes: seq<nat>, valid: seq<bool>,
                  seen: map<string, nat>)
    requires Coded(strings, dict, codes, valid) && Finds(dict, seen)
    ensures s.None? ==> Coded(strings + [s], dict, codes + [0], valid + [false])
    ensures s.Some? && s.value in seen ==> Coded(strings + [s], dict, codes + [seen[s.value]], valid + [true])
    ensures s.Some? && s.value !in seen ==>
      Coded(strings + [s], dict + [s.value], codes + [|dict|], valid + [true]) && Finds(dict + [s.value], seen[s.value := |dict|])
    ensures s.Some? ==> (s.value in seen <==> s.value in dict)
  {
    if s.Some? && s.value !in seen {
      var d := dict + [s.value];
      assert forall g | 0 <= g < |dict| :: d[g] == dict[g] && dict[g] in dict;
      assert d[|dict|] == s.value;
    }
  }

  function AllSome(strings: seq<string>): (out: seq<Option<string>>)
    ensures |out| == |strings|
  {
    seq(|strings|, i requires 0 <= i < |strings| => Some(strings[i]))
  }

  /** `build_dict`: the same without nulls; decoding the codes gives the strings back. */
  method BuildDict(strings: seq<string>) returns (dict: seq<string>, codes: seq<nat>)
    requires |strings| <= U32_MAX
    ensures dict == Dictionary(AllSome(strings)) && (forall g, h | 0 <= g < h < |dict| :: dict[g] != dict[h])
    ensures |codes| == |strings| && forall i | 0 <= i < |strings| :: codes[i] < |dict|
    ensures DecodeDict(dict, codes) == strings
  {
    hide Dictionary, Coded, Finds, AllSome, DecodeDict;
    dict, codes := [], [];
    var seen: map<string, nat> := map[];
    ghost var valid: seq<bool> := [];
    EmptyDictionary();
    AllSomeAppend([], "");
    for i := 0 to |strings|
      invariant dict == Dictionary(AllSome(strings[..i])) && Finds(dict, seen) && |dict| <= i
      invariant Coded(AllSome(strings[..i]), dict, codes, valid)
    {
      var s := strings[i];
      assert strings[..i + 1] == strings[..i] + [s];
      AllSomeAppend(strings[..i], s);
      DictionaryStep(AllSome(strings[..i]), Some(s));
      CodedStep(AllSome(strings[..i]), Some(s), dict, codes, valid, seen);
      valid := valid + [true];
      if s !in seen {
        var idx := |dict| % (U32_MAX + 1);
        dict := dict + [s];
        seen := seen[s := idx];
      }
      codes := codes + [seen[s]];
    }
    assert strings[..|strings|] == strings;
    AllCoded(strings, dict, codes, valid);
  }

  lemma AllSomeAppend(strings: seq<string>, s: string)
    ensures AllSome(strings + [s]) == AllSome(strings) + [Some(s)] && AllSome([]) == []
  {
  }

  lemma AllCoded(strings: seq<string>, dict: seq<string>, codes: seq<nat>, valid: seq<bool>)
    requires Coded(AllSome(strings), dict, codes, valid)
    ensures (forall g, h | 0 <= g < h < |dict| :: dict[g] != dict[h]) && |codes| == |strings|
    ensures (forall i | 0 <= i < |strings| :: codes[i] < |dict|) && DecodeDict(dict, codes) == strings
  {
    assert forall i | 0 <= i < |strings| :: AllSome(strings)[i] == Some(strings[i]) && valid[i];
  }

  /** `decode_dict`. */
  function DecodeDict(dict: seq<string>, codes: seq<nat>): (out: seq<string>)
    requires forall i | 0 <= i < |codes| :: codes[i] < |dict|
    ensures |out| == |codes|
  {
    seq(|codes|, i requires 0 <= i < |codes| => dict[codes[i]])
  }
}

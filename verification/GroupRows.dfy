/** What aggregations answer, row by row over the column itself, with the formulas written out; and that
    the folds of each group's values are these answers. */
module GroupRows {
  import opened GroupAggregates
  import opened GroupAnswers
  import opened GroupAtomics
  import opened NullBitmap
  import opened Options

  // ----- rows -----

  /** Row `i` belongs to group `g`, and its validity bit is set. */
  predicate Enters(valid: seq<Byte>, groups: seq<nat>, g: nat, i: nat) {
    i < |groups| && groups[i] == g && BitSet(valid, i)
  }

  /** The sum of the entering rows below `n`. */
  function SumOf(data: seq<int>, valid: seq<Byte>, groups: seq<nat>, g: nat, n: nat): int
    requires n <= |data|
  {
    if n == 0 then 0 else SumOf(data, valid, groups, g, n - 1) + (if Enters(valid, groups, g, n - 1) then data[n - 1] else 0)
  }

  /** The sum of those of them that are finite. */
  function RealSumOf(data: seq<F64>, valid: seq<Byte>, groups: seq<nat>, g: nat, n: nat): real
    requires n <= |data|
  {
    if n == 0 then 0.0
    else
      RealSumOf(data, valid, groups, g, n - 1)
      + (if Enters(valid, groups, g, n - 1) && data[n - 1].Fin? then data[n - 1].x else 0.0)
  }

  function CountOf(valid: seq<Byte>, groups: seq<nat>, g: nat, n: nat): nat {
    if n == 0 then 0 else CountOf(valid, groups, g, n - 1) + (if Enters(valid, groups, g, n - 1) then 1 else 0)
  }

  function LengthOf(groups: seq<nat>, g: nat, n: nat): nat
    requires n <= |groups|
  {
    if n == 0 then 0 else LengthOf(groups, g, n - 1) + (if groups[n - 1] == g then 1 else 0)
  }

  /** An entering row holds `x`. */
  ghost predicate Has<T(!new)>(data: seq<T>, valid: seq<Byte>, groups: seq<nat>, g: nat, n: nat, x: T)
    requires n <= |data|
  {
    exists i | 0 <= i < n :: Enters(valid, groups, g, i) && data[i] == x
  }

  // ----- answers for one group -----

  /** `w` is `sum` in two's complement of 64 or 32 bits. */
  predicate Wrapped64(w: int, sum: int) {
    -0x8000_0000_0000_0000 <= w < 0x8000_0000_0000_0000 && (w - sum) % 0x1_0000_0000_0000_0000 == 0
  }

  predicate Wrapped32(w: int, sum: int) {
    -0x8000_0000 <= w < 0x8000_0000 && (w - sum) % 0x1_0000_0000 == 0
  }

  ghost predicate LeastRow(data: seq<int>, valid: seq<Byte>, groups: seq<nat>, g: nat, n: nat, value: int, ok: bool)
    requires n <= |data|
  {
    (ok <==> CountOf(valid, groups, g, n) > 0) &&
    (ok ==> Has(data, valid, groups, g, n, value) && forall i | 0 <= i < n && Enters(valid, groups, g, i) :: value <= data[i])
  }

  ghost predicate GreatestRow(data: seq<int>, valid: seq<Byte>, groups: seq<nat>, g: nat, n: nat, value: int, ok: bool)
    requires n <= |data|
  {
    (ok <==> CountOf(valid, groups, g, n) > 0) &&
    (ok ==> Has(data, valid, groups, g, n, value) && forall i | 0 <= i < n && Enters(valid, groups, g, i) :: data[i] <= value)
  }

  /** The mean of integers: a number which times the count is the sum, wrapped. */
  ghost predicate MeanRow(wide: bool, data: seq<int>, valid: seq<Byte>, groups: seq<nat>, g: nat, n: nat, value: F64, ok: bool)
    requires n <= |data|
  {
    var count, sum := CountOf(valid, groups, g, n), SumOf(data, valid, groups, g, n);
    (ok <==> count > 0) &&
    (ok ==> value.Fin? && exists w: int :: (if wide then Wrapped64(w, sum) else Wrapped32(w, sum)) && IsShare(value.x, count, w as real))
  }

  predicate IsShare(x: real, count: nat, total: real) {
    x * count as real == total
  }

  /** The sum of floats: NaN for a NaN or opposite infinities, an infinity, or the sum of numbers. */
  ghost predicate FloatSumRow(data: seq<F64>, valid: seq<Byte>, groups: seq<nat>, g: nat, n: nat, value: F64)
    requires n <= |data|
  {
    if Has(data, valid, groups, g, n, NaN) then value == NaN
    else if Has(data, valid, groups, g, n, PosInf) && Has(data, valid, groups, g, n, NegInf) then value == NaN
    else if Has(data, valid, groups, g, n, PosInf) then value == PosInf
    else if Has(data, valid, groups, g, n, NegInf) then value == NegInf
    else value == Fin(RealSumOf(data, valid, groups, g, n))
  }

  /** Their mean: the sum shared out, and an infinity or NaN as it is. */
  ghost predicate FloatMeanRow(data: seq<F64>, valid: seq<Byte>, groups: seq<nat>, g: nat, n: nat, value: F64, ok: bool)
    requires n <= |data|
  {
    var count := CountOf(valid, groups, g, n);
    (ok <==> count > 0) &&
    (ok ==> exists s: F64 ::
       FloatSumRow(data, valid, groups, g, n, s) && if s.Fin? then value.Fin? && IsShare(value.x, count, s.x) else value == s)
  }

  /** `a` is a number at most `b`. */
  predicate AtMost(a: F64, b: F64) {
    match (a, b)
    case (NegInf, NaN) => false
    case (NegInf, _) => true
    case (Fin(x), Fin(y)) => x <= y
    case (Fin(_), PosInf) => true
    case (PosInf, PosInf) => true
    case _ => false
  }

  /** The least float: NaN if there is one among them. */
  ghost predicate LeastFloatRow(data: seq<F64>, valid: seq<Byte>, groups: seq<nat>, g: nat, n: nat, value: F64, ok: bool)
    requires n <= |data|
  {
    (ok <==> CountOf(valid, groups, g, n) > 0) && (Has(data, valid, groups, g, n, NaN) ==> value == NaN) &&
    (ok && !Has(data, valid, groups, g, n, NaN) ==>
      Has(data, valid, groups, g, n, value) && forall i | 0 <= i < n && Enters(valid, groups, g, i) :: AtMost(value, data[i]))
  }

  ghost predicate GreatestFloatRow(data: seq<F64>, valid: seq<Byte>, groups: seq<nat>, g: nat, n: nat, value: F64, ok: bool)
    requires n <= |data|
  {
    (ok <==> CountOf(valid, groups, g, n) > 0) && (Has(data, valid, groups, g, n, NaN) ==> value == NaN) &&
    (ok && !Has(data, valid, groups, g, n, NaN) ==>
      Has(data, valid, groups, g, n, value) && forall i | 0 <= i < n && Enters(valid, groups, g, i) :: AtMost(data[i], value))
  }

  /** The least number, NaN ignored; infinity if there is none. */
  ghost predicate LeastNumberRow(data: seq<F64>, valid: seq<Byte>, groups: seq<nat>, g: nat, n: nat, value: F64, ok: bool)
    requires n <= |data|
  {
    (ok <==> CountOf(valid, groups, g, n) > 0) && (value == PosInf || Has(data, valid, groups, g, n, value)) &&
    forall i | 0 <= i < n && Enters(valid, groups, g, i) && data[i] != NaN :: AtMost(value, data[i])
  }

  ghost predicate GreatestNumberRow(data: seq<F64>, valid: seq<Byte>, groups: seq<nat>, g: nat, n: nat, value: F64, ok: bool)
    requires n <= |data|
  {
    (ok <==> CountOf(valid, groups, g, n) > 0) && (value == NegInf || Has(data, valid, groups, g, n, value)) &&
    forall i | 0 <= i < n && Enters(valid, groups, g, i) && data[i] != NaN :: AtMost(data[i], value)
  }

  // ----- answers for one column -----

  /** Group `g`'s answer. */
  ghost predicate RowAnswer(kind: AggKind, col: ValueColumn, groups: seq<nat>, g: nat, out: AggOutput) {
    var n, v := |groups|, col.valid;
    match kind
    case SumI64 =>
      col.IntColumn? && n <= |col.ints| && out.IntOutput? && g < |out.ints| && g < |out.valid| &&
      out.valid[g] && Wrapped64(out.ints[g], SumOf(col.ints, v, groups, g, n))
    case MinI64 =>
      col.IntColumn? && n <= |col.ints| && out.IntOutput? && g < |out.ints| && g < |out.valid| &&
      LeastRow(col.ints, v, groups, g, n, out.ints[g], out.valid[g])
    case MaxI64 =>
      col.IntColumn? && n <= |col.ints| && out.IntOutput? && g < |out.ints| && g < |out.valid| &&
      GreatestRow(col.ints, v, groups, g, n, out.ints[g], out.valid[g])
    case MeanI64 =>
      col.IntColumn? && n <= |col.ints| && out.FloatOutput? && g < |out.floats| && g < |out.valid| &&
      MeanRow(true, col.ints, v, groups, g, n, out.floats[g], out.valid[g])
    case SumF64 =>
      col.FloatColumn? && n <= |col.floats| && out.FloatOutput? && g < |out.floats| && g < |out.valid| &&
      out.valid[g] && FloatSumRow(col.floats, v, groups, g, n, out.floats[g])
    case MeanF64 =>
      col.FloatColumn? && n <= |col.floats| && out.FloatOutput? && g < |out.floats| && g < |out.valid| &&
      FloatMeanRow(col.floats, v, groups, g, n, out.floats[g], out.valid[g])
    case MinF64 =>
      col.FloatColumn? && n <= |col.floats| && out.FloatOutput? && g < |out.floats| && g < |out.valid| &&
      LeastFloatRow(col.floats, v, groups, g, n, out.floats[g], out.valid[g])
    case MaxF64 =>
      col.FloatColumn? && n <= |col.floats| && out.FloatOutput? && g < |out.floats| && g < |out.valid| &&
      GreatestFloatRow(col.floats, v, groups, g, n, out.floats[g], out.valid[g])
    case Count => out.CountOutput? && g < |out.counts| && out.counts[g] == CountOf(v, groups, g, n)
    case Len => out.CountOutput? && g < |out.counts| && out.counts[g] == LengthOf(groups, g, n)
    case SumI32 =>
      col.Int32Column? && n <= |col.ints32| && out.Int32Output? && g < |out.ints32| && g < |out.valid| &&
      out.valid[g] && Wrapped32(out.ints32[g], SumOf(col.ints32, v, groups, g, n))
    case MinI32 =>
      col.Int32Column? && n <= |col.ints32| && out.Int32Output? && g < |out.ints32| && g < |out.valid| &&
      LeastRow(col.ints32, v, groups, g, n, out.ints32[g], out.valid[g])
    case MaxI32 =>
      col.Int32Column? && n <= |col.ints32| && out.Int32Output? && g < |out.ints32| && g < |out.valid| &&
      GreatestRow(col.ints32, v, groups, g, n, out.ints32[g], out.valid[g])
    case MeanI32 =>
      col.Int32Column? && n <= |col.ints32| && out.Float32Output? && g < |out.floats32| && g < |out.valid| &&
      MeanRow(false, col.ints32, v, groups, g, n, out.floats32[g], out.valid[g])
    case SumF32 =>
      col.Float32Column? && n <= |col.floats32| && out.Float32Output? && g < |out.floats32| && g < |out.valid| &&
      out.valid[g] && FloatSumRow(col.floats32, v, groups, g, n, out.floats32[g])
    case MeanF32 =>
      col.Float32Column? && n <= |col.floats32| && out.Float32Output? && g < |out.floats32| && g < |out.valid| &&
      FloatMeanRow(col.floats32, v, groups, g, n, out.floats32[g], out.valid[g])
    case MinF32 =>
      col.Float32Column? && n <= |col.floats32| && out.Float32Output? && g < |out.floats32| && g < |out.valid| &&
      LeastNumberRow(col.floats32, v, groups, g, n, out.floats32[g], out.valid[g])
    case MaxF32 =>
      col.Float32Column? && n <= |col.floats32| && out.Float32Output? && g < |out.floats32| && g < |out.valid| &&
      GreatestNumberRow(col.floats32, v, groups, g, n, out.floats32[g], out.valid[g])
  }

  /** As many answers as groups. */
  predicate Heights(out: AggOutput, nGroups: nat) {
    match out
    case IntOutput(xs, valid) => |xs| == nGroups == |valid|
    case FloatOutput(xs, valid) => |xs| == nGroups == |valid|
    case Int32Output(xs, valid) => |xs| == nGroups == |valid|
    case Float32Output(xs, valid) => |xs| == nGroups == |valid|
    case CountOutput(xs) => |xs| == nGroups
  }

  ghost predicate RowAnswers(kind: AggKind, col: ValueColumn, groups: seq<nat>, nGroups: nat, out: AggOutput) {
    Heights(out, nGroups) && forall g | 0 <= g < nGroups :: RowAnswer(kind, col, groups, g, out)
  }

  // ----- the groups' values are the entering rows -----

  /** The values of a group, by the rows they came from. */
  lemma {:induction false} ValuesAreRows<T(!new)>(data: seq<T>, valid: seq<Byte>, groups: seq<nat>, g: nat, hi: nat)
    requires hi <= |groups| <= |data|
    ensures var vs := GroupItems(Items(data, valid, |groups|), groups, g, 0, hi);
            |vs| == CountOf(valid, groups, g, hi) && forall x: T :: x in vs <==> Has(data, valid, groups, g, hi, x)
  {
    hide GetValid, BitSet;
    var items := Items(data, valid, |groups|);
    if hi > 0 {
      var r := hi - 1;
      ValuesAreRows(data, valid, groups, g, r);
      ValidBit(valid, r);
      var before, after := GroupItems(items, groups, g, 0, r), GroupItems(items, groups, g, 0, hi);
      forall x: T
        ensures x in after <==> Has(data, valid, groups, g, hi, x)
      {
        assert Has(data, valid, groups, g, hi, x) <==> Has(data, valid, groups, g, r, x) || (Enters(valid, groups, g, r) && data[r] == x);
      }
    }
  }

  lemma {:induction false} FlagsAreRows(valid: seq<Byte>, groups: seq<nat>, g: nat, hi: nat)
    requires hi <= |groups|
    ensures |GroupItems(Flags(valid, |groups|), groups, g, 0, hi)| == CountOf(valid, groups, g, hi)
  {
    hide GetValid, BitSet;
    if hi > 0 {
      FlagsAreRows(valid, groups, g, hi - 1);
      ValidBit(valid, hi - 1);
    }
  }

  lemma {:induction false} OnesAreRows(groups: seq<nat>, g: nat, hi: nat)
    requires hi <= |groups|
    ensures |GroupItems(AllOnes(|groups|), groups, g, 0, hi)| == LengthOf(groups, g, hi)
  {
    if hi > 0 {
      OnesAreRows(groups, g, hi - 1);
    }
  }

  lemma TotalLast(vs: seq<I64>, v: I64)
    ensures Total(vs + [v]) == Total(vs) + v
  {
    assert (vs + [v])[..|vs|] == vs;
  }

  lemma FiniteTotalLast(vs: seq<F64>, v: F64)
    ensures FiniteTotal(vs + [v]) == FiniteTotal(vs) + (if v.Fin? then v.x else 0.0)
  {
    assert (vs + [v])[..|vs|] == vs;
  }

  lemma {:induction false} TotalIsSum(data: seq<I64>, valid: seq<Byte>, groups: seq<nat>, g: nat, hi: nat)
    requires hi <= |groups| <= |data|
    ensures Total(GroupItems(Items(data, valid, |groups|), groups, g, 0, hi)) == SumOf(data, valid, groups, g, hi)
  {
    hide GetValid, BitSet, Total;
    if hi == 0 {
      NoTotal();
    } else {
      TotalIsSum(data, valid, groups, g, hi - 1);
      ValidBit(valid, hi - 1);
      TotalLast(GroupItems(Items(data, valid, |groups|), groups, g, 0, hi - 1), data[hi - 1]);
      assert GroupItems(Items(data, valid, |groups|), groups, g, 0, hi - 1) + [] == GroupItems(Items(data, valid, |groups|), groups, g, 0, hi - 1);
    }
  }

  lemma {:induction false} Total32IsSum(data: seq<I32>, valid: seq<Byte>, groups: seq<nat>, g: nat, hi: nat)
    requires hi <= |groups| <= |data|
    ensures Total(GroupItems(Items(data, valid, |groups|), groups, g, 0, hi)) == SumOf(data, valid, groups, g, hi)
  {
    hide GetValid, BitSet, Total;
    if hi == 0 {
      NoTotal();
    } else {
      Total32IsSum(data, valid, groups, g, hi - 1);
      ValidBit(valid, hi - 1);
      TotalLast(GroupItems(Items(data, valid, |groups|), groups, g, 0, hi - 1), data[hi - 1]);
      assert GroupItems(Items(data, valid, |groups|), groups, g, 0, hi - 1) + [] == GroupItems(Items(data, valid, |groups|), groups, g, 0, hi - 1);
    }
  }

  lemma NoTotal()
    ensures Total([]) == 0 && FiniteTotal([]) == 0.0
  {
  }

  lemma {:induction false} FiniteTotalIsSum(data: seq<F64>, valid: seq<Byte>, groups: seq<nat>, g: nat, hi: nat)
    requires hi <= |groups| <= |data|
    ensures FiniteTotal(GroupItems(Items(data, valid, |groups|), groups, g, 0, hi)) == RealSumOf(data, valid, groups, g, hi)
  {
    hide GetValid, BitSet, FiniteTotal;
    if hi == 0 {
      NoTotal();
    } else {
      FiniteTotalIsSum(data, valid, groups, g, hi - 1);
      ValidBit(valid, hi - 1);
      FiniteTotalLast(GroupItems(Items(data, valid, |groups|), groups, g, 0, hi - 1), data[hi - 1]);
      assert GroupItems(Items(data, valid, |groups|), groups, g, 0, hi - 1) + [] == GroupItems(Items(data, valid, |groups|), groups, g, 0, hi - 1);
    }
  }

  // ----- the folds are the answers -----

  lemma WrapIsWrapped(x: int)
    ensures Wrapped64(Wrap(x), x)
  {
    var q := (x + TWO63) / TWO64;
    assert Wrap(x) - x == -q * 0x1_0000_0000_0000_0000;
  }

  lemma Wrap32IsWrapped(x: int)
    ensures Wrapped32(Wrap32(x), x)
  {
    var q := (x + TWO31) / TWO32;
    assert Wrap32(x) - x == -q * 0x1_0000_0000;
  }

  lemma SharedTimesCount(total: real, count: nat)
    requires count > 0
    ensures IsShare(total / count as real, count, total)
  {
  }

  lemma IntRowAnswer(kind: AggKind, data: seq<I64>, valid: seq<Byte>, groups: seq<nat>, g: nat, value: I64, ok: bool)
    requires |groups| <= |data| && IntAnswer(kind, GroupItems(Items(data, valid, |groups|), groups, g, 0, |groups|), value, ok)
    ensures var n := |groups|;
            (kind.SumI64? ==> ok && Wrapped64(value, SumOf(data, valid, groups, g, n))) &&
            (kind.MinI64? ==> LeastRow(data, valid, groups, g, n, value, ok)) &&
            (kind.MaxI64? ==> GreatestRow(data, valid, groups, g, n, value, ok))
  {
    hide GroupItems, Items, Wrap, Total, Enters;
    var n := |groups|;
    var vs := GroupItems(Items(data, valid, n), groups, g, 0, n);
    ValuesAreRows(data, valid, groups, g, n);
    TotalIsSum(data, valid, groups, g, n);
    WrapIsWrapped(Total(vs));
    assert forall i | 0 <= i < n && Enters(valid, groups, g, i) :: Has(data, valid, groups, g, n, data[i]);
  }

  lemma Int32RowAnswer(kind: AggKind, data: seq<I32>, valid: seq<Byte>, groups: seq<nat>, g: nat, value: I32, ok: bool)
    requires |groups| <= |data| && Int32Answer(kind, GroupItems(Items(data, valid, |groups|), groups, g, 0, |groups|), value, ok)
    ensures var n := |groups|;
            (kind.SumI32? ==> ok && Wrapped32(value, SumOf(data, valid, groups, g, n))) &&
            (kind.MinI32? ==> LeastRow(data, valid, groups, g, n, value, ok)) &&
            (kind.MaxI32? ==> GreatestRow(data, valid, groups, g, n, value, ok))
  {
    hide GroupItems, Items, Wrap32, Total, Enters;
    var n := |groups|;
    var vs := GroupItems(Items(data, valid, n), groups, g, 0, n);
    ValuesAreRows(data, valid, groups, g, n);
    Total32IsSum(data, valid, groups, g, n);
    Wrap32IsWrapped(Total(vs));
    assert forall i | 0 <= i < n && Enters(valid, groups, g, i) :: Has(data, valid, groups, g, n, data[i]);
  }

  lemma MeanRowAnswer(data: seq<I64>, valid: seq<Byte>, groups: seq<nat>, g: nat, value: F64, ok: bool)
    requires |groups| <= |data| && MeanAnswer(GroupItems(Items(data, valid, |groups|), groups, g, 0, |groups|), value, ok)
    ensures MeanRow(true, data, valid, groups, g, |groups|, value, ok)
  {
    hide GroupItems, Items, Wrap, Total, Enters, IsShare, Wrapped64;
    var vs := GroupItems(Items(data, valid, |groups|), groups, g, 0, |groups|);
    ValuesAreRows(data, valid, groups, g, |groups|);
    TotalIsSum(data, valid, groups, g, |groups|);
    WrapIsWrapped(Total(vs));
    if ok {
      SharedTimesCount(Wrap(Total(vs)) as real, |vs|);
    }
  }

  lemma Mean32RowAnswer(data: seq<I32>, valid: seq<Byte>, groups: seq<nat>, g: nat, value: F64, ok: bool)
    requires |groups| <= |data| && Mean32Answer(GroupItems(Items(data, valid, |groups|), groups, g, 0, |groups|), value, ok)
    ensures MeanRow(false, data, valid, groups, g, |groups|, value, ok)
  {
    hide GroupItems, Items, Wrap32, Total, Enters, IsShare, Wrapped32;
    var vs := GroupItems(Items(data, valid, |groups|), groups, g, 0, |groups|);
    ValuesAreRows(data, valid, groups, g, |groups|);
    Total32IsSum(data, valid, groups, g, |groups|);
    Wrap32IsWrapped(Total(vs));
    if ok {
      SharedTimesCount(Wrap32(Total(vs)) as real, |vs|);
    }
  }

  lemma SummedIsRow(data: seq<F64>, valid: seq<Byte>, groups: seq<nat>, g: nat)
    requires |groups| <= |data|
    ensures FloatSumRow(data, valid, groups, g, |groups|, Summed(GroupItems(Items(data, valid, |groups|), groups, g, 0, |groups|)))
  {
    hide GroupItems, Items, FiniteTotal, Has;
    ValuesAreRows(data, valid, groups, g, |groups|);
    FiniteTotalIsSum(data, valid, groups, g, |groups|);
  }

  lemma SharedIsRow(data: seq<F64>, valid: seq<Byte>, groups: seq<nat>, g: nat, value: F64, ok: bool)
    requires |groups| <= |data|
    requires var vs := GroupItems(Items(data, valid, |groups|), groups, g, 0, |groups|);
             (ok <==> vs != []) && (vs != [] ==> value == Shared(Summed(vs), |vs|))
    ensures FloatMeanRow(data, valid, groups, g, |groups|, value, ok)
  {
    hide GroupItems, Items, Summed, FloatSumRow, IsShare, Has;
    var vs := GroupItems(Items(data, valid, |groups|), groups, g, 0, |groups|);
    ValuesAreRows(data, valid, groups, g, |groups|);
    SummedIsRow(data, valid, groups, g);
    if ok && Summed(vs).Fin? {
      SharedTimesCount(Summed(vs).x, |vs|);
    }
  }

  lemma NotLess(a: F64, b: F64)
    requires a != NaN && b != NaN
    ensures !Less(b, a) <==> AtMost(a, b)
  {
  }

  lemma ExtremeRow(least: bool, data: seq<F64>, valid: seq<Byte>, groups: seq<nat>, g: nat, value: F64)
    requires |groups| <= |data| && value != NaN
    requires var vs := GroupItems(Items(data, valid, |groups|), groups, g, 0, |groups|);
             forall i | 0 <= i < |vs| :: if least then !Less(vs[i], value) else !Less(value, vs[i])
    ensures forall i | 0 <= i < |groups| && Enters(valid, groups, g, i) && data[i] != NaN ::
              if least then AtMost(value, data[i]) else AtMost(data[i], value)
  {
    hide GroupItems, Items, Enters, Less, AtMost;
    var vs := GroupItems(Items(data, valid, |groups|), groups, g, 0, |groups|);
    ValuesAreRows(data, valid, groups, g, |groups|);
    forall i | 0 <= i < |groups| && Enters(valid, groups, g, i) && data[i] != NaN
      ensures if least then AtMost(value, data[i]) else AtMost(data[i], value)
    {
      assert Has(data, valid, groups, g, |groups|, data[i]);
      NotLess(value, data[i]);
      NotLess(data[i], value);
    }
  }

  lemma FloatRowAnswer(kind: AggKind, data: seq<F64>, valid: seq<Byte>, groups: seq<nat>, g: nat, value: F64, ok: bool)
    requires |groups| <= |data| && FloatAnswer(kind, GroupItems(Items(data, valid, |groups|), groups, g, 0, |groups|), value, ok)
    ensures var n := |groups|;
            (kind.SumF64? ==> ok && FloatSumRow(data, valid, groups, g, n, value)) &&
            (kind.MeanF64? ==> FloatMeanRow(data, valid, groups, g, n, value, ok)) &&
            (kind.MinF64? ==> LeastFloatRow(data, valid, groups, g, n, value, ok)) &&
            (kind.MaxF64? ==> GreatestFloatRow(data, valid, groups, g, n, value, ok))
  {
    hide GroupItems, Items, Summed, FloatSumRow, FloatMeanRow, Less, AtMost, Has, Enters;
    var n := |groups|;
    var vs := GroupItems(Items(data, valid, n), groups, g, 0, n);
    ValuesAreRows(data, valid, groups, g, n);
    if kind.SumF64? {
      SummedIsRow(data, valid, groups, g);
    } else if kind.MeanF64? {
      SharedIsRow(data, valid, groups, g, value, ok);
    } else if ok && NaN !in vs {
      ExtremeRow(kind.MinF64?, data, valid, groups, g, value);
      EntersNumber(data, valid, groups, g, n);
    }
  }

  lemma EntersNumber(data: seq<F64>, valid: seq<Byte>, groups: seq<nat>, g: nat, n: nat)
    requires n <= |data| && !Has(data, valid, groups, g, n, NaN)
    ensures forall i | 0 <= i < n && Enters(valid, groups, g, i) :: data[i] != NaN
  {
    hide Enters;
  }

  lemma Float32RowAnswer(kind: AggKind, data: seq<F64>, valid: seq<Byte>, groups: seq<nat>, g: nat, value: F64, ok: bool)
    requires |groups| <= |data| && Float32Answer(kind, GroupItems(Items(data, valid, |groups|), groups, g, 0, |groups|), value, ok)
    ensures var n := |groups|;
            (kind.SumF32? ==> ok && FloatSumRow(data, valid, groups, g, n, value)) &&
            (kind.MeanF32? ==> FloatMeanRow(data, valid, groups, g, n, value, ok)) &&
            (kind.MinF32? ==> LeastNumberRow(data, valid, groups, g, n, value, ok)) &&
            (kind.MaxF32? ==> GreatestNumberRow(data, valid, groups, g, n, value, ok))
  {
    hide GroupItems, Items, Summed, FloatSumRow, FloatMeanRow, Less, AtMost, Has, Enters;
    var n := |groups|;
    ValuesAreRows(data, valid, groups, g, n);
    if kind.SumF32? {
      SummedIsRow(data, valid, groups, g);
    } else if kind.MeanF32? {
      SharedIsRow(data, valid, groups, g, value, ok);
    } else {
      ExtremeRow(kind.MinF32?, data, valid, groups, g, value);
    }
  }

  lemma AnswersHeights(kind: AggKind, col: ValueColumn, groups: seq<nat>, nGroups: nat, out: AggOutput)
    requires Answers(kind, col, groups, nGroups, out)
    ensures Heights(out, nGroups)
  {
    hide IntAnswer, FloatAnswer, MeanAnswer, Int32Answer, Float32Answer, Mean32Answer, GroupItems, Items, Flags, AllOnes;
  }

  lemma IntsByRow(kind: AggKind, col: ValueColumn, groups: seq<nat>, nGroups: nat, out: AggOutput, g: nat)
    requires g < nGroups && (kind.SumI64? || kind.MinI64? || kind.MaxI64?) && Answers(kind, col, groups, nGroups, out)
    ensures RowAnswer(kind, col, groups, g, out)
  {
    hide IntAnswer, FloatAnswer, MeanAnswer, Int32Answer, Float32Answer, Mean32Answer, GroupItems, Items, Flags, AllOnes, CountOf,
      LengthOf, SumOf, FloatSumRow, FloatMeanRow, LeastRow, GreatestRow, MeanRow, LeastFloatRow, GreatestFloatRow, LeastNumberRow,
      GreatestNumberRow, Wrapped64, Wrapped32;
    IntRowAnswer(kind, col.ints, col.valid, groups, g, out.ints[g], out.valid[g]);
  }

  lemma Ints32ByRow(kind: AggKind, col: ValueColumn, groups: seq<nat>, nGroups: nat, out: AggOutput, g: nat)
    requires g < nGroups && (kind.SumI32? || kind.MinI32? || kind.MaxI32?) && Answers(kind, col, groups, nGroups, out)
    ensures RowAnswer(kind, col, groups, g, out)
  {
    hide IntAnswer, FloatAnswer, MeanAnswer, Int32Answer, Float32Answer, Mean32Answer, GroupItems, Items, Flags, AllOnes, CountOf,
      LengthOf, SumOf, FloatSumRow, FloatMeanRow, LeastRow, GreatestRow, MeanRow, LeastFloatRow, GreatestFloatRow, LeastNumberRow,
      GreatestNumberRow, Wrapped64, Wrapped32;
    Int32RowAnswer(kind, col.ints32, col.valid, groups, g, out.ints32[g], out.valid[g]);
  }

  lemma FloatsByRow(kind: AggKind, col: ValueColumn, groups: seq<nat>, nGroups: nat, out: AggOutput, g: nat)
    requires g < nGroups && (kind.SumF64? || kind.MinF64? || kind.MaxF64? || kind.MeanF64?) && Answers(kind, col, groups, nGroups, out)
    ensures RowAnswer(kind, col, groups, g, out)
  {
    hide IntAnswer, FloatAnswer, MeanAnswer, Int32Answer, Float32Answer, Mean32Answer, GroupItems, Items, Flags, AllOnes, CountOf,
      LengthOf, SumOf, FloatSumRow, FloatMeanRow, LeastRow, GreatestRow, MeanRow, LeastFloatRow, GreatestFloatRow, LeastNumberRow,
      GreatestNumberRow, Wrapped64, Wrapped32;
    FloatRowAnswer(kind, col.floats, col.valid, groups, g, out.floats[g], out.valid[g]);
  }

  lemma Floats32ByRow(kind: AggKind, col: ValueColumn, groups: seq<nat>, nGroups: nat, out: AggOutput, g: nat)
    requires g < nGroups && (kind.SumF32? || kind.MinF32? || kind.MaxF32? || kind.MeanF32?) && Answers(kind, col, groups, nGroups, out)
    ensures RowAnswer(kind, col, groups, g, out)
  {
    hide IntAnswer, FloatAnswer, MeanAnswer, Int32Answer, Float32Answer, Mean32Answer, GroupItems, Items, Flags, AllOnes, CountOf,
      LengthOf, SumOf, FloatSumRow, FloatMeanRow, LeastRow, GreatestRow, MeanRow, LeastFloatRow, GreatestFloatRow, LeastNumberRow,
      GreatestNumberRow, Wrapped64, Wrapped32;
    Float32RowAnswer(kind, col.floats32, col.valid, groups, g, out.floats32[g], out.valid[g]);
  }

  lemma OthersByRow(kind: AggKind, col: ValueColumn, groups: seq<nat>, nGroups: nat, out: AggOutput, g: nat)
    requires g < nGroups && (kind.Count? || kind.Len? || kind.MeanI64? || kind.MeanI32?) && Answers(kind, col, groups, nGroups, out)
    ensures RowAnswer(kind, col, groups, g, out)
  {
    hide IntAnswer, FloatAnswer, MeanAnswer, Int32Answer, Float32Answer, Mean32Answer, GroupItems, Items, Flags, AllOnes, CountOf,
      LengthOf, SumOf, FloatSumRow, FloatMeanRow, LeastRow, GreatestRow, MeanRow, LeastFloatRow, GreatestFloatRow, LeastNumberRow,
      GreatestNumberRow, Wrapped64, Wrapped32;
    match kind
    case Count => FlagsAreRows(col.valid, groups, g, |groups|);
    case Len => OnesAreRows(groups, g, |groups|);
    case MeanI64 => MeanRowAnswer(col.ints, col.valid, groups, g, out.floats[g], out.valid[g]);
    case MeanI32 => Mean32RowAnswer(col.ints32, col.valid, groups, g, out.floats32[g], out.valid[g]);
  }

  /** The answers of the folds are those of the rows. */
  lemma AnswersByRow(kind: AggKind, col: ValueColumn, groups: seq<nat>, nGroups: nat, out: AggOutput)
    requires Answers(kind, col, groups, nGroups, out)
    ensures RowAnswers(kind, col, groups, nGroups, out)
  {
    AnswersHeights(kind, col, groups, nGroups, out);
    hide Answers, RowAnswer;
    forall g: nat | g < nGroups
      ensures RowAnswer(kind, col, groups, g, out)
    {
      if kind.SumI64? || kind.MinI64? || kind.MaxI64? {
        IntsByRow(kind, col, groups, nGroups, out, g);
      } else if kind.SumI32? || kind.MinI32? || kind.MaxI32? {
        Ints32ByRow(kind, col, groups, nGroups, out, g);
      } else if kind.SumF64? || kind.MinF64? || kind.MaxF64? || kind.MeanF64? {
        FloatsByRow(kind, col, groups, nGroups, out, g);
      } else if kind.SumF32? || kind.MinF32? || kind.MaxF32? || kind.MeanF32? {
        Floats32ByRow(kind, col, groups, nGroups, out, g);
      } else {
        OthersByRow(kind, col, groups, nGroups, out, g);
      }
    }
  }

  // ----- requests -----

  /** The column has the type the aggregation is for; counts take any. */
  predicate TypeFits(kind: AggKind, col: ValueColumn) {
    match col
    case IntColumn(_, _) => kind in {SumI64, MinI64, MaxI64, MeanI64, Count, Len}
    case FloatColumn(_, _) => kind in {SumF64, MinF64, MaxF64, MeanF64, Count, Len}
    case Int32Column(_, _) => kind in {SumI32, MinI32, MaxI32, MeanI32, Count, Len}
    case Float32Column(_, _) => kind in {SumF32, MinF32, MaxF32, MeanF32, Count, Len}
  }

  /** A 32-bit aggregation of some rows counts them in 32 bits, and has a validity bit for each. */
  predicate Fits32(kind: AggKind, col: ValueColumn, n: nat) {
    kind in {SumI32, MinI32, MaxI32, MeanI32, SumF32, MinF32, MaxF32, MeanF32} && n > 0 ==>
      n <= 0xFFFF_FFFF && 8 * |col.valid| >= n
  }

  /** The output has the type of the kind, and no group. */
  predicate EmptyAnswer(kind: AggKind, out: AggOutput) {
    if kind in {SumI64, MinI64, MaxI64} then out == IntOutput([], [])
    else if kind in {MeanI64, SumF64, MinF64, MaxF64, MeanF64} then out == FloatOutput([], [])
    else if kind in {SumI32, MinI32, MaxI32} then out == Int32Output([], [])
    else if kind in {MeanI32, SumF32, MinF32, MaxF32, MeanF32} then out == Float32Output([], [])
    else out == CountOutput([])
  }
}

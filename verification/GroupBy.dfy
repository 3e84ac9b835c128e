/** The group-by pipeline on the CPU build path: encode, number the groups, aggregate, decode. */
module GroupBy {
  import opened FirstSeenOrder
  import opened GroupAggregates
  import opened GroupAnswers
  import opened GroupAtomics
  import opened GroupRows
  import opened KeyCodec
  import opened KeyPacking
  import opened NullBitmap
  import opened Options

  datatype GroupByError =
    | KeyEncode(error: KeyEncodeError)
    | OutputTooShort(got: nat, need: nat)
    | RowCountOverflow(rows: nat)
    | AggTypeMismatch(kind: AggKind)

  predicate Compatible(kind: AggKind, col: ValueColumn) {
    match kind
    case Count => true
    case Len => true
    case SumI64 => col.IntColumn?
    case MinI64 => col.IntColumn?
    case MaxI64 => col.IntColumn?
    case MeanI64 => col.IntColumn?
    case SumF64 => col.FloatColumn?
    case MinF64 => col.FloatColumn?
    case MaxF64 => col.FloatColumn?
    case MeanF64 => col.FloatColumn?
    case _ => if OnGpuInts(kind) then col.Int32Column? else col.Float32Column?
  }

  predicate OnGpuInts(kind: AggKind) {
    kind.SumI32? || kind.MinI32? || kind.MaxI32? || kind.MeanI32?
  }

  predicate OnGpu(kind: AggKind) {
    OnGpuInts(kind) || kind.SumF32? || kind.MinF32? || kind.MaxF32? || kind.MeanF32?
  }

  /** A kernel launch counts its rows in 32 bits and reads a whole bitmap. */
  predicate Launchable(kind: AggKind, col: ValueColumn, n: nat) {
    OnGpu(kind) && n > 0 ==> n <= U32_MAX && |col.valid| >= ValidityBytes(n)
  }

  // ----- one aggregation -----

  method AggregateExtremeI64(a: Agg<Extreme<GroupAggregates.I64>, GroupAggregates.I64>, kind: AggKind, col: ValueColumn,
                             groups: seq<nat>, nGroups: nat, p: Plan) returns (out: AggOutput)
    requires col.IntColumn? && |groups| <= |col.ints| && Contiguous(p, 0, |groups|)
    requires (kind.MinI64? && a == MIN_I64) || (kind.MaxI64? && a == MAX_I64)
    ensures Answers(kind, col, groups, nGroups, out)
  {
    hide Contiguous, Items, Fold, GroupItems;
    var n := |groups|;
    ExtremesLawful(a, kind);
    var slots := RunPlan(a, Items(col.ints, col.valid, n), groups, nGroups, p, 0, n);
    out := IntOutput(seq(nGroups, g requires 0 <= g < nGroups => slots[g].value),
                     seq(nGroups, g requires 0 <= g < nGroups => slots[g].has));
    forall g | 0 <= g < nGroups
      ensures IntAnswer(kind, GroupItems(Items(col.ints, col.valid, n), groups, g, 0, n), slots[g].value, slots[g].has)
    {
      var vs := GroupItems(Items(col.ints, col.valid, n), groups, g, 0, n);
      MinIsLeast(vs);
      MaxIsGreatest(vs);
    }
  }

  lemma ExtremesLawful(a: Agg<Extreme<GroupAggregates.I64>, GroupAggregates.I64>, kind: AggKind)
    requires (kind.MinI64? && a == MIN_I64) || (kind.MaxI64? && a == MAX_I64)
    ensures Lawful(a)
  {
    MinLawful();
  }

  method AggregateSumI64(col: ValueColumn, groups: seq<nat>, nGroups: nat, p: Plan) returns (sums: seq<GroupAggregates.I64>)
    requires col.IntColumn? && |groups| <= |col.ints| && Contiguous(p, 0, |groups|)
    ensures |sums| == nGroups
    ensures forall g | 0 <= g < nGroups ::
      sums[g] == Wrap(Total(GroupItems(Items(col.ints, col.valid, |groups|), groups, g, 0, |groups|)))
  {
    hide Contiguous, Items, Fold, GroupItems, Lawful;
    var n := |groups|;
    SumLawful();
    sums := RunPlan(SUM_I64, Items(col.ints, col.valid, n), groups, nGroups, p, 0, n);
    forall g | 0 <= g < nGroups
      ensures sums[g] == Wrap(Total(GroupItems(Items(col.ints, col.valid, n), groups, g, 0, n)))
    {
      SumIsWrapped(GroupItems(Items(col.ints, col.valid, n), groups, g, 0, n));
    }
  }

  method AggregateCount(items: seq<Option<()>>, groups: seq<nat>, nGroups: nat, p: Plan) returns (counts: seq<nat>)
    requires |items| == |groups| && Contiguous(p, 0, |groups|)
    ensures |counts| == nGroups
    ensures forall g | 0 <= g < nGroups :: counts[g] == |GroupItems(items, groups, g, 0, |groups|)|
  {
    hide Contiguous, Fold, GroupItems, Lawful;
    CountLawful();
    counts := RunPlan(COUNT, items, groups, nGroups, p, 0, |groups|);
    forall g | 0 <= g < nGroups
      ensures counts[g] == |GroupItems(items, groups, g, 0, |groups|)|
    {
      CountIsLength(GroupItems(items, groups, g, 0, |groups|));
    }
  }

  method AggregateExtremeF64(a: Agg<Extreme<GroupAggregates.F64>, GroupAggregates.F64>, kind: AggKind, col: ValueColumn,
                             groups: seq<nat>, nGroups: nat, p: Plan) returns (out: AggOutput)
    requires col.FloatColumn? && |groups| <= |col.floats| && Contiguous(p, 0, |groups|)
    requires (kind.MinF64? && a == MIN_F64) || (kind.MaxF64? && a == MAX_F64)
    ensures Answers(kind, col, groups, nGroups, out)
  {
    hide Contiguous, Items, Fold, GroupItems;
    var n := |groups|;
    FloatExtremesLawful(a, kind);
    var slots := RunPlan(a, Items(col.floats, col.valid, n), groups, nGroups, p, 0, n);
    out := FloatOutput(seq(nGroups, g requires 0 <= g < nGroups => slots[g].value),
                       seq(nGroups, g requires 0 <= g < nGroups => slots[g].has));
    forall g | 0 <= g < nGroups
      ensures FloatAnswer(kind, GroupItems(Items(col.floats, col.valid, n), groups, g, 0, n), slots[g].value, slots[g].has)
    {
      var vs := GroupItems(Items(col.floats, col.valid, n), groups, g, 0, n);
      MinFIsLeast(vs);
      MaxFIsGreatest(vs);
    }
  }

  lemma FloatExtremesLawful(a: Agg<Extreme<GroupAggregates.F64>, GroupAggregates.F64>, kind: AggKind)
    requires (kind.MinF64? && a == MIN_F64) || (kind.MaxF64? && a == MAX_F64)
    ensures Lawful(a)
  {
    MinFloatLawful();
    MaxFloatLawful();
  }

  lemma {:induction false} AsManyFlags<V>(data: seq<V>, valid: seq<Byte>, groups: seq<nat>, g: nat, hi: nat)
    requires hi <= |groups| <= |data|
    ensures var n := |groups|;
            |GroupItems(Items(data, valid, n), groups, g, 0, hi)| == |GroupItems(Flags(valid, n), groups, g, 0, hi)|
  {
    if hi > 0 {
      AsManyFlags(data, valid, groups, g, hi - 1);
    }
  }

  method AggregateMeanI64(col: ValueColumn, groups: seq<nat>, nGroups: nat, p: Plan, q: Plan) returns (out: AggOutput)
    requires col.IntColumn? && |groups| <= |col.ints| && Contiguous(p, 0, |groups|) && Contiguous(q, 0, |groups|)
    ensures Answers(MeanI64, col, groups, nGroups, out)
  {
    hide Contiguous, Items, Flags, GroupItems, Wrap, Total;
    var n := |groups|;
    var sums := AggregateSumI64(col, groups, nGroups, p);
    var counts := AggregateCount(Flags(col.valid, n), groups, nGroups, q);
    var means := seq(nGroups, g requires 0 <= g < nGroups => MeanOf(sums[g], counts[g]));
    out := FloatOutput(seq(nGroups, g requires 0 <= g < nGroups => Fin(if means[g].Some? then means[g].value else 0.0)),
                       seq(nGroups, g requires 0 <= g < nGroups => means[g].Some?));
    forall g | 0 <= g < nGroups
      ensures MeanAnswer(GroupItems(Items(col.ints, col.valid, n), groups, g, 0, n), out.floats[g], out.valid[g])
    {
      AsManyFlags(col.ints, col.valid, groups, g, n);
    }
  }

  method AggregateSumF64(col: ValueColumn, groups: seq<nat>, nGroups: nat, p: Plan) returns (sums: seq<GroupAggregates.F64>)
    requires col.FloatColumn? && |groups| <= |col.floats| && Contiguous(p, 0, |groups|)
    ensures |sums| == nGroups
    ensures forall g | 0 <= g < nGroups ::
      sums[g] == Summed(GroupItems(Items(col.floats, col.valid, |groups|), groups, g, 0, |groups|))
  {
    hide Contiguous, Items, Fold, GroupItems, Lawful, Summed;
    var n := |groups|;
    SumFloatLawful();
    sums := RunPlan(SUM_F64, Items(col.floats, col.valid, n), groups, nGroups, p, 0, n);
    forall g | 0 <= g < nGroups
      ensures sums[g] == Summed(GroupItems(Items(col.floats, col.valid, n), groups, g, 0, n))
    {
      SumFIsSummed(GroupItems(Items(col.floats, col.valid, n), groups, g, 0, n));
    }
  }

  method AggregateMeanF64(col: ValueColumn, groups: seq<nat>, nGroups: nat, p: Plan, q: Plan) returns (out: AggOutput)
    requires col.FloatColumn? && |groups| <= |col.floats| && Contiguous(p, 0, |groups|) && Contiguous(q, 0, |groups|)
    ensures Answers(MeanF64, col, groups, nGroups, out)
  {
    hide Contiguous, Items, Flags, GroupItems, Summed;
    var n := |groups|;
    var sums := AggregateSumF64(col, groups, nGroups, p);
    var counts := AggregateCount(Flags(col.valid, n), groups, nGroups, q);
    var means := seq(nGroups, g requires 0 <= g < nGroups => MeanOfFloats(sums[g], counts[g]));
    out := FloatOutput(seq(nGroups, g requires 0 <= g < nGroups => if means[g].Some? then means[g].value else Fin(0.0)),
                       seq(nGroups, g requires 0 <= g < nGroups => means[g].Some?));
    forall g | 0 <= g < nGroups
      ensures FloatAnswer(MeanF64, GroupItems(Items(col.floats, col.valid, n), groups, g, 0, n), out.floats[g], out.valid[g])
    {
      AsManyFlags(col.floats, col.valid, groups, g, n);
    }
  }

  // ----- 32-bit columns, on the GPU -----

  /** The orders in which the threads of up to two launches move. */
  datatype Race = Race(first: seq<Tick>, second: seq<Tick>)

  method CountOnGpu(col: ValueColumn, groups: seq<nat>, nGroups: nat, schedule: seq<Tick>) returns (counts: seq<nat>)
    requires forall i | 0 <= i < |groups| :: groups[i] < nGroups
    ensures |counts| == nGroups
    ensures forall g | 0 <= g < nGroups :: counts[g] == |GroupItems(Flags(col.valid, |groups|), groups, g, 0, |groups|)|
  {
    hide Fold, GroupItems, Unordered, Flags;
    CountUnordered();
    counts := LaunchAtomics(FETCH_COUNT, Flags(col.valid, |groups|), groups, nGroups, schedule);
    forall g | 0 <= g < nGroups
      ensures counts[g] == |GroupItems(Flags(col.valid, |groups|), groups, g, 0, |groups|)|
    {
      CountIsLength(GroupItems(Flags(col.valid, |groups|), groups, g, 0, |groups|));
    }
  }

  method SumI32OnGpu(col: ValueColumn, groups: seq<nat>, nGroups: nat, schedule: seq<Tick>) returns (sums: seq<I32>)
    requires col.Int32Column? && |groups| <= |col.ints32| && forall i | 0 <= i < |groups| :: groups[i] < nGroups
    ensures |sums| == nGroups
    ensures forall g | 0 <= g < nGroups ::
      sums[g] == Wrap32(Total(GroupItems(Items(col.ints32, col.valid, |groups|), groups, g, 0, |groups|)))
  {
    hide Fold, GroupItems, Unordered, Items, Wrap32;
    var n := |groups|;
    SumUnordered();
    sums := LaunchAtomics(FETCH_SUM, Items(col.ints32, col.valid, n), groups, nGroups, schedule);
    forall g | 0 <= g < nGroups
      ensures sums[g] == Wrap32(Total(GroupItems(Items(col.ints32, col.valid, n), groups, g, 0, n)))
    {
      SumIsWrapped32(GroupItems(Items(col.ints32, col.valid, n), groups, g, 0, n));
    }
  }

  method ExtremeI32OnGpu(k: Atomic<I32, I32>, kind: AggKind, col: ValueColumn, groups: seq<nat>, nGroups: nat, race: Race)
    returns (out: AggOutput)
    requires col.Int32Column? && |groups| <= |col.ints32| && forall i | 0 <= i < |groups| :: groups[i] < nGroups
    requires (kind.MinI32? && k == FETCH_MIN) || (kind.MaxI32? && k == FETCH_MAX)
    ensures Answers(kind, col, groups, nGroups, out)
  {
    hide Fold, GroupItems, Unordered, Items, Flags;
    var n := |groups|;
    ExtremesUnordered();
    var slots := LaunchAtomics(k, Items(col.ints32, col.valid, n), groups, nGroups, race.first);
    var counts := CountOnGpu(col, groups, nGroups, race.second);
    out := Int32Output(slots, seq(nGroups, g requires 0 <= g < nGroups => counts[g] > 0));
    forall g | 0 <= g < nGroups
      ensures Int32Answer(kind, GroupItems(Items(col.ints32, col.valid, n), groups, g, 0, n), out.ints32[g], out.valid[g])
    {
      var vs := GroupItems(Items(col.ints32, col.valid, n), groups, g, 0, n);
      AsManyFlags(col.ints32, col.valid, groups, g, n);
      MinIsLeast32(vs);
      MaxIsGreatest32(vs);
    }
  }

  method SumF32OnGpu(col: ValueColumn, groups: seq<nat>, nGroups: nat, schedule: seq<Tick>) returns (sums: seq<GroupAggregates.F64>)
    requires col.Float32Column? && |groups| <= |col.floats32| && forall i | 0 <= i < |groups| :: groups[i] < nGroups
    ensures |sums| == nGroups
    ensures forall g | 0 <= g < nGroups ::
      sums[g] == Summed(GroupItems(Items(col.floats32, col.valid, |groups|), groups, g, 0, |groups|))
  {
    hide Fold, GroupItems, Unordered, Merging, Items, Summed;
    var n := |groups|;
    FloatSumUnordered();
    SumMergesUnordered();
    SumMerges();
    sums := DispatchAggF32(SWAP_SUM, MERGE_SUM, Items(col.floats32, col.valid, n), groups, nGroups, schedule);
    forall g | 0 <= g < nGroups
      ensures sums[g] == Summed(GroupItems(Items(col.floats32, col.valid, n), groups, g, 0, n))
    {
      SumFIsSummed(GroupItems(Items(col.floats32, col.valid, n), groups, g, 0, n));
    }
  }

  method ExtremeF32OnGpu(kind: AggKind, col: ValueColumn, groups: seq<nat>, nGroups: nat, race: Race) returns (out: AggOutput)
    requires col.Float32Column? && |groups| <= |col.floats32| && forall i | 0 <= i < |groups| :: groups[i] < nGroups
    requires kind.MinF32? || kind.MaxF32?
    ensures Answers(kind, col, groups, nGroups, out)
  {
    hide Fold, GroupItems, Unordered, Merging, Items, Flags;
    var n := |groups|;
    FloatExtremesUnordered();
    LessMergesUnordered();
    MoreMergesUnordered();
    LessMerges();
    MoreMerges();
    var slots: seq<Number>;
    if kind.MinF32? {
      slots := DispatchAggF32(SWAP_MIN, MERGE_MIN, Items(col.floats32, col.valid, n), groups, nGroups, race.first);
    } else {
      slots := DispatchAggF32(SWAP_MAX, MERGE_MAX, Items(col.floats32, col.valid, n), groups, nGroups, race.first);
    }
    var counts := CountOnGpu(col, groups, nGroups, race.second);
    out := Float32Output(slots, seq(nGroups, g requires 0 <= g < nGroups => counts[g] > 0));
    forall g | 0 <= g < nGroups
      ensures Float32Answer(kind, GroupItems(Items(col.floats32, col.valid, n), groups, g, 0, n), out.floats32[g], out.valid[g])
    {
      var vs := GroupItems(Items(col.floats32, col.valid, n), groups, g, 0, n);
      AsManyFlags(col.floats32, col.valid, groups, g, n);
      MinIgnoresNaN(vs);
      MaxIgnoresNaN(vs);
    }
  }

  /** `compute_mean_i32` and `compute_mean_f32` after the two launches. */
  method MeanI32OnGpu(col: ValueColumn, groups: seq<nat>, nGroups: nat, race: Race) returns (out: AggOutput)
    requires col.Int32Column? && |groups| <= |col.ints32| && forall i | 0 <= i < |groups| :: groups[i] < nGroups
    ensures Answers(MeanI32, col, groups, nGroups, out)
  {
    hide Items, Flags, GroupItems, Wrap32, Total;
    var n := |groups|;
    var sums := SumI32OnGpu(col, groups, nGroups, race.first);
    var counts := CountOnGpu(col, groups, nGroups, race.second);
    out := Float32Output(seq(nGroups, g requires 0 <= g < nGroups => if counts[g] == 0 then Fin(0.0) else Fin(sums[g] as real / counts[g] as real)),
                         seq(nGroups, g requires 0 <= g < nGroups => counts[g] > 0));
    forall g | 0 <= g < nGroups
      ensures Mean32Answer(GroupItems(Items(col.ints32, col.valid, n), groups, g, 0, n), out.floats32[g], out.valid[g])
    {
      AsManyFlags(col.ints32, col.valid, groups, g, n);
    }
  }

  method MeanF32OnGpu(col: ValueColumn, groups: seq<nat>, nGroups: nat, race: Race) returns (out: AggOutput)
    requires col.Float32Column? && |groups| <= |col.floats32| && forall i | 0 <= i < |groups| :: groups[i] < nGroups
    ensures Answers(MeanF32, col, groups, nGroups, out)
  {
    hide Items, Flags, GroupItems, Summed;
    var n := |groups|;
    var sums := SumF32OnGpu(col, groups, nGroups, race.first);
    var counts := CountOnGpu(col, groups, nGroups, race.second);
    var means := seq(nGroups, g requires 0 <= g < nGroups => MeanOfFloats(sums[g], counts[g]));
    out := Float32Output(seq(nGroups, g requires 0 <= g < nGroups => if means[g].Some? then means[g].value else Fin(0.0)),
                         seq(nGroups, g requires 0 <= g < nGroups => means[g].Some?));
    forall g | 0 <= g < nGroups
      ensures Float32Answer(MeanF32, GroupItems(Items(col.floats32, col.valid, n), groups, g, 0, n), out.floats32[g], out.valid[g])
    {
      AsManyFlags(col.floats32, col.valid, groups, g, n);
    }
  }

  /** The 32-bit arms of `run_one_agg`. */
  method RunOnGpu(kind: AggKind, col: ValueColumn, groups: seq<nat>, nGroups: nat, race: Race) returns (out: AggOutput)
    requires OnGpu(kind) && Compatible(kind, col) && |groups| <= Height(col) && forall i | 0 <= i < |groups| :: groups[i] < nGroups
    ensures Answers(kind, col, groups, nGroups, out)
  {
    hide Items, Flags, GroupItems, Int32Answer, Float32Answer, Mean32Answer;
    if kind.SumI32? {
      var sums := SumI32OnGpu(col, groups, nGroups, race.first);
      Sums32Answer(col, groups, nGroups, sums);
      out := Int32Output(sums, seq(nGroups, g => true));
    } else if kind.MinI32? {
      out := ExtremeI32OnGpu(FETCH_MIN, kind, col, groups, nGroups, race);
    } else if kind.MaxI32? {
      out := ExtremeI32OnGpu(FETCH_MAX, kind, col, groups, nGroups, race);
    } else if kind.MeanI32? {
      out := MeanI32OnGpu(col, groups, nGroups, race);
    } else if kind.SumF32? {
      var sums := SumF32OnGpu(col, groups, nGroups, race.first);
      FloatSums32Answer(col, groups, nGroups, sums);
      out := Float32Output(sums, seq(nGroups, g => true));
    } else if kind.MeanF32? {
      out := MeanF32OnGpu(col, groups, nGroups, race);
    } else {
      out := ExtremeF32OnGpu(kind, col, groups, nGroups, race);
    }
  }

  lemma Sums32Answer(col: ValueColumn, groups: seq<nat>, nGroups: nat, sums: seq<I32>)
    requires col.Int32Column? && |groups| <= |col.ints32| && |sums| == nGroups
    requires forall g | 0 <= g < nGroups ::
      sums[g] == Wrap32(Total(GroupItems(Items(col.ints32, col.valid, |groups|), groups, g, 0, |groups|)))
    ensures Answers(SumI32, col, groups, nGroups, Int32Output(sums, seq(nGroups, g => true)))
  {
    hide Items, GroupItems, Wrap32, Total;
  }

  lemma FloatSums32Answer(col: ValueColumn, groups: seq<nat>, nGroups: nat, sums: seq<GroupAggregates.F64>)
    requires col.Float32Column? && |groups| <= |col.floats32| && |sums| == nGroups
    requires forall g | 0 <= g < nGroups ::
      sums[g] == Summed(GroupItems(Items(col.floats32, col.valid, |groups|), groups, g, 0, |groups|))
    ensures Answers(SumF32, col, groups, nGroups, Float32Output(sums, seq(nGroups, g => true)))
  {
    hide Items, GroupItems, Summed;
  }

  /** `run_one_agg`. Any two plans may be in force for the two folds of a 64-bit aggregation, and any two
      schedules for the launches of a 32-bit one. */
  method RunOneAgg(kind: AggKind, col: ValueColumn, groups: seq<nat>, nGroups: nat, p: Plan, q: Plan, race: Race)
    returns (r: Result<AggOutput, GroupByError>)
    requires |groups| <= Height(col) && Contiguous(p, 0, |groups|) && Contiguous(q, 0, |groups|)
    requires forall i | 0 <= i < |groups| :: groups[i] < nGroups
    ensures r.Ok? <==> TypeFits(kind, col) && Fits32(kind, col, |groups|)
    ensures r.Ok? ==> RowAnswers(kind, col, groups, nGroups, r.value)
    ensures !TypeFits(kind, col) ==> r == Err(AggTypeMismatch(kind))
    ensures TypeFits(kind, col) && r.Err? ==>
      r.error == if |groups| > 0xFFFF_FFFF then RowCountOverflow(|groups|) else OutputTooShort(|col.valid|, (|groups| + 7) / 8)
  {
    RequestsFit(kind, col, |groups|);
    hide Contiguous, Items, Flags, AllOnes, GroupItems, IntAnswer, FloatAnswer, MeanAnswer, Int32Answer, Float32Answer, Mean32Answer;
    if !Compatible(kind, col) {
      return Err(AggTypeMismatch(kind));
    }
    var n := |groups|;
    if OnGpu(kind) && n > 0 {
      if n > U32_MAX {
        return Err(RowCountOverflow(n));
      }
      if |col.valid| < ValidityBytes(n) {
        return Err(OutputTooShort(|col.valid|, ValidityBytes(n)));
      }
    }
    var out: AggOutput;
    match kind {
      case SumI64 =>
        var sums := AggregateSumI64(col, groups, nGroups, p);
        SumsAnswer(col, groups, nGroups, sums);
        out := IntOutput(sums, seq(nGroups, g => true));
      case MinI64 => out := AggregateExtremeI64(MIN_I64, kind, col, groups, nGroups, p);
      case MaxI64 => out := AggregateExtremeI64(MAX_I64, kind, col, groups, nGroups, p);
      case MeanI64 => out := AggregateMeanI64(col, groups, nGroups, p, q);
      case SumF64 =>
        var sums := AggregateSumF64(col, groups, nGroups, p);
        FloatSumsAnswer(col, groups, nGroups, sums);
        out := FloatOutput(sums, seq(nGroups, g => true));
      case MinF64 => out := AggregateExtremeF64(MIN_F64, kind, col, groups, nGroups, p);
      case MaxF64 => out := AggregateExtremeF64(MAX_F64, kind, col, groups, nGroups, p);
      case MeanF64 => out := AggregateMeanF64(col, groups, nGroups, p, q);
      case Count =>
        var counts := AggregateCount(Flags(col.valid, n), groups, nGroups, p);
        out := CountOutput(counts);
      case Len =>
        var counts := AggregateCount(AllOnes(n), groups, nGroups, p);
        out := CountOutput(counts);
      case _ => out := RunOnGpu(kind, col, groups, nGroups, race);
    }
    AnswersByRow(kind, col, groups, nGroups, out);
    return Ok(out);
  }

  lemma RequestsFit(kind: AggKind, col: ValueColumn, n: nat)
    ensures Compatible(kind, col) <==> TypeFits(kind, col)
    ensures Launchable(kind, col, n) <==> Fits32(kind, col, n)
  {
  }

  lemma SumsAnswer(col: ValueColumn, groups: seq<nat>, nGroups: nat, sums: seq<GroupAggregates.I64>)
    requires col.IntColumn? && |groups| <= |col.ints| && |sums| == nGroups
    requires forall g | 0 <= g < nGroups ::
      sums[g] == Wrap(Total(GroupItems(Items(col.ints, col.valid, |groups|), groups, g, 0, |groups|)))
    ensures Answers(SumI64, col, groups, nGroups, IntOutput(sums, seq(nGroups, g => true)))
  {
    hide Items, GroupItems, Wrap, Total;
  }

  lemma FloatSumsAnswer(col: ValueColumn, groups: seq<nat>, nGroups: nat, sums: seq<GroupAggregates.F64>)
    requires col.FloatColumn? && |groups| <= |col.floats| && |sums| == nGroups
    requires forall g | 0 <= g < nGroups ::
      sums[g] == Summed(GroupItems(Items(col.floats, col.valid, |groups|), groups, g, 0, |groups|))
    ensures Answers(SumF64, col, groups, nGroups, FloatOutput(sums, seq(nGroups, g => true)))
  {
    hide Items, GroupItems, Summed;
  }

  // ----- the pipeline -----

  /** The rows carry the same key in every column, null equal to null. */
  ghost predicate SameKey(cols: seq<KeyColumn>, n: nat, i: nat, j: nat)
    requires AllReadable(cols, n) && i < n && j < n
  {
    forall k | 0 <= k < |cols| :: KeyAt(cols[k], i) == KeyAt(cols[k], j)
  }

  /** The groups are the distinct keys, in first-seen order; `reps` lists their first rows and
      `groups` tells every row's group. */
  ghost predicate Relational(cols: seq<KeyColumn>, n: nat, reps: seq<nat>, groups: seq<nat>)
    requires AllReadable(cols, n)
  {
    |groups| == n && (forall i | 0 <= i < n :: groups[i] < |reps|) &&
    (forall g | 0 <= g < |reps| :: reps[g] < n) &&
    (forall i, g | 0 <= i < n && 0 <= g < |reps| :: groups[i] == g <==> SameKey(cols, n, i, reps[g])) &&
    (forall g, i | 0 <= g < |reps| && 0 <= i < reps[g] :: !SameKey(cols, n, i, reps[g])) &&
    forall g, h | 0 <= g < h < |reps| :: reps[g] < reps[h]
  }

  /** The decoded key columns hold the keys of the groups. */
  ghost predicate KeysOf(cols: seq<KeyColumn>, n: nat, reps: seq<nat>, keys: seq<DecodedColumn>)
    requires AllReadable(cols, n) && forall g | 0 <= g < |reps| :: reps[g] < n
  {
    |keys| == |cols| &&
    forall k | 0 <= k < |cols| ::
      |keys[k].values| == |reps| == |keys[k].valid| &&
      forall g | 0 <= g < |reps| ::
        (keys[k].valid[g] <==> KeyAt(cols[k], reps[g]).Some?) &&
        (keys[k].valid[g] ==> keys[k].values[g] == KeyAt(cols[k], reps[g]).value)
  }

  datatype AggSpec = AggSpec(kind: AggKind, col: ValueColumn, plan: Plan, countPlan: Plan, race: Race)

  datatype GroupByResult = GroupByResult(keys: seq<DecodedColumn>, outputs: seq<AggOutput>, nGroups: nat)

  ghost predicate Specified(specs: seq<AggSpec>, n: nat) {
    forall j | 0 <= j < |specs| ::
      n <= Height(specs[j].col) && Contiguous(specs[j].plan, 0, n) && Contiguous(specs[j].countPlan, 0, n)
  }

  ghost predicate AllAnswer(specs: seq<AggSpec>, groups: seq<nat>, nGroups: nat, outs: seq<AggOutput>) {
    |outs| == |specs| && forall j | 0 <= j < |specs| :: RowAnswers(specs[j].kind, specs[j].col, groups, nGroups, outs[j])
  }

  /** `empty_output_for`. */
  function EmptyOutput(kind: AggKind): AggOutput {
    match kind
    case Count => CountOutput([])
    case Len => CountOutput([])
    case SumI64 => IntOutput([], [])
    case MinI64 => IntOutput([], [])
    case MaxI64 => IntOutput([], [])
    case SumI32 => Int32Output([], [])
    case MinI32 => Int32Output([], [])
    case MaxI32 => Int32Output([], [])
    case _ => if OnGpu(kind) then Float32Output([], []) else FloatOutput([], [])
  }

  ghost predicate AllEmpty(specs: seq<AggSpec>, outs: seq<AggOutput>) {
    |outs| == |specs| && forall j | 0 <= j < |specs| :: EmptyAnswer(specs[j].kind, outs[j])
  }

  lemma EmptyAreEmpty(specs: seq<AggSpec>)
    ensures AllEmpty(specs, EmptyOutputs(specs))
  {
  }

  function EmptyOutputs(specs: seq<AggSpec>): seq<AggOutput> {
    seq(|specs|, j requires 0 <= j < |specs| => EmptyOutput(specs[j].kind))
  }

  /** The aggregation is of the column's type and can be launched. */
  predicate Runs(spec: AggSpec, n: nat) {
    TypeFits(spec.kind, spec.col) && Fits32(spec.kind, spec.col, n)
  }

  method RunAggs(specs: seq<AggSpec>, groups: seq<nat>, nGroups: nat) returns (r: Result<seq<AggOutput>, GroupByError>)
    requires Specified(specs, |groups|) && forall i | 0 <= i < |groups| :: groups[i] < nGroups
    ensures r.Ok? <==> forall j | 0 <= j < |specs| :: Runs(specs[j], |groups|)
    ensures r.Ok? ==> AllAnswer(specs, groups, nGroups, r.value)
  {
    hide RowAnswers, Contiguous, TypeFits, Fits32;
    var outs := [];
    for j := 0 to |specs|
      invariant forall i | 0 <= i < j :: Runs(specs[i], |groups|)
      invariant |outs| == j && forall i | 0 <= i < j :: RowAnswers(specs[i].kind, specs[i].col, groups, nGroups, outs[i])
    {
      var out := RunOneAgg(specs[j].kind, specs[j].col, groups, nGroups, specs[j].plan, specs[j].countPlan, specs[j].race);
      if out.Err? {
        return Err(out.error);
      }
      outs := outs + [out.value];
    }
    return Ok(outs);
  }

  lemma LaneGroups(cols: seq<KeyColumn>, n: nat, lanes: seq<nat>, reps: seq<nat>, groups: seq<nat>)
    requires AllReadable(cols, n) && (forall k | 0 <= k < |cols| :: DictOk(cols[k])) && |lanes| == n
    requires forall row | 0 <= row < n :: lanes[row] == Lane(cols, n, row, |cols|)
    requires reps == FirstRows(lanes) && Grouped(lanes, groups, reps)
    ensures Relational(cols, n, reps, groups)
  {
    hide AllReadable, DictOk, Lane, KeyAt, FirstRows;
    forall i: nat, j: nat | i < n && j < n
      ensures lanes[i] == lanes[j] <==> SameKey(cols, n, i, j)
    {
      LanesEqual(cols, n, i, j);
    }
    forall i, g | 0 <= i < n && 0 <= g < |reps|
      ensures groups[i] == g <==> SameKey(cols, n, i, reps[g])
    {
      if groups[i] < g {
        FirstRowsDistinct(lanes, groups[i], g);
      } else if g < groups[i] {
        FirstRowsDistinct(lanes, g, groups[i]);
      }
    }
    forall g, i | 0 <= g < |reps| && 0 <= i < reps[g]
      ensures !SameKey(cols, n, i, reps[g])
    {
      FirstRowsAreFirst(lanes, g);
      assert lanes[..reps[g]][i] == lanes[i];
    }
    forall g: nat, h: nat | g < h < |reps|
      ensures reps[g] < reps[h]
    {
      FirstRowsAscend(lanes, g, h);
    }
  }

  lemma NoKeysOneGroup(n: nat)
    ensures Relational([], n, if n == 0 then [] else [0], seq(n, i => 0))
    ensures KeysOf([], n, if n == 0 then [] else [0], [])
  {
  }

  /** A string column whose payloads are the codes `build_dict_nullable` gave is grouped and
      decoded by its strings. */
  lemma DictionaryColumn(c: KeyColumn, strings: seq<Option<string>>, codes: seq<nat>, valid: seq<bool>)
    requires c.dtype.Utf8? && c.dict.Some? && Readable(c) && c.nRows == |strings|
    requires Coded(strings, c.dict.value, codes, valid)
    requires forall row | 0 <= row < c.nRows :: Raw(c, row) == codes[row] && (IsValid(c, row) <==> valid[row])
    ensures DictOk(c)
    ensures forall row | 0 <= row < c.nRows ::
      KeyAt(c, row) == (match strings[row] case Some(s) => Some(StrKey(s)) case None => None)
  {
    hide Raw, IsValid, Readable;
  }

  lemma GroupCount(cols: seq<KeyColumn>, n: nat, reps: seq<nat>, groups: seq<nat>)
    requires AllReadable(cols, n) && Relational(cols, n, reps, groups)
    ensures |groups| == n && (n == 0 ==> reps == []) && forall i | 0 <= i < n :: groups[i] < |reps|
  {
    if reps != [] {
      assert reps[0] < n;
    }
  }

  lemma LaneKeys(cols: seq<KeyColumn>, n: nat, reps: seq<nat>, lanes: seq<nat>, keys: seq<DecodedColumn>)
    requires AllReadable(cols, n) && (forall g | 0 <= g < |reps| :: reps[g] < n) && |lanes| == |reps| && |keys| == |cols|
    requires forall g | 0 <= g < |reps| :: lanes[g] == Lane(cols, n, reps[g], |cols|)
    requires forall k | 0 <= k < |cols| :: keys[k] == DecodedOf(FieldOf(cols, k), lanes)
    ensures KeysOf(cols, n, reps, keys)
  {
    hide Readable, Lane, KeyAt, FieldOf, LaneValue, LaneValid;
    forall k, g | 0 <= k < |cols| && 0 <= g < |reps|
      ensures keys[k].valid[g] <==> KeyAt(cols[k], reps[g]).Some?
      ensures keys[k].valid[g] ==> keys[k].values[g] == KeyAt(cols[k], reps[g]).value
    {
      DecodeOfEncode(cols, n, reps[g], k);
    }
  }

  /** `dispatch_groupby`: the relational group-by, whatever the schedules of its folds; without
      key columns all rows are one group. */
  method DispatchGroupBy(cols: seq<KeyColumn>, specs: seq<AggSpec>, n: nat)
    returns (r: Result<GroupByResult, GroupByError>, ghost reps: seq<nat>, ghost groups: seq<nat>)
    requires n <= U32_MAX && Specified(specs, n)
    requires forall k | 0 <= k < |cols| && Readable(cols[k]) :: DictOk(cols[k])
    ensures r.Ok? <==>
      (forall k | 0 <= k < |cols| :: cols[k].nRows == n) && (cols == [] || EncodeError(cols).None?) &&
      (n == 0 || forall j | 0 <= j < |specs| :: Runs(specs[j], n))
    ensures r.Ok? ==> AllReadable(cols, n) && Relational(cols, n, reps, groups) && r.value.nGroups == |reps|
    ensures r.Ok? ==> KeysOf(cols, n, reps, r.value.keys)
    ensures r.Ok? && n > 0 ==> AllAnswer(specs, groups, |reps|, r.value.outputs)
    ensures r.Ok? && n == 0 ==> r.value.nGroups == 0 && AllEmpty(specs, r.value.outputs)
  {
    hide DictOk, Lane, AllAnswer, Specified, Relational, Readable, EncodeError, Runs, KeysOf, AllEmpty, DecodedOf, OffsetOf, FirstRows, Grouped;
    EmptyAreEmpty(specs);
    reps, groups := [], [];
    for k := 0 to |cols|
      invariant forall i | 0 <= i < k :: cols[i].nRows == n
    {
      if cols[k].nRows != n {
        return Err(OutputTooShort(cols[k].nRows, n)), [], [];
      }
    }
    if cols == [] {
      var single := if n == 0 then [] else [0];
      NoKeysOneGroup(n);
      reps, groups := single, seq(n, i => 0);
      var outs := if n == 0 then Ok(EmptyOutputs(specs)) else Ok([]);
      if n > 0 {
        outs := RunAggs(specs, seq(n, i => 0), 1);
        if outs.Err? {
          return Err(outs.error), [], [];
        }
      }
      return Ok(GroupByResult([], outs.value, |single|)), reps, groups;
    }
    var encoded := EncodeKeys(cols);
    if encoded.Err? {
      return Err(KeyEncode(encoded.error)), [], [];
    }
    assert cols[0].nRows == n;
    var lanes := encoded.value.lanes;
    var rowToGroup, nGroups, firstRow := CpuHashmapBuild(lanes);
    reps, groups := firstRow, rowToGroup;
    LaneGroups(cols, n, lanes, reps, groups);
    GroupCount(cols, n, reps, groups);
    var outputs := EmptyOutputs(specs);
    if n > 0 {
      var outs := RunAggs(specs, rowToGroup, nGroups);
      if outs.Err? {
        return Err(outs.error), [], [];
      }
      outputs := outs.value;
    }
    var representatives := seq(nGroups, g requires 0 <= g < nGroups => lanes[firstRow[g]]);
    var keys := DecodeKeys(representatives, encoded.value.schema);
    LaneKeys(cols, n, reps, representatives, keys);
    return Ok(GroupByResult(keys, outputs, nGroups)), reps, groups;
  }
}

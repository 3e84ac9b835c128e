/** What aggregations of a column answer, as folds of each group's values. */
module GroupAnswers {
  import opened GroupAggregates
  import opened GroupAtomics
  import opened NullBitmap
  import opened Options

  // ----- aggregation requests -----

  datatype AggKind =
    | SumI64 | MinI64 | MaxI64 | MeanI64 | SumF64 | MinF64 | MaxF64 | MeanF64 | Count | Len
    | SumI32 | MinI32 | MaxI32 | MeanI32 | SumF32 | MinF32 | MaxF32 | MeanF32

  datatype ValueColumn =
    | IntColumn(ints: seq<GroupAggregates.I64>, valid: seq<Byte>)
    | FloatColumn(floats: seq<GroupAggregates.F64>, valid: seq<Byte>)
    | Int32Column(ints32: seq<I32>, valid: seq<Byte>)
    | Float32Column(floats32: seq<GroupAggregates.F64>, valid: seq<Byte>)

  datatype AggOutput =
    | IntOutput(ints: seq<GroupAggregates.I64>, valid: seq<bool>)
    | FloatOutput(floats: seq<GroupAggregates.F64>, valid: seq<bool>)
    | Int32Output(ints32: seq<I32>, valid: seq<bool>)
    | Float32Output(floats32: seq<GroupAggregates.F64>, valid: seq<bool>)
    | CountOutput(counts: seq<nat>)

  function Height(col: ValueColumn): nat {
    match col
    case IntColumn(xs, _) => |xs|
    case FloatColumn(xs, _) => |xs|
    case Int32Column(xs, _) => |xs|
    case Float32Column(xs, _) => |xs|
  }

  function Items<V>(data: seq<V>, valid: seq<Byte>, n: nat): (items: seq<Option<V>>)
    requires n <= |data|
    ensures |items| == n
  {
    seq(n, i requires 0 <= i < n => if GetValid(valid, i) then Some(data[i]) else None)
  }

  function Flags(valid: seq<Byte>, n: nat): (items: seq<Option<()>>)
    ensures |items| == n
  {
    seq(n, i requires 0 <= i < n => if GetValid(valid, i) then Some(()) else None)
  }

  function AllOnes(n: nat): (items: seq<Option<()>>)
    ensures |items| == n
  {
    seq(n, i => Some(()))
  }

  // ----- what an answer means -----

  /** The answer for a group whose non-null values are `vs`. */
  ghost predicate IntAnswer(kind: AggKind, vs: seq<GroupAggregates.I64>, value: GroupAggregates.I64, valid: bool) {
    match kind
    case SumI64 => valid && value == Wrap(Total(vs))
    case MinI64 => (valid <==> vs != []) && (valid ==> value in vs && forall i | 0 <= i < |vs| :: value <= vs[i])
    case MaxI64 => (valid <==> vs != []) && (valid ==> value in vs && forall i | 0 <= i < |vs| :: value >= vs[i])
    case _ => false
  }

  ghost predicate FloatAnswer(kind: AggKind, vs: seq<GroupAggregates.F64>, value: GroupAggregates.F64, valid: bool) {
    (valid <==> kind.SumF64? || vs != []) &&
    match kind
    case SumF64 => value == Summed(vs)
    case MeanF64 => vs != [] ==> value == Shared(Summed(vs), |vs|)
    case MinF64 =>
      (NaN in vs ==> value == NaN) &&
      (vs != [] && NaN !in vs ==> value in vs && forall i | 0 <= i < |vs| :: !Less(vs[i], value))
    case MaxF64 =>
      (NaN in vs ==> value == NaN) &&
      (vs != [] && NaN !in vs ==> value in vs && forall i | 0 <= i < |vs| :: !Less(value, vs[i]))
    case _ => false
  }

  ghost predicate MeanAnswer(vs: seq<GroupAggregates.I64>, value: GroupAggregates.F64, valid: bool) {
    (valid <==> vs != []) && (valid ==> value == Fin(Wrap(Total(vs)) as real / |vs| as real))
  }

  ghost predicate IntAnswers(kind: AggKind, col: ValueColumn, groups: seq<nat>, nGroups: nat, out: AggOutput) {
    var n := |groups|;
    col.IntColumn? && n <= |col.ints| && out.IntOutput? && |out.ints| == nGroups == |out.valid| &&
    forall g | 0 <= g < nGroups ::
      IntAnswer(kind, GroupItems(Items(col.ints, col.valid, n), groups, g, 0, n), out.ints[g], out.valid[g])
  }

  ghost predicate FloatAnswers(kind: AggKind, col: ValueColumn, groups: seq<nat>, nGroups: nat, out: AggOutput) {
    var n := |groups|;
    col.FloatColumn? && n <= |col.floats| && out.FloatOutput? && |out.floats| == nGroups == |out.valid| &&
    forall g | 0 <= g < nGroups ::
      FloatAnswer(kind, GroupItems(Items(col.floats, col.valid, n), groups, g, 0, n), out.floats[g], out.valid[g])
  }

  ghost predicate MeanAnswers(col: ValueColumn, groups: seq<nat>, nGroups: nat, out: AggOutput) {
    var n := |groups|;
    col.IntColumn? && n <= |col.ints| && out.FloatOutput? && |out.floats| == nGroups == |out.valid| &&
    forall g | 0 <= g < nGroups ::
      MeanAnswer(GroupItems(Items(col.ints, col.valid, n), groups, g, 0, n), out.floats[g], out.valid[g])
  }

  /** The same for 32-bit columns; extremes of floats ignore NaN. */
  ghost predicate Int32Answer(kind: AggKind, vs: seq<I32>, value: I32, valid: bool) {
    match kind
    case SumI32 => valid && value == Wrap32(Total(vs))
    case MinI32 => (valid <==> vs != []) && (valid ==> value in vs && forall i | 0 <= i < |vs| :: value <= vs[i])
    case MaxI32 => (valid <==> vs != []) && (valid ==> value in vs && forall i | 0 <= i < |vs| :: value >= vs[i])
    case _ => false
  }

  ghost predicate Float32Answer(kind: AggKind, vs: seq<GroupAggregates.F64>, value: GroupAggregates.F64, valid: bool) {
    (valid <==> kind.SumF32? || vs != []) &&
    match kind
    case SumF32 => value == Summed(vs)
    case MeanF32 => vs != [] ==> value == Shared(Summed(vs), |vs|)
    case MinF32 => value != NaN && (value == PosInf || value in vs) && forall i | 0 <= i < |vs| :: !Less(vs[i], value)
    case MaxF32 => value != NaN && (value == NegInf || value in vs) && forall i | 0 <= i < |vs| :: !Less(value, vs[i])
    case _ => false
  }

  ghost predicate Mean32Answer(vs: seq<I32>, value: GroupAggregates.F64, valid: bool) {
    (valid <==> vs != []) && (valid ==> value == Fin(Wrap32(Total(vs)) as real / |vs| as real))
  }

  ghost predicate Int32Answers(kind: AggKind, col: ValueColumn, groups: seq<nat>, nGroups: nat, out: AggOutput) {
    var n := |groups|;
    col.Int32Column? && n <= |col.ints32| && out.Int32Output? && |out.ints32| == nGroups == |out.valid| &&
    forall g | 0 <= g < nGroups ::
      Int32Answer(kind, GroupItems(Items(col.ints32, col.valid, n), groups, g, 0, n), out.ints32[g], out.valid[g])
  }

  ghost predicate Float32Answers(kind: AggKind, col: ValueColumn, groups: seq<nat>, nGroups: nat, out: AggOutput) {
    var n := |groups|;
    col.Float32Column? && n <= |col.floats32| && out.Float32Output? && |out.floats32| == nGroups == |out.valid| &&
    forall g | 0 <= g < nGroups ::
      Float32Answer(kind, GroupItems(Items(col.floats32, col.valid, n), groups, g, 0, n), out.floats32[g], out.valid[g])
  }

  ghost predicate Mean32Answers(col: ValueColumn, groups: seq<nat>, nGroups: nat, out: AggOutput) {
    var n := |groups|;
    col.Int32Column? && n <= |col.ints32| && out.Float32Output? && |out.floats32| == nGroups == |out.valid| &&
    forall g | 0 <= g < nGroups ::
      Mean32Answer(GroupItems(Items(col.ints32, col.valid, n), groups, g, 0, n), out.floats32[g], out.valid[g])
  }

  /** The counts of the marked rows. */
  ghost predicate CountAnswers(marks: seq<Option<()>>, groups: seq<nat>, nGroups: nat, out: AggOutput) {
    var n := |groups|;
    |marks| == n && out.CountOutput? && |out.counts| == nGroups &&
    forall g | 0 <= g < nGroups :: out.counts[g] == |GroupItems(marks, groups, g, 0, n)|
  }

  /** Every group's answer covers exactly the rows of that group. */
  ghost predicate Answers(kind: AggKind, col: ValueColumn, groups: seq<nat>, nGroups: nat, out: AggOutput) {
    match kind
    case SumI64 => IntAnswers(kind, col, groups, nGroups, out)
    case MinI64 => IntAnswers(kind, col, groups, nGroups, out)
    case MaxI64 => IntAnswers(kind, col, groups, nGroups, out)
    case MeanI64 => MeanAnswers(col, groups, nGroups, out)
    case SumF64 => FloatAnswers(kind, col, groups, nGroups, out)
    case MeanF64 => FloatAnswers(kind, col, groups, nGroups, out)
    case MinF64 => FloatAnswers(kind, col, groups, nGroups, out)
    case MaxF64 => FloatAnswers(kind, col, groups, nGroups, out)
    case Count => CountAnswers(Flags(col.valid, |groups|), groups, nGroups, out)
    case Len => CountAnswers(AllOnes(|groups|), groups, nGroups, out)
    case MeanI32 => Mean32Answers(col, groups, nGroups, out)
    case SumI32 => Int32Answers(kind, col, groups, nGroups, out)
    case MinI32 => Int32Answers(kind, col, groups, nGroups, out)
    case MaxI32 => Int32Answers(kind, col, groups, nGroups, out)
    case _ => Float32Answers(kind, col, groups, nGroups, out)
  }
}

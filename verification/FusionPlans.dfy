/** The null-free confirmation: the walker asks the scan at the bottom of a plan about columns by name. */
module FusionPlans {
  import opened FusionAcceptance
  import opened FusionCompile
  import opened FusionDispatch
  import opened FusionHeads
  import opened FusionIr
  import opened FusionNullSafety
  import opened FusionNulls
  import opened FusionReference
  import opened FusionSound
  import opened Options

  // ----- plans -----

  /** A scan, a node that selects and reorders rows (a filter, a sort, a slice), or a node that binds a
      column, new or not, to an expression. */
  datatype Plan =
    | Scan(height: nat, cols: map<string, seq<PCell>>)
    | Rearrange(input: Plan, rows: seq<nat>)
    | HStack(input: Plan, name: string, expr: Expr)

  function Height(p: Plan): nat {
    match p
    case Scan(n, _) => n
    case Rearrange(_, rows) => |rows|
    case HStack(input, _, _) => Height(input)
  }

  function Nulls(n: nat): (cells: seq<PCell>)
    ensures |cells| == n
  {
    seq(n, i => Null)
  }

  function Picked(cells: seq<PCell>, rows: seq<nat>): (out: seq<PCell>)
    ensures |out| == |rows|
  {
    seq(|rows|, i requires 0 <= i < |rows| => if rows[i] < |cells| then cells[rows[i]] else Null)
  }

  /** The frame a plan computes. */
  function Output(sem: Sem, p: Plan): Frame {
    match p
    case Scan(n, cols) => Frame(n, c => if c in cols && |cols[c]| == n then cols[c] else Nulls(n))
    case Rearrange(input, rows) => var f := Output(sem, input); Frame(|rows|, c => Picked(f.col(c), rows))
    case HStack(input, name, e) =>
      var f := Output(sem, input);
      Frame(f.n, c => if c == name then PolarsColumn(sem, f, e) else f.col(c))
  }

  /** Rows are picked from the input. */
  ghost predicate WellFormed(p: Plan) {
    match p
    case Scan(n, cols) => forall c | c in cols :: |cols[c]| == n
    case Rearrange(input, rows) => WellFormed(input) && forall i | 0 <= i < |rows| :: rows[i] < Height(input)
    case HStack(input, _, _) => WellFormed(input)
  }

  /** Bound expressions are chains. */
  predicate Chained(p: Plan) {
    match p
    case Scan(_, _) => true
    case Rearrange(input, _) => Chained(input)
    case HStack(input, _, e) => Chained(input) && Supported(e) && PlainParameters(e) && Straight(e)
  }

  lemma {:induction false} OutputShape(sem: Sem, p: Plan)
    ensures FrameShape(Output(sem, p)) && Output(sem, p).n == Height(p)
    decreases p
  {
    match p
    case Scan(_, _) =>
    case Rearrange(input, _) => OutputShape(sem, input);
    case HStack(input, _, _) => OutputShape(sem, input);
  }

  // ----- the confirmation -----

  /** `_find_scan_df`: down to the leaf. */
  function Leaf(p: Plan): Plan {
    match p
    case Scan(_, _) => p
    case Rearrange(input, _) => Leaf(input)
    case HStack(input, _, _) => Leaf(input)
  }

  /** `_fused_inputs_null_free`: every name is a null-free column of the scan. */
  predicate Confirms(p: Plan, cols: set<string>) {
    Leaf(p).Scan? && forall c | c in cols :: c in Leaf(p).cols && Null !in Leaf(p).cols[c]
  }

  /** Some node above the scan binds one of the names. */
  predicate Rebinds(p: Plan, cols: set<string>) {
    match p
    case Scan(_, _) => false
    case Rearrange(input, _) => Rebinds(input, cols)
    case HStack(input, name, _) => name in cols || Rebinds(input, cols)
  }

  /** Read off the plan: a column is clean in the scan, or bound to a chain without positive shifts over
      clean columns, or there are no rows. */
  predicate Clean(p: Plan, c: string)
    decreases p
  {
    match p
    case Scan(n, cols) => n == 0 || (c in cols && Null !in cols[c])
    case Rearrange(input, rows) => |rows| == 0 || Clean(input, c)
    case HStack(input, name, e) =>
      if c == name then Height(input) == 0 || (Unshifted(e) && forall r | r in Reads(e) :: Clean(input, r))
      else Clean(input, c)
  }

  /** No node drops a row. */
  ghost predicate KeepsRows(p: Plan) {
    match p
    case Scan(_, _) => true
    case Rearrange(input, rows) => KeepsRows(input) && forall r | 0 <= r < Height(input) :: r in rows
    case HStack(input, _, _) => KeepsRows(input)
  }

  lemma BoundColumn(sem: Sem, p: Plan)
    requires p.HStack? && WellFormed(p) && Chained(p)
    ensures var f := Output(sem, p.input);
            Null !in Output(sem, p).col(p.name) <==> f.n == 0 || (Unshifted(p.expr) && NullFree(f, Reads(p.expr)))
  {
    hide PEval, Reads, Unshifted, Supported, PlainParameters, Straight, FrameShape;
    var f := Output(sem, p.input);
    OutputShape(sem, p.input);
    NullFreeExactly(sem, f, p.expr);
    var col := PolarsColumn(sem, f, p.expr);
    assert Output(sem, p).col(p.name) == col;
    NoNullByRow(sem, f, p.expr);
  }

  lemma NoNullByRow(sem: Sem, f: Frame, e: Expr)
    ensures NoNulls(sem, f, e) <==> Null !in PolarsColumn(sem, f, e)
  {
    hide PEval;
    var col := PolarsColumn(sem, f, e);
    assert forall i | 0 <= i < f.n :: col[i] == PAt(PEval(sem, f, e), i);
    if Null in col {
      var i :| 0 <= i < |col| && col[i] == Null;
      assert !NoNulls(sem, f, e);
    } else {
      assert forall i | 0 <= i < f.n :: col[i] in col && col[i].Val?;
    }
  }

  lemma PickedNulls(cells: seq<PCell>, rows: seq<nat>)
    requires forall i | 0 <= i < |rows| :: rows[i] < |cells|
    ensures Null !in cells ==> Null !in Picked(cells, rows)
    ensures (forall r | 0 <= r < |cells| :: r in rows) && Null !in Picked(cells, rows) ==> Null !in cells
  {
    var out := Picked(cells, rows);
    assert forall i | 0 <= i < |rows| :: out[i] == cells[rows[i]] && cells[rows[i]] in cells;
    if (forall r | 0 <= r < |cells| :: r in rows) && Null in cells {
      var r :| 0 <= r < |cells| && cells[r] == Null;
      assert r in rows;
      var i :| 0 <= i < |rows| && rows[i] == r;
      assert out[i] == Null;
    }
  }

  /** A clean column has no nulls; and if no node drops rows, only a clean column has none. */
  lemma {:induction false} CleanExactly(sem: Sem, p: Plan, c: string)
    requires WellFormed(p) && Chained(p)
    ensures Clean(p, c) ==> Null !in Output(sem, p).col(c)
    ensures KeepsRows(p) && Null !in Output(sem, p).col(c) ==> Clean(p, c)
    decreases p
  {
    hide PolarsColumn, Unshifted, Reads, Picked, Nulls;
    OutputShape(sem, p);
    match p
    case Scan(n, cols) => ScanColumn(sem, p, c);
    case Rearrange(input, rows) =>
      CleanExactly(sem, input, c);
      OutputShape(sem, input);
      RearrangedColumn(sem, p, c);
    case HStack(input, name, e) =>
      OutputShape(sem, input);
      if c == name {
        BoundColumn(sem, p);
        forall r | r in Reads(e)
          ensures Clean(input, r) ==> Null !in Output(sem, input).col(r)
          ensures KeepsRows(p) && Null !in Output(sem, input).col(r) ==> Clean(input, r)
        {
          CleanExactly(sem, input, r);
        }
      } else {
        CleanExactly(sem, input, c);
      }
  }

  lemma ScanColumn(sem: Sem, p: Plan, c: string)
    requires p.Scan? && WellFormed(p)
    ensures Clean(p, c) <==> Null !in Output(sem, p).col(c)
  {
    var col := Output(sem, p).col(c);
    if c !in p.cols && p.height > 0 {
      assert col[0] == Null;
    }
  }

  lemma RearrangedColumn(sem: Sem, p: Plan, c: string)
    requires p.Rearrange? && WellFormed(p) && FrameShape(Output(sem, p.input)) && Output(sem, p.input).n == Height(p.input)
    ensures Null !in Output(sem, p.input).col(c) ==> Null !in Output(sem, p).col(c)
    ensures KeepsRows(p) && Null !in Output(sem, p).col(c) ==> Null !in Output(sem, p.input).col(c)
    ensures p.rows == [] ==> Null !in Output(sem, p).col(c)
  {
    PickedNulls(Output(sem, p.input).col(c), p.rows);
  }

  /** What the nodes above bind does not matter, as long as it is bound to another name. */
  /** A plan rebinds a name exactly if some column binding in it is of that name. */
  lemma {:induction false} RebindsExactly(p: Plan, c: string)
    ensures Rebinds(p, {c}) <==> c in BoundNames(p)
    decreases p
  {
    match p
    case Scan(_, _) =>
    case Rearrange(input, _) => RebindsExactly(input, c);
    case HStack(input, _, _) => RebindsExactly(input, c);
  }

  function BoundNames(p: Plan): set<string> {
    if p.Scan? then {} else if p.HStack? then BoundNames(p.input) + {p.name} else BoundNames(p.input)
  }

  lemma {:induction false} UnboundIsNullFree(sem: Sem, p: Plan, cols: set<string>, c: string)
    requires WellFormed(p) && Confirms(p, cols) && !Rebinds(p, cols) && c in cols
    ensures Null !in Output(sem, p).col(c)
    decreases p
  {
    hide PolarsColumn;
    match p
    case Scan(_, _) =>
    case Rearrange(input, rows) =>
      UnboundIsNullFree(sem, input, cols, c);
      OutputShape(sem, input);
      PickedNulls(Output(sem, input).col(c), rows);
    case HStack(input, _, _) => UnboundIsNullFree(sem, input, cols, c);
  }

  /** The confirmation is right about every plan that rebinds none of the columns it was asked about. */
  lemma ConfirmedIsNullFree(sem: Sem, p: Plan, cols: set<string>)
    requires WellFormed(p) && Confirms(p, cols) && !Rebinds(p, cols)
    ensures NullFree(Output(sem, p), cols)
  {
    hide Output;
    forall c | c in cols
      ensures Null !in Output(sem, p).col(c)
    {
      UnboundIsNullFree(sem, p, cols, c);
    }
  }

  /** In general it is right if every column it was asked about is clean by the plan, and where no node drops
      rows only then: a rebinding must be free of positive shifts and read clean columns only. */
  lemma ConfirmationExactly(sem: Sem, p: Plan, cols: set<string>)
    requires WellFormed(p) && Chained(p) && Confirms(p, cols)
    ensures (forall c | c in cols :: Clean(p, c)) ==> NullFree(Output(sem, p), cols)
    ensures KeepsRows(p) ==> (NullFree(Output(sem, p), cols) <==> forall c | c in cols :: Clean(p, c))
  {
    hide Output, Clean, KeepsRows;
    forall c | c in cols
      ensures Clean(p, c) ==> Null !in Output(sem, p).col(c)
      ensures KeepsRows(p) && Null !in Output(sem, p).col(c) ==> Clean(p, c)
    {
      CleanExactly(sem, p, c);
    }
  }

  /** A failing input: above `x = x.shift(w)` over a null-free scan the confirmation still holds, the bare
      column `x` runs unmasked, and NaN stands where Polars has null. */
  lemma ShadowedColumn(ctx: Ctx, n: nat, cells: seq<PCell>, w: nat)
    requires n == |cells| > 0 && Null !in cells && w > 0
    ensures var p := HStack(Plan.Scan(n, map["x" := cells]), "x", ShiftOf("x", w));
            var e, f := Column(0, "x"), Output(REFERENCE, p);
            WellFormed(p) && Chained(p) && KeepsRows(p) && Confirms(p, Reads(e)) && !Clean(p, "x")
            && RouteBinding(ctx, Confirms(p, Reads(e)), Reads(e), e).Unmasked?
            && f.n == n && PolarsColumn(REFERENCE, f, e)[0] == Null && At(DEval(FrameEnv(REFERENCE, f), e), 0) == NaN
  {
    var p := HStack(Plan.Scan(n, map["x" := cells]), "x", ShiftOf("x", w));
    var e, f, below := Column(0, "x"), Output(REFERENCE, p), Output(REFERENCE, p.input);
    assert Reads(e) == {"x"};
    ShiftOfIsChain("x", w);
    ShiftedOperand(REFERENCE, below, "x", w);
    assert f.col("x")[0] == Null;
    ColumnStart(f, e);
  }

  lemma ColumnStart(f: Frame, e: Expr)
    requires e.Column? && f.n > 0 && |f.col(e.name)| == f.n && f.col(e.name)[0] == Null
    ensures PolarsColumn(REFERENCE, f, e)[0] == Null && At(DEval(FrameEnv(REFERENCE, f), e), 0) == NaN
  {
    hide REFERENCE;
  }
}

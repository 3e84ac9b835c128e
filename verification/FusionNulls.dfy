/** Polars' meaning of an expression over nullable columns, what the device is handed in
    their place, and the laws of the two engines' arithmetic. */
module FusionNulls {
  import Comparisons
  import opened FusionIr
  import opened Options

  // ----- nullable columns -----

  datatype PCell = Null | Val(c: Cell)

  datatype PArr = PScalar(c: PCell) | PRows(cells: seq<PCell>)

  datatype Frame = Frame(n: nat, col: string -> seq<PCell>)

  ghost predicate FrameShape(frame: Frame) {
    forall c :: |frame.col(c)| == frame.n
  }

  function PAt(a: PArr, i: int): PCell {
    match a
    case PScalar(c) => c
    case PRows(cells) => if 0 <= i < |cells| then cells[i] else Null
  }

  function PCellsAt(args: seq<PArr>, i: int): (cells: seq<PCell>)
    ensures |cells| == |args|
  {
    seq(|args|, k requires 0 <= k < |args| => PAt(args[k], i))
  }

  predicate AnyPRows(args: seq<PArr>) {
    exists k | 0 <= k < |args| :: args[k].PRows?
  }

  function PElementwise(n: nat, f: seq<PCell> -> PCell, args: seq<PArr>): PArr {
    if AnyPRows(args) then PRows(seq(n, i => f(PCellsAt(args, i)))) else PScalar(f(PCellsAt(args, 0)))
  }

  /** Null-propagating application. */
  function Lift(f: seq<Cell> -> Cell, cells: seq<PCell>): PCell {
    if Null in cells then Null
    else Val(f(seq(|cells|, k requires 0 <= k < |cells| => if cells[k].Val? then cells[k].c else NaN)))
  }

  function Lifted(f: seq<Cell> -> Cell): seq<PCell> -> PCell {
    (cells: seq<PCell>) => Lift(f, cells)
  }

  /** Polars compares floats in total order: NaN equals itself and exceeds every number. */
  function TotalCompare(op: BinOp, a: Cell, b: Cell): bool {
    if a.Num? && b.Num? then Compare(op, a.x, b.x) else Comparisons.NanVerdict(Comparison(op), a.NaN?, b.NaN?)
  }

  function Comparison(op: BinOp): Comparisons.CmpOp {
    match op
    case Eq => Comparisons.Eq
    case Ne => Comparisons.Ne
    case Lt => Comparisons.Lt
    case Le => Comparisons.Le
    case Gt => Comparisons.Gt
    case _ => Comparisons.Ge
  }

  /** Kleene conjunction and disjunction. */
  function Kleene(op: BinOp, a: PCell, b: PCell): PCell {
    var dominant := op.LogicalOr?;
    if (a.Val? && Truthy(a.c) == dominant) || (b.Val? && Truthy(b.c) == dominant) then Val(Flag(dominant))
    else if a.Null? || b.Null? then Null
    else Val(Flag(!dominant))
  }

  function PBin(sem: Sem, op: BinOp): seq<PCell> -> PCell {
    (cells: seq<PCell>) =>
      if |cells| != 2 then Null
      else if IsLogical(op) then Kleene(op, cells[0], cells[1])
      else if cells[0].Null? || cells[1].Null? then Null
      else if IsCompare(op) then Val(Flag(TotalCompare(op, cells[0].c, cells[1].c)))
      else Val(sem.apply(Bin(op), [cells[0].c, cells[1].c]))
  }

  /** A null condition selects the else branch. */
  function PChoose(c: PCell, t: PCell, e: PCell): PCell {
    if c.Val? && Truthy(c.c) then t else e
  }

  function PWhere(n: nat, c: PArr, t: PArr, e: PArr): PArr {
    if AnyPRows([c, t, e]) then PRows(seq(n, i => PChoose(PAt(c, i), PAt(t, i), PAt(e, i))))
    else PScalar(PChoose(PAt(c, 0), PAt(t, 0), PAt(e, 0)))
  }

  /** A forward shift leaves nulls at the head. */
  function PShift(a: PArr, w: nat): PArr {
    match a
    case PScalar(c) => PScalar(if w == 0 then c else Null)
    case PRows(cells) => PRows(seq(|cells|, i requires 0 <= i < |cells| => if i < w then Null else cells[i - w]))
  }

  /** The running value after the non-null cells of a prefix, if there is one. */
  function Running(sem: Sem, op: ScanOp, cells: seq<PCell>): Option<Cell> {
    if cells == [] then None
    else
      var m := |cells| - 1;
      var acc := Running(sem, op, cells[..m]);
      if cells[m].Null? then acc
      else Some(if acc.None? then cells[m].c else sem.apply(Scan(op), [acc.value, cells[m].c]))
  }

  lemma {:induction false} RunningStarts(sem: Sem, op: ScanOp, cells: seq<PCell>)
    requires cells != [] && cells[|cells| - 1].Val?
    ensures Running(sem, op, cells).Some?
  {
  }

  /** Cumulative scans skip nulls and leave them in place. */
  function PScanAt(sem: Sem, op: ScanOp, cells: seq<PCell>, i: int): PCell
    requires 0 <= i < |cells|
  {
    var acc := Running(sem, op, cells[..i + 1]);
    if cells[i].Null? || acc.None? then Null else Val(acc.value)
  }

  function PScan(sem: Sem, op: ScanOp, a: PArr): PArr {
    match a
    case PScalar(c) => a
    case PRows(cells) => PRows(seq(|cells|, i requires 0 <= i < |cells| => PScanAt(sem, op, cells, i)))
  }

  // ----- meaning in Polars -----

  function PEval(sem: Sem, frame: Frame, e: Expr): PArr
    decreases e
  {
    match e
    case Column(_, name) => PRows(frame.col(name))
    case Literal(_, v) => PScalar(if v.NullLit? then Null else Val(Num(FloatOf(v))))
    case Binary(op, l, r) =>
      (match BinOpId(op)
       case Some(b) => PElementwise(frame.n, PBin(sem, b), [PEval(sem, frame, l), PEval(sem, frame, r)])
       case None => PScalar(Null))
    case Cast(_, arg) => PElementwise(frame.n, Lifted(Applied(sem, CastF32)), [PEval(sem, frame, arg)])
    case Ternary(c, t, f) => PWhere(frame.n, PEval(sem, frame, c), PEval(sem, frame, t), PEval(sem, frame, f))
    case Function(fn, args) =>
      if args == [] then PScalar(Null)
      else
        (match fn
         case ShiftFn =>
           PShift(PEval(sem, frame, args[0]), if ShiftOffset(args).Some? then ShiftOffset(args).value else 0)
         case Cumulative(op, _) => PScan(sem, op, PEval(sem, frame, args[0]))
         case LogFn => PElementwise(frame.n, Lifted(LogTo(sem, LogBase(args))), [PEval(sem, frame, args[0])])
         case PowFn => PElementwise(frame.n, Lifted(Applied(sem, Pow)), PEvalAll(sem, frame, args))
         case Mapped(op, d) => PElementwise(frame.n, Lifted(MappedTo(sem, op, d)), PEvalAll(sem, frame, args))
         case UnknownFn => PScalar(Null))
    case _ => PScalar(Null)
  }

  function PEvalAll(sem: Sem, frame: Frame, es: seq<Expr>): (vs: seq<PArr>)
    ensures |vs| == |es|
    decreases es
  {
    if es == [] then [] else [PEval(sem, frame, es[0])] + PEvalAll(sem, frame, es[1..])
  }

  function Applied(sem: Sem, op: OpId): seq<Cell> -> Cell {
    (cells: seq<Cell>) => sem.apply(op, cells)
  }

  function MappedTo(sem: Sem, op: PwOp, d: int): seq<Cell> -> Cell {
    (cells: seq<Cell>) => sem.mapped(op, d, cells)
  }

  function LogTo(sem: Sem, base: real): seq<Cell> -> Cell {
    (cells: seq<Cell>) => if |cells| == 1 then sem.log(base, cells[0]) else NaN
  }

  function LogBase(args: seq<Expr>): real {
    if |args| == 2 && args[1].Literal? && !args[1].value.NullLit? then FloatOf(args[1].value) else 1.0
  }

  // ----- what the device is handed -----

  function StageCell(c: PCell): Cell {
    match c
    case Null => NaN
    case Val(x) => x
  }

  function StageCells(cells: seq<PCell>): (out: seq<Cell>)
    ensures |out| == |cells|
  {
    seq(|cells|, i requires 0 <= i < |cells| => StageCell(cells[i]))
  }

  function ValidCells(cells: seq<PCell>): (out: seq<Cell>)
    ensures |out| == |cells|
  {
    seq(|cells|, i requires 0 <= i < |cells| => Flag(cells[i].Val?))
  }

  function FrameEnv(sem: Sem, frame: Frame): Env {
    Env(sem, frame.n, name => Rows(StageCells(frame.col(name))), name => Rows(ValidCells(frame.col(name))),
        {}, Scalar(NaN), name => Scalar(NaN))
  }

  // ----- laws of the two engines' arithmetic -----

  /** Operators that turn a NaN argument into NaN. `Pow` is not one: `NaN**0 == 1`. */
  predicate Strict(op: OpId) {
    match op
    case Bin(b) => !IsCompare(b) && !IsLogical(b)
    case Pw(_) => true
    case LogE => true
    case Log2 => true
    case Log10 => true
    case CastF32 => true
    case _ => false
  }

  ghost predicate StrictLaw(sem: Sem) {
    forall op: OpId, cells: seq<Cell> | Strict(op) && NaN in cells :: sem.apply(op, cells) == NaN
  }

  /** IEEE comparison: with a NaN operand only `!=` holds. */
  ghost predicate CompareLaw(sem: Sem) {
    forall op: BinOp, a: Cell, b: Cell | IsCompare(op) ::
      sem.apply(Bin(op), [a, b]) == Flag(if a.NaN? || b.NaN? then op.Ne? else Compare(op, a.x, b.x))
  }

  ghost predicate LogicalLaw(sem: Sem) {
    forall op: BinOp, a: Cell, b: Cell | IsLogical(op) ::
      sem.apply(Bin(op), [a, b]) ==
        Flag(if op.LogicalAnd? then Truthy(a) && Truthy(b) else Truthy(a) || Truthy(b))
  }

  /** Exact arithmetic where the null mask relies on it. */
  ghost predicate ArithmeticLaw(sem: Sem) {
    (forall a: real, b: real :: sem.apply(Bin(Mul), [Num(a), Num(b)]) == Num(a * b)) &&
    (forall c: Cell :: sem.apply(Scan(CumSum), [Num(0.0), c]) == c) &&
    (forall c: Cell :: sem.apply(Scan(CumSum), [c, Num(0.0)]) == c)
  }

  /** The engines compute the same functions, where the device operator has them. */
  ghost predicate FunctionLaw(sem: Sem) {
    (forall op: PwOp, d: int, cells: seq<Cell> | op.Round? ==> d == 0 :: sem.mapped(op, d, cells) == sem.apply(Pw(op), cells)) &&
    (forall c: Cell :: sem.log(NATURAL_BASE, c) == sem.apply(LogE, [c])) &&
    (forall c: Cell :: sem.log(2.0, c) == sem.apply(Log2, [c])) &&
    (forall c: Cell :: sem.log(10.0, c) == sem.apply(Log10, [c]))
  }

  ghost predicate Lawful(sem: Sem) {
    StrictLaw(sem) && CompareLaw(sem) && LogicalLaw(sem) && ArithmeticLaw(sem) && FunctionLaw(sem)
  }
}

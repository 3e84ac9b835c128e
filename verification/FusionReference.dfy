/** A lawful arithmetic over the reals, for concrete inputs. */
module FusionReference {
  import opened FusionIr
  import opened FusionNulls
  import opened Options

  function Arithmetic(op: BinOp, x: real, y: real): Cell {
    match op
    case Add => Num(x + y)
    case Sub => Num(x - y)
    case Mul => Num(x * y)
    case Div => if y == 0.0 then NaN else Num(x / y)
    case Eq => Flag(x == y)
    case Ne => Flag(x != y)
    case Lt => Flag(x < y)
    case Le => Flag(x <= y)
    case Gt => Flag(x > y)
    case Ge => Flag(x >= y)
    case LogicalAnd => Flag(x != 0.0 && y != 0.0)
    case LogicalOr => Flag(x != 0.0 || y != 0.0)
    case Mod => if y == 0.0 then NaN else Num(x - y * (x / y).Floor as real)
  }

  function RefBin(op: BinOp, a: Cell, b: Cell): Cell {
    if IsLogical(op) then Flag(if op.LogicalAnd? then Truthy(a) && Truthy(b) else Truthy(a) || Truthy(b))
    else if a.Num? && b.Num? then Arithmetic(op, a.x, b.x)
    else if IsCompare(op) then Flag(op.Ne?)
    else NaN
  }

  function RefScan(op: ScanOp, a: Cell, b: Cell): Cell {
    if a.NaN? || b.NaN? then NaN
    else
      match op
      case CumSum => Num(a.x + b.x)
      case CumProd => Num(a.x * b.x)
      case CumMax => if a.x < b.x then b else a
      case CumMin => if a.x < b.x then a else b
  }

  /** The nearest whole number, ties to the even one. */
  function HalfEven(x: real): int {
    var f := x.Floor;
    var rest := x - f as real;
    if rest < 0.5 then f else if rest > 0.5 then f + 1 else if f % 2 == 0 then f else f + 1
  }

  function Ten(d: int): (p: real)
    ensures p >= 1.0
  {
    if d <= 0 then 1.0 else 10.0 * Ten(d - 1)
  }

  /** The nearest number with `d` decimals. */
  function RoundTo(x: real, d: int): real {
    Reduced(HalfEven(Magnified(x, Ten(d))) as real, Ten(d))
  }

  function Magnified(x: real, p: real): real {
    x * p
  }

  function Reduced(x: real, p: real): real
    requires p >= 1.0
  {
    x / p
  }

  /** Arithmetic, comparisons, scans, the cast and rounding; every other function gives NaN. */
  function RefApply(op: OpId, cells: seq<Cell>): Cell {
    match op
    case Bin(b) => if |cells| == 2 then RefBin(b, cells[0], cells[1]) else NaN
    case Scan(s) => if |cells| == 2 then RefScan(s, cells[0], cells[1]) else NaN
    case CastF32 => if |cells| == 1 then cells[0] else NaN
    case Pw(Round) => RefRound(0, cells)
    case _ => NaN
  }

  function RefRound(decimals: int, cells: seq<Cell>): Cell {
    if |cells| == 1 && cells[0].Num? then Num(RoundTo(cells[0].x, decimals)) else NaN
  }

  function RefMapped(op: PwOp, decimals: int, cells: seq<Cell>): Cell {
    if op.Round? then RefRound(decimals, cells) else NaN
  }

  function RefLog(base: real, c: Cell): Cell {
    NaN
  }

  const REFERENCE: Sem := Sem(RefApply, RefMapped, RefLog)

  lemma StrictReference()
    ensures StrictLaw(REFERENCE)
  {
    forall op: OpId, cells: seq<Cell> | Strict(op) && NaN in cells
      ensures RefApply(op, cells) == NaN
    {
      assert |cells| == 1 ==> cells[0] == NaN;
      assert |cells| == 2 ==> cells[0] == NaN || cells[1] == NaN;
    }
  }

  lemma BinReference(op: BinOp, a: Cell, b: Cell)
    ensures REFERENCE.apply(Bin(op), [a, b]) == RefBin(op, a, b)
  {
    hide RefBin;
  }

  lemma ComparedReference(op: BinOp, a: Cell, b: Cell)
    requires IsCompare(op)
    ensures REFERENCE.apply(Bin(op), [a, b]) == Flag(if a.NaN? || b.NaN? then op.Ne? else Compare(op, a.x, b.x))
  {
    hide RefApply, REFERENCE;
    BinReference(op, a, b);
  }

  lemma CompareReference()
    ensures CompareLaw(REFERENCE)
  {
    hide RefApply, REFERENCE, Compare;
    forall op: BinOp, a: Cell, b: Cell | IsCompare(op)
      ensures REFERENCE.apply(Bin(op), [a, b]) == Flag(if a.NaN? || b.NaN? then op.Ne? else Compare(op, a.x, b.x))
    {
      ComparedReference(op, a, b);
    }
  }

  lemma LogicalReference()
    ensures LogicalLaw(REFERENCE)
  {
    forall op: BinOp, a: Cell, b: Cell | IsLogical(op)
      ensures REFERENCE.apply(Bin(op), [a, b]) ==
        Flag(if op.LogicalAnd? then Truthy(a) && Truthy(b) else Truthy(a) || Truthy(b))
    {
      hide RefApply, REFERENCE;
      BinReference(op, a, b);
    }
  }

  lemma SumReference(c: Cell)
    ensures REFERENCE.apply(Scan(CumSum), [Num(0.0), c]) == c == REFERENCE.apply(Scan(CumSum), [c, Num(0.0)])
  {
  }

  lemma ArithmeticReference()
    ensures ArithmeticLaw(REFERENCE)
  {
    forall a: real, b: real
      ensures REFERENCE.apply(Bin(Mul), [Num(a), Num(b)]) == Num(a * b)
    {
      hide RefApply, REFERENCE;
      BinReference(Mul, Num(a), Num(b));
    }
    forall c: Cell
      ensures REFERENCE.apply(Scan(CumSum), [Num(0.0), c]) == c == REFERENCE.apply(Scan(CumSum), [c, Num(0.0)])
    {
      SumReference(c);
    }
  }

  lemma FunctionReference()
    ensures FunctionLaw(REFERENCE)
  {
  }

  lemma ReferenceIsLawful()
    ensures Lawful(REFERENCE)
  {
    hide StrictLaw, CompareLaw, LogicalLaw, ArithmeticLaw, FunctionLaw, REFERENCE;
    StrictReference();
    CompareReference();
    LogicalReference();
    ArithmeticReference();
    FunctionReference();
  }
}

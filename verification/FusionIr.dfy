/** The expression IR that the fusion analyzer walks, the arrays the fused graph runs
    over, and the meaning of an expression on the device. */
module FusionIr {
  import opened Options

  // ----- operators -----

  datatype BinOp = Add | Sub | Mul | Div | Mod | Eq | Ne | Lt | Le | Gt | Ge | LogicalAnd | LogicalOr

  /** Polars' operator names, as the IR reports them. */
  datatype BinName =
    | Plus | Minus | Multiply | Divide | TrueDivide | Modulus
    | EqName | NotEq | LtName | LtEq | GtName | GtEq | And | Or | OtherName

  /** Unary and binary functions that map one name to one device operator. */
  datatype PwOp =
    | Sin | Cos | Tan | Sinh | Cosh | Tanh | Asin | Acos | Atan | Atan2
    | Exp | Sqrt | Cbrt | Abs | Neg | Floor | Ceil | Round

  datatype ScanOp = CumSum | CumProd | CumMax | CumMin

  datatype OpId =
    | Bin(bin: BinOp) | Pw(pw: PwOp) | Pow | LogE | Log2 | Log10 | CastF32
    | Where | Shift | Take | Scan(scan: ScanOp)

  function BinOpId(name: BinName): Option<BinOp> {
    match name
    case Plus => Some(Add)
    case Minus => Some(Sub)
    case Multiply => Some(Mul)
    case Divide => Some(Div)
    case TrueDivide => Some(Div)
    case Modulus => Some(Mod)
    case EqName => Some(Eq)
    case NotEq => Some(Ne)
    case LtName => Some(Lt)
    case LtEq => Some(Le)
    case GtName => Some(Gt)
    case GtEq => Some(Ge)
    case And => Some(LogicalAnd)
    case Or => Some(LogicalOr)
    case OtherName => None
  }

  predicate IsCompare(op: BinOp) {
    op.Eq? || op.Ne? || op.Lt? || op.Le? || op.Gt? || op.Ge?
  }

  predicate IsLogical(op: BinOp) {
    op.LogicalAnd? || op.LogicalOr?
  }

  /** Comparisons that are false when an operand is NaN. */
  predicate NanFalse(op: BinOp) {
    IsCompare(op) && !op.Ne?
  }

  // ----- expressions -----

  datatype LitVal = IntLit(i: int) | FloatLit(x: real) | BoolLit(b: bool) | NullLit

  /** Python's `float(value)`. */
  function FloatOf(v: LitVal): real
    requires !v.NullLit?
  {
    match v
    case IntLit(i) => i as real
    case FloatLit(x) => x
    case BoolLit(b) => if b then 1.0 else 0.0
  }

  /** `function_data`: the name, and the parameters that follow it. */
  datatype FnName =
    | ShiftFn
    | LogFn
    | PowFn
    | Mapped(op: PwOp, decimals: int)
    | Cumulative(scan: ScanOp, reverse: bool)
    | UnknownFn

  /** An IR expression. A leaf carries its arena id, because the analyzer's leaf table is
      keyed by it; `Opaque` is a node the traverser cannot view, or one no pass accepts, such as an
      aggregation (the IR names them in lower case, the table of reductions does not). */
  datatype Expr =
    | Opaque
    | Column(id: nat, name: string)
    | Literal(id: nat, value: LitVal)
    | Binary(op: BinName, left: Expr, right: Expr)
    | Cast(toF32: bool, arg: Expr)
    | Function(fn: FnName, args: seq<Expr>)
    | Ternary(cond: Expr, yes: Expr, no: Expr)

  /** Node count, padded so that any list of a node's children weighs less than the node. */
  function Size(e: Expr): nat
    decreases e
  {
    match e
    case Binary(_, l, r) => 5 + Size(l) + Size(r)
    case Cast(_, arg) => 5 + Size(arg)
    case Function(_, args) => 5 + SizeAll(args)
    case Ternary(c, t, f) => 5 + Size(c) + Size(t) + Size(f)
    case _ => 1
  }

  function SizeAll(es: seq<Expr>): nat
    decreases es
  {
    if es == [] then 0 else 1 + Size(es[0]) + SizeAll(es[1..])
  }

  lemma SizeOfChildren(e: Expr)
    ensures e.Binary? ==> SizeAll([e.left, e.right]) < Size(e)
    ensures e.Cast? ==> SizeAll([e.arg]) < Size(e)
    ensures e.Ternary? ==> SizeAll([e.cond, e.yes, e.no]) < Size(e)
    ensures e.Function? ==> SizeAll(e.args) < Size(e)
    ensures e.Function? && e.args != [] ==> SizeAll([e.args[0]]) < Size(e)
  {
    if e.Binary? {
      SizeCons(e.right, []);
      assert [e.right] + [] == [e.right];
      SizeCons(e.left, [e.right]);
      assert [e.left] + [e.right] == [e.left, e.right];
    } else if e.Cast? {
      SizeCons(e.arg, []);
      assert [e.arg] + [] == [e.arg];
    } else if e.Ternary? {
      SizeCons(e.no, []);
      assert [e.no] + [] == [e.no];
      SizeCons(e.yes, [e.no]);
      assert [e.yes] + [e.no] == [e.yes, e.no];
      SizeCons(e.cond, [e.yes, e.no]);
      assert [e.cond] + [e.yes, e.no] == [e.cond, e.yes, e.no];
    } else if e.Function? && e.args != [] {
      SizeCons(e.args[0], []);
      assert [e.args[0]] + [] == [e.args[0]];
    }
  }

  lemma SizeCons(x: Expr, es: seq<Expr>)
    ensures SizeAll([x] + es) == 1 + Size(x) + SizeAll(es)
  {
    assert ([x] + es)[1..] == es;
  }

  /** `_shift_offset`: a forward shift by a non-negative integer literal, or abort. */
  function ShiftOffset(args: seq<Expr>): Option<nat> {
    if |args| != 2 || !args[1].Literal? || !args[1].value.IntLit? || args[1].value.i < 0 then None
    else Some(args[1].value.i)
  }

  const NATURAL_BASE := 2.718281828459045

  /** The device operator for `log(x, base)`. */
  function LogOp(args: seq<Expr>): Option<OpId> {
    if |args| != 2 || !args[1].Literal? || args[1].value.NullLit? then None
    else
      var base := FloatOf(args[1].value);
      if -0.000000001 < base - NATURAL_BASE < 0.000000001 then Some(LogE)
      else if base == 2.0 then Some(Log2)
      else if base == 10.0 then Some(Log10)
      else None
  }

  // ----- device arrays -----

  datatype Cell = NaN | Num(x: real)

  /** A length-one array that broadcasts, or one cell per row. */
  datatype Arr = Scalar(c: Cell) | Rows(cells: seq<Cell>)

  function At(a: Arr, i: int): Cell {
    match a
    case Scalar(c) => c
    case Rows(cells) => if 0 <= i < |cells| then cells[i] else NaN
  }

  function CellsAt(args: seq<Arr>, i: int): (cells: seq<Cell>)
    ensures |cells| == |args|
  {
    seq(|args|, k requires 0 <= k < |args| => At(args[k], i))
  }

  predicate AnyRows(args: seq<Arr>) {
    exists k | 0 <= k < |args| :: args[k].Rows?
  }

  function Flag(b: bool): Cell {
    Num(if b then 1.0 else 0.0)
  }

  predicate Truthy(c: Cell) {
    c != Num(0.0)
  }

  function Compare(op: BinOp, a: real, b: real): bool {
    match op
    case Eq => a == b
    case Ne => a != b
    case Lt => a < b
    case Le => a <= b
    case Gt => a > b
    case _ => a >= b
  }

  /** The arithmetic of both engines, left uninterpreted: the device operators, and the
      Polars functions that take parameters besides their arguments. */
  datatype Sem = Sem(
    apply: (OpId, seq<Cell>) -> Cell,
    mapped: (PwOp, int, seq<Cell>) -> Cell,
    log: (real, Cell) -> Cell)

  /** One output row per input row, broadcasting; all-scalar inputs stay scalar. */
  function Elementwise(sem: Sem, n: nat, op: OpId, args: seq<Arr>): Arr {
    if AnyRows(args) then Rows(seq(n, i => sem.apply(op, CellsAt(args, i))))
    else Scalar(sem.apply(op, CellsAt(args, 0)))
  }

  function WhereArr(n: nat, c: Arr, t: Arr, e: Arr): Arr {
    if AnyRows([c, t, e]) then Rows(seq(n, i => if Truthy(At(c, i)) then At(t, i) else At(e, i)))
    else if Truthy(At(c, 0)) then t else e
  }

  /** `mlx_shift`: forward by `w`, zero-filled. */
  function ShiftArr(a: Arr, w: nat): Arr {
    match a
    case Scalar(c) => Scalar(if w == 0 then c else Num(0.0))
    case Rows(cells) => Rows(seq(|cells|, i requires 0 <= i < |cells| => if i < w then Num(0.0) else cells[i - w]))
  }

  /** Inclusive forward scan; `op` also names the combining operator. */
  function ScanCells(sem: Sem, op: ScanOp, cells: seq<Cell>): (out: seq<Cell>)
    ensures |out| == |cells|
  {
    if cells == [] then []
    else
      var m := |cells| - 1;
      var before := ScanCells(sem, op, cells[..m]);
      before + [if m == 0 then cells[0] else sem.apply(Scan(op), [before[m - 1], cells[m]])]
  }

  function ScanArr(sem: Sem, op: ScanOp, a: Arr): Arr {
    match a
    case Scalar(c) => a
    case Rows(cells) => Rows(ScanCells(sem, op, cells))
  }

  /** `mlx_take`: `out[i] = source[index[i]]`, the index cast to an integer. */
  function TakeArr(source: Arr, index: Arr): Arr {
    match index
    case Scalar(k) => Scalar(TakeCell(source, k))
    case Rows(ks) => Rows(seq(|ks|, i requires 0 <= i < |ks| => TakeCell(source, ks[i])))
  }

  function TakeCell(source: Arr, k: Cell): Cell {
    if k.NaN? then NaN else At(source, k.x.Floor)
  }

  // ----- meaning on the device -----

  /** What the executor is handed: the row count, the staged columns, and, for a resident
      gather, the key and the short dimension columns it replaces joined columns by. */
  datatype Env = Env(
    sem: Sem,
    n: nat,
    col: string -> Arr,
    valid: string -> Arr,
    gatherCols: set<string>,
    key: Arr,
    dim: string -> Arr)

  function ColumnValue(env: Env, name: string): Arr {
    if name in env.gatherCols then TakeArr(env.dim(name), env.key) else env.col(name)
  }

  function DEval(env: Env, e: Expr): Arr
    decreases e
  {
    match e
    case Column(_, name) => ColumnValue(env, name)
    case Literal(_, v) => Scalar(if v.NullLit? then NaN else Num(FloatOf(v)))
    case Binary(op, l, r) =>
      (match BinOpId(op)
       case Some(b) => Elementwise(env.sem, env.n, Bin(b), [DEval(env, l), DEval(env, r)])
       case None => Scalar(NaN))
    case Cast(_, arg) => Elementwise(env.sem, env.n, CastF32, [DEval(env, arg)])
    case Ternary(c, t, f) => WhereArr(env.n, DEval(env, c), DEval(env, t), DEval(env, f))
    case Function(fn, args) =>
      if args == [] then Elementwise(env.sem, env.n, FnOp(fn, args), [])
      else
        (match fn
         case ShiftFn =>
           ShiftArr(DEval(env, args[0]), if ShiftOffset(args).Some? then ShiftOffset(args).value else 0)
         case Cumulative(op, _) => ScanArr(env.sem, op, DEval(env, args[0]))
         case LogFn => Elementwise(env.sem, env.n, FnOp(fn, args), [DEval(env, args[0])])
         case _ => Elementwise(env.sem, env.n, FnOp(fn, args), DEvalAll(env, args)))
    case _ => Scalar(NaN)
  }

  function DEvalAll(env: Env, es: seq<Expr>): (vs: seq<Arr>)
    ensures |vs| == |es|
    decreases es
  {
    if es == [] then [] else [DEval(env, es[0])] + DEvalAll(env, es[1..])
  }

  /** The operator pushed for a function node. */
  function FnOp(fn: FnName, args: seq<Expr>): OpId {
    match fn
    case ShiftFn => Shift
    case LogFn => if LogOp(args).Some? then LogOp(args).value else LogE
    case PowFn => Pow
    case Mapped(op, _) => Pw(op)
    case Cumulative(op, _) => Scan(op)
    case UnknownFn => CastF32
  }
}

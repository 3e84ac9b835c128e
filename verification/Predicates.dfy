/** Filter predicates over nullable integer, float and Boolean columns: the walker's closed set, its
    evaluation on (data, validity) bitmaps, and three-valued logic as the specification. */
module Predicates {
  import opened BitArith
  import opened Comparisons
  import opened FilterCompaction
  import opened NullBitmap
  import opened Options

  // ----- expressions and their meaning -----

  datatype LogicalOp = And | Or

  datatype Operator = CmpWith(cmp: CmpOp) | LogicalWith(logical: LogicalOp) | OtherOperator

  datatype LiteralValue = IntValue(i: int) | FloatValue(x: Bits) | BoolValue(b: bool) | NullValue

  datatype Expr =
    | Column(name: string)
    | Literal(value: LiteralValue)
    | Binary(op: Operator, left: Expr, right: Expr)
    | Unsupported

  /** The dtypes the kernels know, after widening narrow integers, dates and Float32. */
  datatype Tag = I64 | F64 | Bool

  /** A column's Arrow buffers. */
  datatype Buffer =
    | Ints(ints: seq<int>, valid: seq<Byte>)
    | Floats(floats: seq<Bits>, valid: seq<Byte>)
    | Bools(data: seq<Byte>, valid: seq<Byte>)
    | OtherBuffer

  /** The upstream frame. */
  datatype Frame = Frame(n: nat, buffer: string -> Buffer)

  predicate BufferShape(b: Buffer, n: nat) {
    (b.Ints? ==> |b.ints| == n) && (b.Floats? ==> |b.floats| == n) && (b.Bools? ==> |b.data| >= ValidityBytes(n)) &&
    (!b.OtherBuffer? ==> |b.valid| >= ValidityBytes(n))
  }

  ghost predicate FrameShape(f: Frame) {
    forall c :: BufferShape(f.buffer(c), f.n)
  }

  function TagOf(f: Frame, c: string): Option<Tag> {
    match f.buffer(c)
    case Ints(_, _) => Some(I64)
    case Floats(_, _) => Some(F64)
    case Bools(_, _) => Some(Bool)
    case OtherBuffer => None
  }

  /** What a comparison compares. */
  datatype Value = IntOf(i: int) | FloatOf(x: Bits)

  function ValueAt(f: Frame, c: string, i: nat): Option<Value> {
    match f.buffer(c)
    case Ints(d, v) => if GetValid(v, i) && i < |d| then Some(IntOf(d[i])) else None
    case Floats(d, v) => if GetValid(v, i) && i < |d| then Some(FloatOf(d[i])) else None
    case _ => None
  }

  function BoolAt(f: Frame, c: string, i: nat): Option<bool> {
    match f.buffer(c)
    case Bools(d, v) => if GetValid(v, i) then Some(GetValid(d, i)) else None
    case _ => None
  }

  /** How floats are ordered. */
  datatype Order = Ieee | Total

  /** A comparison is null if an operand is; operands without a common dtype have none. */
  function Verdict(order: Order, op: CmpOp, a: Option<Value>, b: Option<Value>): Option<bool> {
    match (a, b)
    case (Some(IntOf(x)), Some(IntOf(y))) => Some(CompareInts(op, x, y))
    case (Some(FloatOf(x)), Some(FloatOf(y))) =>
      Some(if order.Ieee? then IeeeCompare(op, x, y) else TotalCompare(op, x, y))
    case _ => None
  }

  /** Kleene's connectives: a dominant operand decides alone. */
  function Kleene(op: LogicalOp, a: Option<bool>, b: Option<bool>): Option<bool> {
    if a == Some(op.Or?) || b == Some(op.Or?) then Some(op.Or?)
    else if a.None? || b.None? then None
    else Some(op.And?)
  }

  function Operand(f: Frame, e: Expr, i: nat): Option<Value> {
    match e
    case Column(c) => ValueAt(f, c, i)
    case Literal(IntValue(v)) => Some(IntOf(v))
    case Literal(FloatValue(x)) => Some(FloatOf(x))
    case _ => None
  }

  /** What the predicate is at a row, in three-valued logic. */
  function Meaning(f: Frame, order: Order, e: Expr, i: nat): Option<bool> {
    match e
    case Column(c) => BoolAt(f, c, i)
    case Binary(LogicalWith(op), l, r) => Kleene(op, Meaning(f, order, l, i), Meaning(f, order, r, i))
    case Binary(CmpWith(op), l, r) => Verdict(order, op, Operand(f, l, i), Operand(f, r, i))
    case _ => None
  }

  // ----- what comparisons of columns are -----

  /** `a <op> b` for whole numbers. */
  predicate Satisfies(op: CmpOp, a: int, b: int) {
    (op == Eq && a == b) || (op == Ne && a != b) || (op == Lt && a < b) || (op == Le && a <= b) || (op == Gt && a > b) ||
    (op == Ge && a >= b)
  }

  function Verdicts(present: bool, verdict: bool): Option<bool> {
    if present then Some(verdict) else None
  }

  /** An integer column against a literal, on either side, and against another: null unless the bits are
      set, and then the comparison of the integers in the row. */
  lemma IntegerComparison(f: Frame, order: Order, op: CmpOp, c: string, d: string, v: int, i: nat)
    requires FrameShape(f) && f.buffer(c).Ints? && f.buffer(d).Ints? && i < f.n
    ensures var xs, ys := f.buffer(c).ints, f.buffer(d).ints;
            var here, there := BitSet(f.buffer(c).valid, i), BitSet(f.buffer(d).valid, i);
            Meaning(f, order, Binary(CmpWith(op), Column(c), Literal(IntValue(v))), i) == Verdicts(here, Satisfies(op, xs[i], v)) &&
            Meaning(f, order, Binary(CmpWith(op), Literal(IntValue(v)), Column(c)), i) == Verdicts(here, Satisfies(op, v, xs[i])) &&
            Meaning(f, order, Binary(CmpWith(op), Column(c), Column(d)), i) == Verdicts(here && there, Satisfies(op, xs[i], ys[i]))
  {
    hide BitSet, GetValid;
    ValidBit(f.buffer(c).valid, i);
    ValidBit(f.buffer(d).valid, i);
    assert BufferShape(f.buffer(c), f.n) && BufferShape(f.buffer(d), f.n);
  }

  /** A Boolean column is its bit where that is valid. */
  lemma BooleanMeaning(f: Frame, order: Order, c: string, i: nat)
    requires f.buffer(c).Bools?
    ensures Meaning(f, order, Column(c), i) == Verdicts(BitSet(f.buffer(c).valid, i), BitSet(f.buffer(c).data, i))
  {
    hide BitSet, GetValid;
    ValidBit(f.buffer(c).valid, i);
    ValidBit(f.buffer(c).data, i);
  }

  // ----- the two orders of floats -----

  predicate VerdictsMeet(op: CmpOp, a: Option<Value>, b: Option<Value>) {
    match (a, b)
    case (Some(FloatOf(x)), Some(FloatOf(y))) => OrdersMeet(op, x, y)
    case _ => true
  }

  /** No comparison meets a NaN on which the orders part at this row. */
  predicate Ordered(f: Frame, e: Expr, i: nat) {
    match e
    case Binary(LogicalWith(_), l, r) => Ordered(f, l, i) && Ordered(f, r, i)
    case Binary(CmpWith(op), l, r) => VerdictsMeet(op, Operand(f, l, i), Operand(f, r, i))
    case _ => true
  }

  /** A comparison is at a row the same in both orders exactly then. */
  lemma ComparisonOrderedExactly(f: Frame, op: CmpOp, l: Expr, r: Expr, i: nat)
    ensures var e := Binary(CmpWith(op), l, r); Meaning(f, Ieee, e, i) == Meaning(f, Total, e, i) <==> Ordered(f, e, i)
  {
    hide IeeeCompare, TotalCompare, OrdersMeet;
    var a, b := Operand(f, l, i), Operand(f, r, i);
    if a.Some? && b.Some? && a.value.FloatOf? && b.value.FloatOf? {
      OrdersMeetExactly(op, a.value.x, b.value.x);
    }
  }

  lemma {:induction false} OrderedAgrees(f: Frame, e: Expr, i: nat)
    requires Ordered(f, e, i)
    ensures Meaning(f, Ieee, e, i) == Meaning(f, Total, e, i)
    decreases e
  {
    match e
    case Binary(LogicalWith(op), l, r) =>
      OrderedAgrees(f, l, i);
      OrderedAgrees(f, r, i);
    case Binary(CmpWith(op), l, r) =>
      ComparisonOrderedExactly(f, op, l, r, i);
    case _ =>
  }

  // ----- the walker -----

  datatype Ast =
    | ColumnRef(name: string, tag: Tag)
    | LiteralI64(i: int)
    | LiteralF64(x: Bits)
    | LiteralBool(b: bool)
    | Cmp(op: CmpOp, lhs: Ast, rhs: Ast, tag: Tag)
    | Logical(logical: LogicalOp, lhs: Ast, rhs: Ast)

  function ResultTag(a: Ast): Tag {
    match a
    case ColumnRef(_, tag) => tag
    case LiteralI64(_) => I64
    case LiteralF64(_) => F64
    case _ => Bool
  }

  predicate IsLeaf(a: Ast) {
    !a.Cmp? && !a.Logical?
  }

  predicate IsLiteral(a: Ast) {
    a.LiteralI64? || a.LiteralF64? || a.LiteralBool?
  }

  /** `_walk_predicate`. */
  function Walk(f: Frame, e: Expr): Option<Ast> {
    match e
    case Column(c) => if TagOf(f, c).None? then None else Some(ColumnRef(c, TagOf(f, c).value))
    case Literal(BoolValue(b)) => Some(LiteralBool(b))
    case Literal(IntValue(i)) => Some(LiteralI64(i))
    case Literal(FloatValue(x)) => Some(LiteralF64(x))
    case Literal(NullValue) => None
    case Binary(LogicalWith(op), l, r) => WalkLogical(Walk(f, l), Walk(f, r), op)
    case Binary(CmpWith(op), l, r) => WalkCompare(Walk(f, l), Walk(f, r), op)
    case _ => None
  }

  function WalkLogical(lhs: Option<Ast>, rhs: Option<Ast>, op: LogicalOp): Option<Ast> {
    if lhs.None? || rhs.None? then None
    else if ResultTag(lhs.value) != Bool || ResultTag(rhs.value) != Bool then None
    else if lhs.value.LiteralBool? || rhs.value.LiteralBool? then None
    else Some(Logical(op, lhs.value, rhs.value))
  }

  function WalkCompare(lhs: Option<Ast>, rhs: Option<Ast>, op: CmpOp): Option<Ast> {
    if lhs.None? || rhs.None? then None
    else if !IsLeaf(lhs.value) || !IsLeaf(rhs.value) then None
    else
      var tag := ResultTag(lhs.value);
      if tag != ResultTag(rhs.value) || tag == Bool then None
      else if IsLiteral(lhs.value) && IsLiteral(rhs.value) then None
      else Some(Cmp(op, lhs.value, rhs.value, tag))
  }

  /** `_walk_filter`: the root must be Boolean and not a literal. */
  function WalkFilter(f: Frame, e: Expr): Option<Ast> {
    var a := Walk(f, e);
    if a.None? || ResultTag(a.value) != Bool || a.value.LiteralBool? then None else a
  }

  // ----- kernels: one thread per row, racing on shared words -----

  /** A pair of bitmaps, and how far each thread has come. */
  datatype RowMachine = RowMachine(data: seq<nat>, valid: seq<nat>, pc: seq<nat>)

  /** What a thread computes for its row. */
  type RowResult = nat -> Option<bool>

  /** Thread `gid`: OR the validity bit, then the data bit, each if it is set. */
  function RowStep(out: RowResult, m: RowMachine, gid: nat): (m': RowMachine)
    ensures |m'.data| == |m.data| && |m'.valid| == |m.valid| && |m'.pc| == |m.pc|
  {
    if gid >= |m.pc| || m.pc[gid] >= DONE then m
    else if out(gid).None? then m.(pc := m.pc[gid := DONE])
    else if m.pc[gid] == STORE then m.(valid := OrRow(m.valid, gid), pc := m.pc[gid := MARK])
    else m.(data := if out(gid).value then OrRow(m.data, gid) else m.data, pc := m.pc[gid := DONE])
  }

  ghost predicate RowsWritten(out: RowResult, m: RowMachine) {
    (forall r: nat :: WordBit(m.valid, r) <==> r < |m.pc| && m.pc[r] != STORE && out(r).Some?) &&
    forall r: nat :: WordBit(m.data, r) <==> r < |m.pc| && m.pc[r] == DONE && out(r) == Some(true)
  }

  lemma RowsWrittenStep(out: RowResult, m: RowMachine, gid: nat)
    requires RowsWritten(out, m) && |m.pc| <= 32 * |m.data| && |m.pc| <= 32 * |m.valid|
    requires forall g | 0 <= g < |m.pc| :: m.pc[g] <= DONE
    ensures RowsWritten(out, RowStep(out, m, gid))
  {
    hide WordBit, OrRow;
    var m' := RowStep(out, m, gid);
    if gid < |m.pc| && m.pc[gid] < DONE && out(gid).Some? {
      forall r: nat
        ensures WordBit(m'.valid, r) <==> r < |m'.pc| && m'.pc[r] != STORE && out(r).Some?
        ensures WordBit(m'.data, r) <==> r < |m'.pc| && m'.pc[r] == DONE && out(r) == Some(true)
      {
        OrSetsOne(m.valid, gid, r);
        OrSetsOne(m.data, gid, r);
      }
    }
  }

  lemma RowAdvanced(out: RowResult, m: RowMachine, gid: nat, taken: multiset<nat>)
    requires Advanced(m.pc, taken)
    ensures Advanced(RowStep(out, m, gid).pc, taken + multiset{gid})
  {
  }

  datatype Bitmaps = Bitmaps(data: seq<Byte>, valid: seq<Byte>)

  /** The bitmaps show `b` at row `i`; a null's data bit means nothing. */
  ghost predicate Shows(p: Bitmaps, i: nat, b: Option<bool>) {
    (GetValid(p.valid, i) <==> b.Some?) && (b.Some? ==> (GetValid(p.data, i) <==> b.value))
  }

  ghost predicate Sized(p: Bitmaps, n: nat) {
    |p.data| >= ValidityBytes(n) && |p.valid| >= ValidityBytes(n)
  }

  /** Any complete schedule of the threads leaves every row's result. */
  method LaunchRows(n: nat, out: RowResult, schedule: seq<nat>) returns (p: Bitmaps)
    requires Complete(n, schedule)
    ensures Sized(p, n) && forall i | 0 <= i < n :: Shows(p, i, out(i))
  {
    hide WordBit, Complete, BytesOf, RowStep, GetValid, MinWords, RowsWritten;
    var words := MinWords(n);
    var m := RowMachine(seq(words, i => 0), seq(words, i => 0), seq(n, i => STORE));
    RowsFresh(out, m);
    for t := 0 to |schedule|
      invariant |m.data| == words == |m.valid| && |m.pc| == n
      invariant Advanced(m.pc, multiset(schedule[..t])) && RowsWritten(out, m)
    {
      assert schedule[..t + 1] == schedule[..t] + [schedule[t]];
      RowAdvanced(out, m, schedule[t], multiset(schedule[..t]));
      RowsWrittenStep(out, m, schedule[t]);
      m := RowStep(out, m, schedule[t]);
    }
    assert schedule[..|schedule|] == schedule;
    AllDone(m.pc, schedule);
    p := Bitmaps(BytesOf(m.data), BytesOf(m.valid));
    RowsShown(n, out, m);
  }

  lemma RowsFresh(out: RowResult, m: RowMachine)
    requires (forall i | 0 <= i < |m.data| :: m.data[i] == 0) && (forall i | 0 <= i < |m.valid| :: m.valid[i] == 0)
    requires forall i | 0 <= i < |m.pc| :: m.pc[i] == STORE
    ensures RowsWritten(out, m) && Advanced(m.pc, multiset{})
  {
    forall r: nat
      ensures !WordBit(m.data, r) && !WordBit(m.valid, r)
    {
      ZeroBit(BitInWord(r));
    }
  }

  lemma RowsShown(n: nat, out: RowResult, m: RowMachine)
    requires RowsWritten(out, m) && |m.pc| == n && forall i | 0 <= i < n :: m.pc[i] == DONE
    ensures forall i | 0 <= i < n :: Shows(Bitmaps(BytesOf(m.data), BytesOf(m.valid)), i, out(i))
  {
    hide WordBit, BytesOf, GetValid;
    forall i | 0 <= i < n
      ensures Shows(Bitmaps(BytesOf(m.data), BytesOf(m.valid)), i, out(i))
    {
      ByteView(m.data, i);
      ByteView(m.valid, i);
    }
  }

  // ----- evaluation -----

  datatype EvalError = NotWired | BadLeaf | LiteralOverflow

  const I64_MIN: int := -0x8000_0000_0000_0000
  const I64_MAX: int := 0x7FFF_FFFF_FFFF_FFFF

  lemma SwappedVerdict(op: CmpOp, a: Option<Value>, b: Option<Value>)
    ensures Verdict(Ieee, op, a, b) == Verdict(Ieee, Swap(op), b, a)
  {
    hide IeeeCompare;
    if a.Some? && b.Some? && a.value.FloatOf? && b.value.FloatOf? {
      SwapMirrors(op, a.value.x, b.value.x);
    }
  }

  /** The bit logic of `bool_and` and `bool_or`, branch by branch. */
  function LogicalThread(op: LogicalOp, ld: bool, lv: bool, rd: bool, rv: bool): Option<bool> {
    if op.And? then
      if lv && !ld then Some(false)
      else if rv && !rd then Some(false)
      else if lv && ld && rv && rd then Some(true)
      else None
    else
      if lv && ld then Some(true)
      else if rv && rd then Some(true)
      else if lv && !ld && rv && !rd then Some(false)
      else None
  }

  function LeafValue(f: Frame, a: Ast, i: nat): Option<Value> {
    match a
    case ColumnRef(c, _) => ValueAt(f, c, i)
    case LiteralI64(v) => Some(IntOf(v))
    case LiteralF64(x) => Some(FloatOf(x))
    case _ => None
  }

  /** A comparison thread: null unless every column operand is valid. */
  function CompareThread(f: Frame, op: CmpOp, lhs: Ast, rhs: Ast, i: nat): Option<bool> {
    match (LeafValue(f, lhs, i), LeafValue(f, rhs, i))
    case (Some(IntOf(x)), Some(IntOf(y))) => Some(CompareInts(op, x, y))
    case (Some(FloatOf(x)), Some(FloatOf(y))) => Some(KernelCompare(op, x, y))
    case _ => None
  }

  lemma CompareThreadIsVerdict(f: Frame, op: CmpOp, lhs: Ast, rhs: Ast, i: nat)
    ensures CompareThread(f, op, lhs, rhs, i) == Verdict(Ieee, op, LeafValue(f, lhs, i), LeafValue(f, rhs, i))
  {
    hide IeeeCompare, KernelCompare;
    var a, b := LeafValue(f, lhs, i), LeafValue(f, rhs, i);
    if a.Some? && b.Some? && a.value.FloatOf? && b.value.FloatOf? {
      KernelIsIeee(op, a.value.x, b.value.x);
    }
  }

  /** The walked predicate's meaning. */
  function AstMeaning(f: Frame, order: Order, a: Ast, i: nat): Option<bool> {
    match a
    case ColumnRef(c, _) => BoolAt(f, c, i)
    case Cmp(op, l, r, _) => Verdict(order, op, LeafValue(f, l, i), LeafValue(f, r, i))
    case Logical(op, l, r) => Kleene(op, AstMeaning(f, order, l, i), AstMeaning(f, order, r, i))
    case _ => None
  }

  /** Integer literals fit 64 bits. */
  predicate Fits(a: Ast) {
    match a
    case LiteralI64(i) => I64_MIN <= i <= I64_MAX
    case Cmp(_, l, r, _) => Fits(l) && Fits(r)
    case Logical(_, l, r) => Fits(l) && Fits(r)
    case _ => true
  }

  /** The tags are the frame's, as the walker reads them off it. */
  predicate Tagged(f: Frame, a: Ast) {
    match a
    case ColumnRef(c, tag) => TagOf(f, c) == Some(tag)
    case Cmp(_, l, r, _) => Tagged(f, l) && Tagged(f, r)
    case Logical(_, l, r) => Tagged(f, l) && Tagged(f, r)
    case _ => true
  }

  predicate ScalarOperand(a: Ast, tag: Tag) {
    (tag == I64 && a.LiteralI64? && Fits(a)) || (tag == F64 && a.LiteralF64?)
  }

  /** What the evaluator can take without raising. */
  predicate Evaluable(a: Ast) {
    match a
    case ColumnRef(_, tag) => tag == Bool
    case Cmp(_, l, r, tag) =>
      tag != Bool && ((l.ColumnRef? && (r.ColumnRef? || ScalarOperand(r, tag))) || (r.ColumnRef? && ScalarOperand(l, tag)))
    case Logical(_, l, r) => Evaluable(l) && Evaluable(r)
    case _ => false
  }

  /** The walker keeps the meaning, and what it admits the evaluator takes unless a literal is too wide. */
  lemma {:induction false} WalkSound(f: Frame, order: Order, e: Expr, i: nat)
    ensures var a := Walk(f, e);
            a.Some? && ResultTag(a.value) == Bool && !a.value.LiteralBool? ==>
              Tagged(f, a.value) && (Evaluable(a.value) <==> Fits(a.value)) &&
              AstMeaning(f, order, a.value, i) == Meaning(f, order, e, i)
    decreases e
  {
    hide Verdict;
    match e
    case Binary(LogicalWith(op), l, r) =>
      WalkSound(f, order, l, i);
      WalkSound(f, order, r, i);
    case Binary(CmpWith(op), l, r) =>
      LeafWalk(f, l, i);
      LeafWalk(f, r, i);
    case _ =>
  }

  lemma LeafWalk(f: Frame, e: Expr, i: nat)
    ensures var a := Walk(f, e);
            a.Some? && IsLeaf(a.value) && ResultTag(a.value) != Bool ==>
              Tagged(f, a.value) && LeafValue(f, a.value, i) == Operand(f, e, i)
  {
  }

  /** `_evaluate_compare`: the column goes to the left, with the operator mirrored. */
  method EvaluateCompare(f: Frame, a: Ast, schedule: seq<nat>) returns (r: Result<Bitmaps, EvalError>)
    requires a.Cmp? && Complete(f.n, schedule)
    ensures r.Ok? <==> Evaluable(a)
    ensures r.Ok? ==> Sized(r.value, f.n) && forall i | 0 <= i < f.n :: Shows(r.value, i, AstMeaning(f, Ieee, a, i))
  {
    hide Complete, Sized, Shows, ValueAt, Verdict, CompareThread;
    var op, lhs, rhs := a.op, a.lhs, a.rhs;
    if IsLiteral(lhs) && rhs.ColumnRef? {
      lhs, rhs, op := rhs, lhs, Swap(op);
    }
    if !lhs.ColumnRef? {
      return Err(BadLeaf);
    }
    if a.tag == Bool {
      return Err(NotWired);
    }
    if !rhs.ColumnRef? && !(if a.tag == I64 then rhs.LiteralI64? else rhs.LiteralF64?) {
      return Err(BadLeaf);
    }
    if rhs.LiteralI64? && !(I64_MIN <= rhs.i <= I64_MAX) {
      return Err(LiteralOverflow);
    }
    var out: RowResult := (i: nat) => CompareThread(f, op, lhs, rhs, i);
    var p := LaunchRows(f.n, out, schedule);
    forall i | 0 <= i < f.n
      ensures Shows(p, i, AstMeaning(f, Ieee, a, i))
    {
      assert Shows(p, i, out(i));
      CompareThreadIsVerdict(f, op, lhs, rhs, i);
      SwappedVerdict(a.op, LeafValue(f, a.lhs, i), LeafValue(f, a.rhs, i));
    }
    return Ok(p);
  }

  lemma LogicalThreadIsKleene(op: LogicalOp, p: Bitmaps, q: Bitmaps, i: nat, a: Option<bool>, b: Option<bool>)
    requires Shows(p, i, a) && Shows(q, i, b)
    ensures LogicalThread(op, GetValid(p.data, i), GetValid(p.valid, i), GetValid(q.data, i), GetValid(q.valid, i)) == Kleene(op, a, b)
  {
    hide GetValid;
  }

  /** `_evaluate_predicate`, every kernel under any schedule of its threads: recursive evaluation
      on bitmaps is three-valued logic, row by row. */
  method EvaluatePredicate(f: Frame, a: Ast, order: seq<bool> -> seq<nat>, path: seq<bool>)
    returns (r: Result<Bitmaps, EvalError>)
    requires FrameShape(f) && Tagged(f, a) && forall p :: Complete(f.n, order(p))
    ensures r.Ok? <==> Evaluable(a)
    ensures r.Ok? ==> Sized(r.value, f.n) && forall i | 0 <= i < f.n :: Shows(r.value, i, AstMeaning(f, Ieee, a, i))
    decreases a
  {
    hide Complete, Sized, Shows, GetValid;
    match a
    case ColumnRef(c, tag) =>
      if tag != Bool {
        return Err(BadLeaf);
      }
      var p := Bitmaps(f.buffer(c).data, f.buffer(c).valid);
      BoolColumn(f, c, tag);
      return Ok(p);
    case Cmp(_, _, _, _) =>
      r := EvaluateCompare(f, a, order(path));
    case Logical(op, l, rhs) =>
      var p := EvaluatePredicate(f, l, order, path + [false]);
      if p.Err? {
        return p;
      }
      var q := EvaluatePredicate(f, rhs, order, path + [true]);
      if q.Err? {
        return q;
      }
      var x, y := p.value, q.value;
      var out: RowResult :=
        (i: nat) => LogicalThread(op, GetValid(x.data, i), GetValid(x.valid, i), GetValid(y.data, i), GetValid(y.valid, i));
      var both := LaunchRows(f.n, out, order(path));
      forall i | 0 <= i < f.n
        ensures Shows(both, i, AstMeaning(f, Ieee, a, i))
      {
        assert Shows(both, i, out(i));
        LogicalThreadIsKleene(op, x, y, i, AstMeaning(f, Ieee, l, i), AstMeaning(f, Ieee, rhs, i));
      }
      return Ok(both);
    case _ =>
      return Err(NotWired);
  }

  lemma BoolColumn(f: Frame, c: string, tag: Tag)
    requires FrameShape(f) && f.buffer(c).Bools?
    ensures var p := Bitmaps(f.buffer(c).data, f.buffer(c).valid);
            Sized(p, f.n) && forall i | 0 <= i < f.n :: Shows(p, i, AstMeaning(f, Ieee, ColumnRef(c, tag), i))
  {
  }

  // ----- which filters are taken -----

  predicate IntLeaf(f: Frame, e: Expr) {
    (e.Column? && f.buffer(e.name).Ints?) || (e.Literal? && e.value.IntValue?)
  }

  predicate FloatLeaf(f: Frame, e: Expr) {
    (e.Column? && f.buffer(e.name).Floats?) || (e.Literal? && e.value.FloatValue?)
  }

  /** Boolean columns, comparisons of two integers or two floats of which one at least is a column, and
      conjunctions and disjunctions of those. */
  predicate Admissible(f: Frame, e: Expr) {
    match e
    case Column(c) => f.buffer(c).Bools?
    case Binary(LogicalWith(_), l, r) => Admissible(f, l) && Admissible(f, r)
    case Binary(CmpWith(_), l, r) =>
      ((IntLeaf(f, l) && IntLeaf(f, r)) || (FloatLeaf(f, l) && FloatLeaf(f, r))) && (l.Column? || r.Column?)
    case _ => false
  }

  predicate LiteralsFit(e: Expr) {
    match e
    case Literal(IntValue(v)) => -0x8000_0000_0000_0000 <= v <= 0x7FFF_FFFF_FFFF_FFFF
    case Binary(_, l, r) => LiteralsFit(l) && LiteralsFit(r)
    case _ => true
  }

  lemma {:induction false} WalkedExactly(f: Frame, e: Expr)
    ensures WalkFilter(f, e).Some? <==> Admissible(f, e)
    ensures Walk(f, e).Some? ==> (Fits(Walk(f, e).value) <==> LiteralsFit(e))
    decreases e
  {
    match e
    case Binary(LogicalWith(op), l, r) =>
      WalkedExactly(f, l);
      WalkedExactly(f, r);
    case Binary(CmpWith(op), l, r) =>
      WalkedExactly(f, l);
      WalkedExactly(f, r);
    case _ =>
  }

  /** Those are the filters taken, if their integer literals fit 64 bits. */
  lemma FilterableExactly(f: Frame, e: Expr)
    ensures Filterable(f, e) <==> Admissible(f, e) && LiteralsFit(e)
  {
    WalkedExactly(f, e);
  }

  /** Accepted by the walker, and no literal too wide for the kernel's argument. */
  predicate Filterable(f: Frame, e: Expr) {
    WalkFilter(f, e).Some? && Fits(WalkFilter(f, e).value)
  }

  /** Filtering keeps exactly the rows at which the predicate is true: not those at which it is
      false, and not those at which it is null. */
  method FilterKeep(f: Frame, e: Expr, order: seq<bool> -> seq<nat>) returns (r: Option<Prefixed>)
    requires FrameShape(f) && f.n < U32 && forall p :: Complete(f.n, order(p))
    ensures r.Some? <==> Admissible(f, e) && LiteralsFit(e)
    ensures r.Some? ==>
      |r.value.keep| == f.n && TruePrefix(r.value.keep, r.value.prefix) && r.value.nOut == |KeptRows(r.value.keep, f.n)| &&
      forall i | 0 <= i < f.n :: r.value.keep[i] != 0 <==> Meaning(f, Ieee, e, i) == Some(true)
  {
    hide Complete, GetValid, AstMeaning, Meaning, Evaluable, Fits, KeptRows, TruePrefix, Walk, Tagged;
    FilterableExactly(f, e);
    var a := WalkFilter(f, e);
    if a.None? {
      return None;
    }
    forall i: nat
      ensures AstMeaning(f, Ieee, a.value, i) == Meaning(f, Ieee, e, i)
    {
      WalkSound(f, Ieee, e, i);
    }
    WalkSound(f, Ieee, e, 0);
    var p := EvaluatePredicate(f, a.value, order, []);
    if p.Err? {
      return None;
    }
    var pre := ComputeKeepAndPrefix(p.value.data, p.value.valid, f.n);
    return Some(pre.value);
  }

  /** The rows below `i` at which the predicate is true. */
  function TrueRows(f: Frame, order: Order, e: Expr, i: nat): seq<nat> {
    if i == 0 then []
    else TrueRows(f, order, e, i - 1) + (if Meaning(f, order, e, i - 1) == Some(true) then [i - 1] else [])
  }

  lemma {:induction false} KeptAreTrue(f: Frame, e: Expr, keep: seq<nat>, i: nat)
    requires i <= |keep| && forall k | 0 <= k < |keep| :: keep[k] != 0 <==> Meaning(f, Ieee, e, k) == Some(true)
    ensures KeptRows(keep, i) == TrueRows(f, Ieee, e, i)
  {
    hide Meaning;
    if i > 0 {
      KeptAreTrue(f, e, keep, i - 1);
    }
  }

  /** The kept rows are Polars' when no comparison meets a NaN on which the orders part. */
  lemma {:induction false} OrderedRows(f: Frame, e: Expr, i: nat)
    requires forall k: nat | k < i :: Ordered(f, e, k)
    ensures TrueRows(f, Ieee, e, i) == TrueRows(f, Total, e, i)
  {
    hide Meaning, Ordered;
    if i > 0 {
      OrderedRows(f, e, i - 1);
      OrderedAgrees(f, e, i - 1);
    }
  }

  /** For one comparison that is the exact condition. */
  lemma {:induction false} ComparisonRowsExactly(f: Frame, op: CmpOp, l: Expr, r: Expr, i: nat)
    ensures var e := Binary(CmpWith(op), l, r);
            TrueRows(f, Ieee, e, i) == TrueRows(f, Total, e, i) <==> forall k: nat | k < i :: Ordered(f, e, k)
  {
    hide Ordered, Meaning;
    var e := Binary(CmpWith(op), l, r);
    if i > 0 {
      ComparisonRowsExactly(f, op, l, r, i - 1);
      ComparisonOrderedExactly(f, op, l, r, i - 1);
      VerdictsNullTogether(f, op, l, r, i - 1);
      RowsBelow(f, Ieee, e, i - 1);
      RowsBelow(f, Total, e, i - 1);
      var a, b := Meaning(f, Ieee, e, i - 1), Meaning(f, Total, e, i - 1);
      LastRow(TrueRows(f, Ieee, e, i - 1), TrueRows(f, Total, e, i - 1), i - 1, a == Some(true), b == Some(true));
      SameTruth(a, b);
      assert (forall k: nat | k < i :: Ordered(f, e, k)) <==> (forall k: nat | k < i - 1 :: Ordered(f, e, k)) && Ordered(f, e, i - 1);
    }
  }

  lemma SameTruth(a: Option<bool>, b: Option<bool>)
    requires a.None? <==> b.None?
    ensures (a == Some(true) <==> b == Some(true)) <==> a == b
  {
    if a.Some? {
      var x, y := a.value, b.value;
      assert a == Some(x) && b == Some(y);
      assert x ==> a == Some(true);
      assert y ==> b == Some(true);
      assert !x ==> a == Some(false);
      assert !y ==> b == Some(false);
    }
  }

  lemma VerdictsNullTogether(f: Frame, op: CmpOp, l: Expr, r: Expr, i: nat)
    ensures var e := Binary(CmpWith(op), l, r); Meaning(f, Ieee, e, i).None? <==> Meaning(f, Total, e, i).None?
  {
  }

  lemma {:induction false} RowsBelow(f: Frame, order: Order, e: Expr, i: nat)
    ensures forall k | k in TrueRows(f, order, e, i) :: k < i
  {
    hide Meaning;
    if i > 0 {
      RowsBelow(f, order, e, i - 1);
    }
  }

  lemma LastRow(s: seq<nat>, t: seq<nat>, i: nat, a: bool, b: bool)
    requires (forall k | k in s :: k < i) && (forall k | k in t :: k < i)
    ensures (s + (if a then [i] else []) == t + (if b then [i] else [])) <==> (s == t && a == b)
  {
    var x, y := s + (if a then [i] else []), t + (if b then [i] else []);
    assert i in x <==> a;
    assert i in y <==> b;
    if x == y {
      assert s == x[..|x| - (if a then 1 else 0)];
      assert t == y[..|y| - (if b then 1 else 0)];
    }
  }

  /** The case in point: `x > 0` on a column holding one NaN, which Polars keeps. */
  lemma NanIsDropped(f: Frame, c: string)
    requires f.n == 1 && f.buffer(c) == Floats([QUIET_NAN], [1])
    ensures var e := Binary(CmpWith(Gt), Column(c), Literal(FloatValue(0)));
            Filterable(f, e) && TrueRows(f, Total, e, 1) == [0] && TrueRows(f, Ieee, e, 1) == []
  {
    var x, zero := Column(c), Literal(FloatValue(0));
    var e := Binary(CmpWith(Gt), x, zero);
    assert GetValid([1], 0) by {
      assert Pow2(0) == 1;
    }
    assert Operand(f, x, 0) == Some(FloatOf(QUIET_NAN)) && Operand(f, zero, 0) == Some(FloatOf(0));
    assert IsNan(QUIET_NAN) && !IsNan(0);
    assert Meaning(f, Total, e, 0) == Some(true) && Meaning(f, Ieee, e, 0) == Some(false);
    assert TrueRows(f, Total, e, 0) == [] == TrueRows(f, Ieee, e, 0);
    assert Walk(f, x) == Some(ColumnRef(c, F64)) && Walk(f, zero) == Some(LiteralF64(0));
    assert Walk(f, e) == Some(Cmp(Gt, ColumnRef(c, F64), LiteralF64(0), F64));
  }

  /** The slots of a column that the 64-bit scatter moves, whatever they stand for. */
  function Slots(b: Buffer): seq<int> {
    match b
    case Ints(d, _) => d
    case Floats(d, _) => d
    case _ => []
  }

  /** The whole filter of one integer or float column, whatever the thread orders of its kernels: the
      output is the column at the true rows, in source order, nulls included. */
  method FilterColumn(f: Frame, e: Expr, c: string, zero: int, sentinel: int, order: seq<bool> -> seq<nat>)
    returns (r: Option<Compacted<int>>)
    requires FrameShape(f) && 0 < f.n < U32 && sentinel != zero && forall p :: Complete(f.n, order(p))
    requires f.buffer(c).Ints? || f.buffer(c).Floats?
    ensures r.Some? <==> Admissible(f, e) && LiteralsFit(e)
    ensures r.Some? ==>
      var rows, column := TrueRows(f, Ieee, e, f.n), f.buffer(c);
      |r.value.data| == |rows| && forall k | 0 <= k < |rows| ::
        rows[k] < f.n && (BitSet(r.value.valid, k) <==> BitSet(column.valid, rows[k]))
    ensures r.Some? && f.buffer(c).Ints? ==>
      forall k | 0 <= k < |r.value.data| :: r.value.data[k] == f.buffer(c).ints[TrueRows(f, Ieee, e, f.n)[k]]
    ensures r.Some? && f.buffer(c).Floats? ==>
      forall k | 0 <= k < |r.value.data| :: r.value.data[k] == f.buffer(c).floats[TrueRows(f, Ieee, e, f.n)[k]]
  {
    hide Complete, Meaning, GetValid, Filterable, BitSet;
    var pre := FilterKeep(f, e, order);
    if pre.None? {
      return None;
    }
    KeptAreTrue(f, e, pre.value.keep, f.n);
    var out := Compact(Slots(f.buffer(c)), f.buffer(c).valid, pre.value, zero, sentinel, order([]));
    forall k: nat
      ensures GetValid(out.value.valid, k) <==> BitSet(out.value.valid, k)
      ensures GetValid(f.buffer(c).valid, k) <==> BitSet(f.buffer(c).valid, k)
    {
      ValidBit(out.value.valid, k);
      ValidBit(f.buffer(c).valid, k);
    }
    return Some(out.value);
  }
}

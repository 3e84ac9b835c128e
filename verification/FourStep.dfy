/** The recursive batched four-step FFT over packed power-of-two signals. */
module FourStep {
  import opened ComplexSums
  import opened FourierSpec
  import opened IndexArith
  import opened StockhamKernel

  const FFT_BASE_MAX: nat := 1024
  const FFT_MAX_RECURSION_DEPTH: nat := 6
  const MAX_POINTS: nat := 0x4000_0000

  /** A signal of length `len` seen as an `l1 x l2` matrix, row by row. */
  ghost predicate Shape(l1: int, l2: int, len: int) {
    l1 > 0 && l2 > 0 && len > 0 && len == l1 * l2
  }

  // ----- value-level meaning of the passes -----

  /** Every packed length-`len` signal replaced by its naive transform. */
  function BatchDft(d: seq<Complex>, len: int, w: Complex): (out: seq<Complex>)
    requires len > 0
    ensures |out| == |d|
  {
    seq(|d|, x => Dft(View(d, x / len * len), len, w, x % len))
  }

  /** Pass 1: length-`l1` transforms down the columns of each `l1 x l2` signal. */
  function Columns(d: seq<Complex>, l1: int, l2: int, len: int, w: Complex): (out: seq<Complex>)
    requires l1 > 0 && l2 > 0 && len > 0
    ensures |out| == |d|
  {
    seq(|d|, x => ColumnSample(d, l1, l2, len, w, x))
  }

  function ColumnSample(d: seq<Complex>, l1: int, l2: int, len: int, w: Complex, x: int): Complex
    requires l1 > 0 && l2 > 0 && len > 0
  {
    Dft(Strided(View(d, x / len * len), l2, x % l2), l1, Pow(w, l2), ColumnRow(l1, l2, x))
  }

  /** The row of position `x` within its signal. */
  function ColumnRow(l1: int, l2: int, x: int): (row: int)
    requires l1 > 0 && l2 > 0
    ensures 0 <= row < l1
  {
    x / l2 % l1
  }

  /** Pass 2: element `(i, j)` of each signal times `W_len^(i*j)`. */
  function Twiddled(d: seq<Complex>, l1: int, l2: int, w: Complex): (out: seq<Complex>)
    requires l1 > 0 && l2 > 0
    ensures |out| == |d|
  {
    seq(|d|, x requires 0 <= x < |d| => Mul(d[x], Pow(w, ColumnRow(l1, l2, x) * (x % l2))))
  }

  /** Position of element `(i, j)` of signal `s`, in a layout with rows of length `cols`. */
  function Flat(len: int, cols: int, s: int, i: int, j: int): int {
    s * len + (i * cols + j)
  }

  /** Row, column and signal of a flat index. */
  lemma Coordinates(l1: int, l2: int, len: int, s: int, i: int, j: int)
    requires Shape(l1, l2, len) && s >= 0 && 0 <= i < l1 && 0 <= j < l2
    ensures var x := Flat(len, l2, s, i, j);
            x / len == s && x % len == i * l2 + j && x % l2 == j && ColumnRow(l1, l2, x) == i
            && x == (s * l1 + i) * l2 + j && x / l2 == s * l1 + i
  {
    RowBound(i, j, l2, l1);
    DivMod(s, i * l2 + j, len);
    Associates(s, l1, l2);
    Distributes(s * l1, i, l2);
    MulNonNegative(s, l1);
    DivMod(s * l1 + i, j, l2);
    DivMod(s, i, l1);
  }

  lemma Decompose(l1: int, l2: int, len: int, batch: int, x: int) returns (s: int, i: int, j: int)
    requires Shape(l1, l2, len) && 0 <= x < batch * len
    ensures 0 <= s < batch && 0 <= i < l1 && 0 <= j < l2 && x == Flat(len, l2, s, i, j)
  {
    Split(x, len, batch);
    s := x / len;
    var rest := x % len;
    Split(rest, l2, l1);
    i, j := rest / l2, rest % l2;
  }

  lemma FlatBound(l1: int, l2: int, len: int, batch: int, s: int, i: int, j: int)
    requires Shape(l1, l2, len) && 0 <= s < batch && 0 <= i < l1 && 0 <= j < l2
    ensures 0 <= Flat(len, l2, s, i, j) < batch * len
  {
    RowBound(i, j, l2, l1);
    RowBound(s, i * l2 + j, len, batch);
  }

  lemma ShapeFlips(l1: int, l2: int, len: int)
    requires Shape(l1, l2, len)
    ensures Shape(l2, l1, len)
  {
  }

  /** Pass 4, as a relation: `out[s*len + j*l1 + i] == in[s*len + i*l2 + j]`. */
  ghost predicate Transposed(out: seq<Complex>, d: seq<Complex>, l1: int, l2: int, len: int, batch: int) {
    |out| == |d| && forall s, i, j {:trigger Flat(len, l2, s, i, j)} ::
      0 <= s < batch && 0 <= i < l1 && 0 <= j < l2 ==> TransposedAt(out, d, l1, l2, len, s, i, j)
  }

  ghost predicate TransposedAt(out: seq<Complex>, d: seq<Complex>, l1: int, l2: int, len: int, s: int, i: int, j: int) {
    var from, to := Flat(len, l2, s, i, j), Flat(len, l1, s, j, i);
    0 <= from < |d| && 0 <= to < |out| && out[to] == d[from]
  }

  // ----- one four-step level computes the naive transform -----

  lemma TwiddledSample(d: seq<Complex>, l1: int, l2: int, len: int, batch: int, w: Complex, s: int, p: int, j: int)
    requires Shape(l1, l2, len) && |d| == batch * len
    requires 0 <= s < batch && 0 <= p < l1 && 0 <= j < l2
    ensures 0 <= Flat(len, l2, s, p, j) < |d|
    ensures Twiddled(Columns(d, l1, l2, len, w), l1, l2, w)[Flat(len, l2, s, p, j)]
         == Mul(Dft(Strided(View(d, s * len), l2, j), l1, Pow(w, l2), p), Pow(w, p * j))
  {
    hide Mul, Pow, Dft, Strided, View, Flat, ColumnRow;
    FlatBound(l1, l2, len, batch, s, p, j);
    Coordinates(l1, l2, len, s, p, j);
  }

  lemma RowSample(d: seq<Complex>, l1: int, l2: int, len: int, batch: int, w: Complex, s: int, p: int, q: int)
    requires Shape(l1, l2, len) && |d| == batch * len && Pow(w, len) == ONE
    requires 0 <= s < batch && 0 <= p < l1 && 0 <= q < l2
    ensures Dft(View(Twiddled(Columns(d, l1, l2, len, w), l1, l2, w), (s * l1 + p) * l2), l2, Pow(w, l1), q)
         == Dft(View(d, s * len), len, w, q * l1 + p)
  {
    hide Mul, Pow, Dft, Strided, Twiddled, Columns, Flat;
    var z := Twiddled(Columns(d, l1, l2, len, w), l1, l2, w);
    var base := (s * l1 + p) * l2;
    var g := View(z, base);
    var f := View(d, s * len);
    forall j | 0 <= j < l2
      ensures g(j) == Mul(Dft(Strided(f, l2, j), l1, Pow(w, l2), p), Pow(w, p * j))
    {
      TwiddledSample(d, l1, l2, len, batch, w, s, p, j);
      Coordinates(l1, l2, len, s, p, j);
    }
    assert l1 * l2 == l2 * l1;
    Decimation(f, l2, l1, w, p, q, g);
    assert l1 * q == q * l1;
  }

  lemma FourStepSample(d: seq<Complex>, rows: seq<Complex>, out: seq<Complex>,
                       l1: int, l2: int, len: int, batch: int, w: Complex, s: int, p: int, q: int)
    requires Shape(l1, l2, len) && |d| == batch * len && Pow(w, len) == ONE
    requires rows == BatchDft(Twiddled(Columns(d, l1, l2, len, w), l1, l2, w), l2, Pow(w, l1))
    requires Transposed(out, rows, l1, l2, len, batch)
    requires 0 <= s < batch && 0 <= p < l1 && 0 <= q < l2
    ensures 0 <= Flat(len, l1, s, q, p) < |out|
    ensures out[Flat(len, l1, s, q, p)] == Dft(View(d, s * len), len, w, q * l1 + p)
  {
    hide Mul, Pow, Dft, Twiddled, Columns, View, Flat;
    Coordinates(l1, l2, len, s, p, q);
    RowSample(d, l1, l2, len, batch, w, s, p, q);
    assert TransposedAt(out, rows, l1, l2, len, s, p, q);
  }

  /** The four passes of one level, with the row pass given as the batched transform of
      the `batch*l1` rows, leave every packed signal equal to its naive transform. */
  lemma FourStepLevel(d: seq<Complex>, rows: seq<Complex>, out: seq<Complex>,
                      l1: int, l2: int, len: int, batch: int, w: Complex)
    requires Shape(l1, l2, len) && |d| == batch * len && Pow(w, len) == ONE
    requires rows == BatchDft(Twiddled(Columns(d, l1, l2, len, w), l1, l2, w), l2, Pow(w, l1))
    requires Transposed(out, rows, l1, l2, len, batch)
    ensures out == BatchDft(d, len, w)
  {
    hide Mul, Pow, Dft, Columns, Twiddled, TransposedAt, Flat;
    ShapeFlips(l1, l2, len);
    forall x | 0 <= x < |out|
      ensures out[x] == BatchDft(d, len, w)[x]
    {
      var s, q, p := Decompose(l2, l1, len, batch, x);
      Coordinates(l2, l1, len, s, q, p);
      FourStepSample(d, rows, out, l1, l2, len, batch, w, s, p, q);
    }
  }

  // ----- the passes as they run, in place on shared buffers -----

  /** Base case: one threadgroup per packed signal. */
  method BasePass(data: array<Complex>, len: int, batch: int, w: Complex)
    requires len > 0 && batch >= 0 && data.Length == batch * len && HalfTurn(w, len)
    modifies data
    ensures data[..] == BatchDft(old(data[..]), len, w)
  {
    hide Mul, Pow, Dft, HalfTurn;
    ghost var before := data[..];
    var s := 0;
    while s < batch
      invariant 0 <= s <= batch
      invariant forall x | 0 <= x < data.Length ::
        data[x] == if x / len < s then BatchDft(before, len, w)[x] else before[x]
    {
      BaseSignal(data, len, batch, w, s, before);
      s := s + 1;
    }
    forall x | 0 <= x < data.Length
      ensures x / len < batch
    {
      Split(x, len, batch);
    }
  }

  /** Threadgroup `s` of the base pass: load, transform in threadgroup memory, store. */
  method BaseSignal(data: array<Complex>, len: int, batch: int, w: Complex, s: int, ghost before: seq<Complex>)
    requires len > 0 && 0 <= s < batch && data.Length == batch * len == |before| && HalfTurn(w, len)
    requires forall x | 0 <= x < data.Length && x / len == s :: data[x] == before[x]
    modifies data
    ensures forall x | 0 <= x < data.Length ::
      data[x] == if x / len == s then BatchDft(before, len, w)[x] else old(data[x])
  {
    hide Mul, Pow, Dft, HalfTurn;
    var base := s * len;
    MulNonNegative(s, len);
    RowBound(s, len - 1, len, batch);
    var a := new Complex[len](i requires 0 <= i < len && 0 <= base + i < data.Length reads data => data[base + i]);
    var b := new Complex[len](i => ZERO);
    forall t | 0 <= t < len
      ensures View(a[..], 0)(t) == View(before, base)(t)
    {
      DivMod(s, t, len);
    }
    ghost var loaded := View(a[..], 0);
    StockhamPow2(a, b, w);
    forall t | 0 <= t < len {
      data[base + t] := a[t];
    }
    forall x | 0 <= x < data.Length
      ensures data[x] == if x / len == s then BatchDft(before, len, w)[x] else old(data[x])
    {
      RowOf(x, len, s);
      if x / len == s {
        Quotient(x, len, s);
        DftCong(loaded, View(before, base), len, w, x % len);
      }
    }
  }

  /** The threadgroup that owns position `x` in the column pass: `signal * l2 + column`. */
  function ColumnGroup(l2: int, len: int, x: int): int
    requires l2 > 0 && len > 0
  {
    x / len * l2 + x % l2
  }

  lemma GroupOf(l1: int, l2: int, len: int, s: int, i: int, j: int)
    requires Shape(l1, l2, len) && s >= 0 && 0 <= i < l1 && 0 <= j < l2
    ensures ColumnGroup(l2, len, Flat(len, l2, s, i, j)) == s * l2 + j
    ensures ColumnRow(l1, l2, Flat(len, l2, s, i, j)) == i
  {
    hide Flat, ColumnRow;
    Coordinates(l1, l2, len, s, i, j);
  }

  lemma OwnedColumn(l1: int, l2: int, len: int, batch: int, g: int, x: int)
    requires Shape(l1, l2, len) && 0 <= x < batch * len && ColumnGroup(l2, len, x) == g
    ensures 0 <= g < batch * l2 && x / len == g / l2 && x % l2 == g % l2
    ensures x == Flat(len, l2, g / l2, ColumnRow(l1, l2, x), g % l2)
  {
    hide Flat, ColumnGroup, ColumnRow;
    var s, i, j := Decompose(l1, l2, len, batch, x);
    Coordinates(l1, l2, len, s, i, j);
    GroupOf(l1, l2, len, s, i, j);
    DivMod(s, j, l2);
    RowBound(s, j, l2, batch);
  }

  /** Pass 1: threadgroup `g` loads its column whole, transforms it and stores it back. */
  method ColumnPass(data: array<Complex>, l1: int, l2: int, len: int, batch: int, w: Complex)
    requires Shape(l1, l2, len) && batch >= 0 && data.Length == batch * len && HalfTurn(Pow(w, l2), l1)
    modifies data
    ensures data[..] == Columns(old(data[..]), l1, l2, len, w)
  {
    hide Mul, Pow, Dft, HalfTurn, Flat, ColumnGroup, ColumnRow, ColumnSample;
    ghost var before := data[..];
    var groups := batch * l2;
    MulNonNegative(batch, l2);
    forall x | 0 <= x < data.Length
      ensures 0 <= ColumnGroup(l2, len, x) < groups
    {
      OwnedColumn(l1, l2, len, batch, ColumnGroup(l2, len, x), x);
    }
    var g := 0;
    while g < groups
      invariant 0 <= g <= groups
      invariant forall x | 0 <= x < data.Length ::
        data[x] == if ColumnGroup(l2, len, x) < g then ColumnSample(before, l1, l2, len, w, x) else before[x]
    {
      Split(g, l2, batch);
      ColumnStep(data, l1, l2, len, batch, w, g, before);
      g := g + 1;
    }
  }

  method ColumnStep(data: array<Complex>, l1: int, l2: int, len: int, batch: int, w: Complex, g: int,
                    ghost before: seq<Complex>)
    requires Shape(l1, l2, len) && data.Length == batch * len == |before| && HalfTurn(Pow(w, l2), l1)
    requires 0 <= g && g / l2 < batch
    requires forall x | 0 <= x < data.Length && ColumnGroup(l2, len, x) == g :: data[x] == before[x]
    modifies data
    ensures forall x | 0 <= x < data.Length ::
      data[x] == if ColumnGroup(l2, len, x) == g then ColumnSample(before, l1, l2, len, w, x) else old(data[x])
  {
    hide Mul, Pow, Dft, HalfTurn, Flat, ColumnGroup, ColumnRow, Strided, View;
    var a := TransformColumn(data, l1, l2, len, batch, w, g, before);
    StoreColumn(data, l1, l2, len, batch, g, a);
    forall x | 0 <= x < data.Length && ColumnGroup(l2, len, x) == g
      ensures data[x] == ColumnSample(before, l1, l2, len, w, x)
    {
      OwnedColumn(l1, l2, len, batch, g, x);
    }
  }

  /** Load column `g` and transform it in threadgroup memory. */
  method TransformColumn(data: array<Complex>, l1: int, l2: int, len: int, batch: int, w: Complex, g: int,
                         ghost before: seq<Complex>) returns (a: array<Complex>)
    requires Shape(l1, l2, len) && data.Length == batch * len == |before| && HalfTurn(Pow(w, l2), l1)
    requires 0 <= g && g / l2 < batch
    requires forall x | 0 <= x < data.Length && ColumnGroup(l2, len, x) == g :: data[x] == before[x]
    ensures fresh(a) && a.Length == l1
    ensures forall i | 0 <= i < l1 ::
      a[i] == Dft(Strided(View(before, g / l2 * len), l2, g % l2), l1, Pow(w, l2), i)
  {
    hide Mul, Pow, Dft, HalfTurn, Flat, ColumnGroup, ColumnRow;
    var s, col := g / l2, g % l2;
    ghost var f := Strided(View(before, s * len), l2, col);
    forall i | 0 <= i < l1
      ensures 0 <= Flat(len, l2, s, i, col) < data.Length && data[Flat(len, l2, s, i, col)] == f(i)
    {
      FlatBound(l1, l2, len, batch, s, i, col);
      GroupOf(l1, l2, len, s, i, col);
      FlatDef(len, l2, s, i, col);
    }
    a := new Complex[l1](i requires 0 <= i < l1 && 0 <= Flat(len, l2, s, i, col) < data.Length reads data =>
                           data[Flat(len, l2, s, i, col)]);
    var b := new Complex[l1](i => ZERO);
    ghost var loaded := View(a[..], 0);
    StockhamPow2(a, b, Pow(w, l2));
    forall i | 0 <= i < l1
      ensures a[i] == Dft(f, l1, Pow(w, l2), i)
    {
      DftCong(loaded, f, l1, Pow(w, l2), i);
    }
  }

  lemma FlatDef(len: int, cols: int, s: int, i: int, j: int)
    ensures Flat(len, cols, s, i, j) == s * len + (i * cols + j)
  {
  }

  method StoreColumn(data: array<Complex>, l1: int, l2: int, len: int, batch: int, g: int, a: array<Complex>)
    requires Shape(l1, l2, len) && data.Length == batch * len && a.Length == l1 && a != data
    requires 0 <= g && g / l2 < batch
    modifies data
    ensures forall x | 0 <= x < data.Length ::
      data[x] == if ColumnGroup(l2, len, x) == g then a[ColumnRow(l1, l2, x)] else old(data[x])
  {
    hide Flat, ColumnGroup, ColumnRow;
    var s, col := g / l2, g % l2;
    var i := 0;
    while i < l1
      invariant 0 <= i <= l1
      invariant forall x | 0 <= x < data.Length ::
        data[x] == if ColumnGroup(l2, len, x) == g && ColumnRow(l1, l2, x) < i then a[ColumnRow(l1, l2, x)]
                   else old(data[x])
    {
      FlatBound(l1, l2, len, batch, s, i, col);
      GroupOf(l1, l2, len, s, i, col);
      forall x | 0 <= x < data.Length && ColumnGroup(l2, len, x) == g && ColumnRow(l1, l2, x) == i
        ensures x == Flat(len, l2, s, i, col)
      {
        OwnedColumn(l1, l2, len, batch, g, x);
      }
      data[Flat(len, l2, s, i, col)] := a[i];
      i := i + 1;
    }
  }

  /** Pass 2: one thread per element; the twiddle index `i*j` stays below `len`, hence
      within the kernel's 32-bit integers. */
  method TwiddlePass(data: array<Complex>, l1: int, l2: int, len: int, batch: int, w: Complex)
    requires Shape(l1, l2, len) && batch >= 0 && data.Length == batch * len <= MAX_POINTS
    modifies data
    ensures data[..] == Twiddled(old(data[..]), l1, l2, w)
  {
    hide Mul, Pow, ColumnRow;
    ghost var before := data[..];
    var x := 0;
    while x < data.Length
      invariant 0 <= x <= data.Length
      invariant forall y | 0 <= y < x :: data[y] == Twiddled(before, l1, l2, w)[y]
      invariant forall y | x <= y < data.Length :: data[y] == before[y]
    {
      var i, j := ColumnRow(l1, l2, x), x % l2;
      TwiddleIndexFits(i, j, l1, l2, len, batch);
      data[x] := Mul(data[x], Pow(w, i * j));
      x := x + 1;
    }
  }

  lemma TwiddleIndexFits(i: int, j: int, l1: int, l2: int, len: int, batch: int)
    requires Shape(l1, l2, len) && batch >= 0 && 0 <= i < l1 && 0 <= j < l2 && 0 < batch * len <= MAX_POINTS
    ensures 0 <= i * j < len <= MAX_POINTS
  {
    MulNonNegative(i, j);
    MulMono(i, l1, j);
    MulMono(j + 1, l2, l1);
    Distributes(j, 1, l1);
    assert batch == 0 ==> batch * len == 0;
    MulMono(1, batch, len);
  }

  /** Pass 4: scatter every source element to its transposed place in `scratch`. */
  method TransposePass(data: array<Complex>, scratch: array<Complex>, l1: int, l2: int, len: int, batch: int)
    requires Shape(l1, l2, len) && data != scratch && data.Length == scratch.Length == batch * len
    modifies scratch
    ensures Transposed(scratch[..], data[..], l1, l2, len, batch)
  {
    hide Flat, Shape;
    ShapeFlips(l1, l2, len);
    forall s, i, j | 0 <= s < batch && 0 <= i < l1 && 0 <= j < l2
      ensures 0 <= Flat(len, l2, s, i, j) < data.Length
    {
      FlatBound(l1, l2, len, batch, s, i, j);
    }
    var x := 0;
    while x < data.Length
      invariant 0 <= x <= data.Length
      invariant forall s, i, j {:trigger Flat(len, l2, s, i, j)} ::
        0 <= s < batch && 0 <= i < l1 && 0 <= j < l2 && Flat(len, l2, s, i, j) < x ==>
          TransposedAt(scratch[..], data[..], l1, l2, len, s, i, j)
    {
      assert len > 0 && l2 > 0 by { ShapePositive(l1, l2, len); }
      var s, i, j := x / len, x % len / l2, x % len % l2;
      SignalRowColumn(l1, l2, len, batch, x);
      FlatBound(l2, l1, len, batch, s, j, i);
      scratch[Flat(len, l1, s, j, i)] := data[x];
      forall s', i', j' | 0 <= s' < batch && 0 <= i' < l1 && 0 <= j' < l2 && Flat(len, l2, s', i', j') <= x
        ensures TransposedAt(scratch[..], data[..], l1, l2, len, s', i', j')
      {
        if Flat(len, l2, s', i', j') < x {
          TransposeInjective(l1, l2, len, batch, s, i, j, s', i', j');
        } else {
          Coordinates(l1, l2, len, s', i', j');
          Coordinates(l1, l2, len, s, i, j);
        }
      }
      x := x + 1;
    }
    forall s, i, j | 0 <= s < batch && 0 <= i < l1 && 0 <= j < l2
      ensures TransposedAt(scratch[..], data[..], l1, l2, len, s, i, j)
    {
      assert Flat(len, l2, s, i, j) < x;
    }
  }

  lemma ShapePositive(l1: int, l2: int, len: int)
    requires Shape(l1, l2, len)
    ensures l1 > 0 && l2 > 0 && len > 0
  {
  }

  lemma SignalRowColumn(l1: int, l2: int, len: int, batch: int, x: int)
    requires Shape(l1, l2, len) && 0 <= x < batch * len
    ensures var s, i, j := x / len, x % len / l2, x % len % l2;
            0 <= s < batch && 0 <= i < l1 && 0 <= j < l2 && x == Flat(len, l2, s, i, j)
  {
    Split(x, len, batch);
    Split(x % len, l2, l1);
  }

  /** Distinct elements have distinct places, transposed or not. */
  lemma TransposeInjective(l1: int, l2: int, len: int, batch: int, s: int, i: int, j: int, s': int, i': int, j': int)
    requires Shape(l1, l2, len)
    requires 0 <= s < batch && 0 <= i < l1 && 0 <= j < l2
    requires 0 <= s' < batch && 0 <= i' < l1 && 0 <= j' < l2
    requires Flat(len, l2, s, i, j) != Flat(len, l2, s', i', j')
    ensures Flat(len, l1, s, j, i) != Flat(len, l1, s', j', i')
  {
    hide Flat, ColumnRow;
    ShapeFlips(l1, l2, len);
    Coordinates(l2, l1, len, s, j, i);
    Coordinates(l2, l1, len, s', j', i');
  }

  // ----- the recursion -----

  /** Four-step levels needed to bring `len` down to the base kernel. */
  function Levels(len: nat): nat {
    if len <= FFT_BASE_MAX then 0 else 1 + Levels(len / FFT_BASE_MAX)
  }

  lemma {:induction false} Pow2Quotient(n: nat, d: nat)
    requires IsPow2(n) && IsPow2(d) && d <= n
    ensures d > 0 && IsPow2(n / d) && d * (n / d) == n
  {
    if d > 1 {
      var n', d' := n / 2, d / 2;
      assert n == 2 * n' && d == 2 * d';
      Pow2Quotient(n', d');
      var q := n' / d';
      Associates(2, d', q);
      assert q * d == d * q;
      Quotient(n, d, q);
    }
  }

  lemma HalfTurnEven(w: Complex, h: nat)
    requires HalfTurn(w, 2 * h)
    ensures Pow(w, h) == Neg(ONE)
  {
  }

  lemma HalfTurnIntro(w: Complex, n: nat)
    requires IsPow2(n) && (if n == 1 then w == ONE else Pow(w, n / 2) == Neg(ONE))
    ensures HalfTurn(w, n)
  {
  }

  lemma HalfTurnPow2(w: Complex, n: nat)
    requires HalfTurn(w, n)
    ensures IsPow2(n) && n > 0
  {
  }

  lemma Pow2Even(n: nat)
    requires IsPow2(n)
    ensures n > 0 && (n == 1 || n % 2 == 0)
  {
  }

  /** A power of a primitive root is a primitive root of the quotient order. */
  lemma HalfTurnPower(w: Complex, a: nat, b: nat, n: nat)
    requires HalfTurn(w, n) && n == a * b && IsPow2(a) && IsPow2(b)
    ensures HalfTurn(Pow(w, a), b)
  {
    hide *;
    if b == 1 {
      HalfTurnIsRoot(w, n);
      HalfTurnIntro(Pow(w, a), b);
    } else {
      Pow2Even(b);
      var h := b / 2;
      assert n == 2 * (a * h) by { assert b == 2 * h; }
      MulNonNegative(a, h);
      PowMul(w, a, h);
      HalfTurnEven(w, a * h);
      HalfTurnIntro(Pow(w, a), b);
    }
  }

  lemma BaseIsPow2()
    ensures IsPow2(FFT_BASE_MAX)
  {
    assert IsPow2(8) && IsPow2(64) && IsPow2(512);
  }

  /** Splitting a length above the base size: both factors, and roots for both. */
  lemma SplitLength(w: Complex, len: nat)
    requires HalfTurn(w, len) && len > FFT_BASE_MAX
    ensures var l2 := len / FFT_BASE_MAX;
            Shape(FFT_BASE_MAX, l2, len) && HalfTurn(Pow(w, l2), FFT_BASE_MAX)
            && HalfTurn(Pow(w, FFT_BASE_MAX), l2) && Pow(w, len) == ONE
  {
    hide Pow, HalfTurn, IsPow2;
    BaseIsPow2();
    HalfTurnPow2(w, len);
    Pow2Quotient(len, FFT_BASE_MAX);
    var l2 := len / FFT_BASE_MAX;
    HalfTurnPower(w, FFT_BASE_MAX, l2, len);
    HalfTurnPower(w, l2, FFT_BASE_MAX, len);
    HalfTurnIsRoot(w, len);
  }

  /** `fft_pass`: `batch` packed signals of length `len`, transformed in place. It fails
      exactly when the recursion would go deeper than the guard allows. */
  method FftPass(data: array<Complex>, scratch: array<Complex>, len: nat, batch: nat, depth: nat, w: Complex)
    returns (ok: bool)
    requires data != scratch && data.Length == scratch.Length == batch * len <= MAX_POINTS
    requires len > 0 && HalfTurn(w, len)
    modifies data, scratch
    ensures ok <==> depth + Levels(len) <= FFT_MAX_RECURSION_DEPTH
    ensures ok ==> data[..] == BatchDft(old(data[..]), len, w)
    decreases len
  {
    hide Mul, Pow, Dft, HalfTurn, Transposed, Columns, Twiddled, BatchDft;
    if depth > FFT_MAX_RECURSION_DEPTH {
      return false;
    }
    if len <= FFT_BASE_MAX {
      BasePass(data, len, batch, w);
      return true;
    }
    var l1 := FFT_BASE_MAX;
    var l2 := len / l1;
    ghost var before := data[..];
    SplitLength(w, len);
    ColumnPass(data, l1, l2, len, batch, w);
    TwiddlePass(data, l1, l2, len, batch, w);
    Associates(batch, l1, l2);
    ok := FftPass(data, scratch, l2, batch * l1, depth + 1, Pow(w, l1));
    if !ok {
      return;
    }
    ghost var rows := data[..];
    TransposePass(data, scratch, l1, l2, len, batch);
    FourStepLevel(before, rows, scratch[..], l1, l2, len, batch, w);
    forall x | 0 <= x < data.Length {
      data[x] := scratch[x];
    }
    assert data[..] == scratch[..];
  }

  /** The depth guard never fires at an accepted size. */
  lemma LevelsWithinGuard(n: nat)
    requires n <= MAX_POINTS
    ensures Levels(n) <= 2 < FFT_MAX_RECURSION_DEPTH
  {
    assert n / 1024 <= 0x10_0000;
    assert n / 1024 / 1024 <= 1024;
    assert Levels(n / 1024 / 1024) == 0;
    assert Levels(n / 1024) <= 1;
  }
}

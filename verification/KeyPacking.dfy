/** Composite group-by keys packed into 128-bit lanes, and unpacked again. */
module KeyPacking {
  import opened BitArith
  import opened IndexArith
  import opened NullBitmap
  import opened Options

  // ----- columns -----

  datatype KeyDtype = I64 | F64 | Bool | I32 | F32 | I8 | I16 | U8 | U16 | U32 | Utf8

  /** Width of the data payload, without the null flag. */
  function DataBits(d: KeyDtype): nat {
    match d
    case I64 => 64
    case F64 => 64
    case Bool => 1
    case I32 => 32
    case F32 => 32
    case U32 => 32
    case Utf8 => 32
    case I16 => 16
    case U16 => 16
    case I8 => 8
    case U8 => 8
  }

  datatype KeyColumn = KeyColumn(
    name: string,
    dtype: KeyDtype,
    data: seq<Byte>,
    valid: seq<Byte>,
    nRows: nat,
    dict: Option<seq<string>>)

  datatype KeyField = KeyField(name: string, dtype: KeyDtype, nullBit: nat, dataBit: nat, dict: Option<seq<string>>)

  datatype KeySchema = KeySchema(fields: seq<KeyField>, totalBits: nat, nRows: nat)

  datatype KeyEncodeError =
    | NoKeys
    | TooWide(totalBits: nat)
    | RowCountMismatch(first: nat, mismatched: nat)
    | DataTooShort(col: string, got: nat, need: nat)
    | ValidityTooShort(col: string, got: nat, need: nat)
    | Utf8MissingDict(col: string)

  function NeedData(d: KeyDtype, n: nat): nat {
    if d.Bool? then ValidityBytes(n) else n * (DataBits(d) / 8)
  }

  function LittleEndian(bytes: seq<Byte>): (v: nat)
    ensures v < Pow2(8 * |bytes|)
  {
    if bytes == [] then 0
    else
      assert Pow2(8 * |bytes|) == 256 * Pow2(8 * |bytes[1..]|) by {
        Pow2Add(8, 8 * |bytes[1..]|);
        assert Pow2(8) == 256;
      }
      bytes[0] + 256 * LittleEndian(bytes[1..])
  }

  predicate Readable(c: KeyColumn) {
    |c.data| >= NeedData(c.dtype, c.nRows) && |c.valid| >= ValidityBytes(c.nRows)
  }

  lemma RowIsThere(c: KeyColumn, row: nat)
    requires Readable(c) && row < c.nRows
    ensures row / 8 < |c.valid|
    ensures c.dtype.Bool? ==> row / 8 < |c.data|
    ensures !c.dtype.Bool? ==> var w := DataBits(c.dtype) / 8; 0 <= row * w <= (row + 1) * w <= |c.data| && (row + 1) * w - row * w == w
  {
    var w := DataBits(c.dtype) / 8;
    MulNonNegative(row, w);
    MulMono(row + 1, c.nRows, w);
    Distributes(row, 1, w);
  }

  /** The payload of a row, as an unsigned number. */
  function Raw(c: KeyColumn, row: nat): (raw: nat)
    requires Readable(c) && row < c.nRows
    ensures raw < Pow2(DataBits(c.dtype))
  {
    RowIsThere(c, row);
    if c.dtype.Bool? then (if GetValid(c.data, row) then 1 else 0)
    else
      var w := DataBits(c.dtype) / 8;
      LittleEndian(c.data[row * w..(row + 1) * w])
  }

  predicate IsValid(c: KeyColumn, row: nat)
    requires Readable(c) && row < c.nRows
  {
    RowIsThere(c, row);
    GetValid(c.valid, row)
  }

  // ----- values -----

  datatype KeyVal = IntKey(i: int) | BitsKey(bits: nat) | BoolKey(b: bool) | StrKey(s: string)

  /** Two's complement. */
  function Signed(raw: nat, bits: nat): int {
    if raw < Pow2(bits - 1) then raw else raw - Pow2(bits)
  }

  /** What a payload stands for: floats are told apart by their bit patterns, strings come
      from the dictionary, or are empty if it does not have the code. */
  function Interpret(d: KeyDtype, dict: Option<seq<string>>, raw: nat): KeyVal {
    match d
    case Bool => BoolKey(raw == 1)
    case F64 => BitsKey(raw)
    case F32 => BitsKey(raw)
    case U8 => IntKey(raw)
    case U16 => IntKey(raw)
    case U32 => IntKey(raw)
    case Utf8 => StrKey(if dict.Some? && raw < |dict.value| then dict.value[raw] else "")
    case _ => IntKey(Signed(raw, DataBits(d)))
  }

  /** The key a row carries in one column; nothing if it is null. */
  function KeyAt(c: KeyColumn, row: nat): Option<KeyVal>
    requires Readable(c) && row < c.nRows
  {
    if IsValid(c, row) then Some(Interpret(c.dtype, c.dict, Raw(c, row))) else None
  }

  /** A string column's codes are distinct entries of its dictionary. */
  ghost predicate DictOk(c: KeyColumn)
    requires Readable(c)
  {
    c.dtype.Utf8? ==>
      c.dict.Some? && (forall i, j | 0 <= i < j < |c.dict.value| :: c.dict.value[i] != c.dict.value[j]) &&
      forall row | 0 <= row < c.nRows && IsValid(c, row) :: Raw(c, row) < |c.dict.value|
  }

  lemma SignedInjective(a: nat, b: nat, bits: nat)
    requires bits > 0 && a < Pow2(bits) && b < Pow2(bits) && Signed(a, bits) == Signed(b, bits)
    ensures a == b
  {
  }

  /** Payloads are equal exactly when the values are. */
  lemma SamePayload(c: KeyColumn, i: nat, j: nat)
    requires Readable(c) && DictOk(c) && i < c.nRows && j < c.nRows && IsValid(c, i) && IsValid(c, j)
    ensures KeyAt(c, i) == KeyAt(c, j) <==> Raw(c, i) == Raw(c, j)
  {
    hide Raw, IsValid, Readable, Signed;
    var a, b := Raw(c, i), Raw(c, j);
    if KeyAt(c, i) == KeyAt(c, j) {
      assert Pow2(1) == 2;
      if c.dtype.I64? || c.dtype.I32? || c.dtype.I16? || c.dtype.I8? {
        SignedInjective(a, b, DataBits(c.dtype));
      }
    }
  }

  // ----- lanes -----

  function OffsetOf(cols: seq<KeyColumn>, k: nat): nat
    requires k <= |cols|
  {
    if k == 0 then 0 else OffsetOf(cols, k - 1) + 1 + DataBits(cols[k - 1].dtype)
  }

  ghost predicate AllReadable(cols: seq<KeyColumn>, n: nat) {
    forall k | 0 <= k < |cols| :: Readable(cols[k]) && cols[k].nRows == n
  }

  /** The field of a row: the null flag in the lowest bit, the payload above it. */
  function Field(c: KeyColumn, row: nat): (f: nat)
    requires Readable(c) && row < c.nRows
    ensures f < Pow2(1 + DataBits(c.dtype))
  {
    if IsValid(c, row) then 2 * Raw(c, row) else assert Pow2(DataBits(c.dtype)) >= 1; 1
  }

  ghost function Lane(cols: seq<KeyColumn>, n: nat, row: nat, k: nat): (lane: nat)
    requires AllReadable(cols, n) && row < n && k <= |cols|
    ensures lane < Pow2(OffsetOf(cols, k))
  {
    if k == 0 then 0
    else
      var off := OffsetOf(cols, k - 1);
      var f := Field(cols[k - 1], row);
      var before := Lane(cols, n, row, k - 1);
      assert 0 <= before + f * Pow2(off) < Pow2(OffsetOf(cols, k)) by {
        Pow2Add(1 + DataBits(cols[k - 1].dtype), off);
        RowBound(f, before, Pow2(off), Pow2(1 + DataBits(cols[k - 1].dtype)));
      }
      before + f * Pow2(off)
  }

  lemma AddMultiple(x: nat, y: nat, p: int)
    requires p > 0
    ensures y * p >= 0 && (x + y * p) % p == x % p
  {
    MulNonNegative(y, p);
    Distributes(x / p, y, p);
    Quotient(x + y * p, p, x / p + y);
  }

  lemma {:induction false} OffsetGrows(cols: seq<KeyColumn>, k: nat, m: nat)
    requires k <= m <= |cols|
    ensures OffsetOf(cols, k) <= OffsetOf(cols, m)
  {
    if k < m {
      OffsetGrows(cols, k, m - 1);
    }
  }

  lemma LaneStep(cols: seq<KeyColumn>, n: nat, row: nat, k: nat)
    requires AllReadable(cols, n) && row < n && k < |cols|
    ensures Lane(cols, n, row, k + 1) == Lane(cols, n, row, k) + Field(cols[k], row) * Pow2(OffsetOf(cols, k))
    ensures OffsetOf(cols, k + 1) == OffsetOf(cols, k) + 1 + DataBits(cols[k].dtype)
  {
    hide Field, Pow2;
  }

  lemma MultipleOfPower(f: nat, high: nat, low: nat)
    requires low <= high
    ensures var q := Pow2(high - low); f * q >= 0 && f * Pow2(high) == (f * q) * Pow2(low)
  {
    hide Pow2;
    Pow2Add(high - low, low);
    MulNonNegative(f, Pow2(high - low));
    Associates(f, Pow2(high - low), Pow2(low));
  }

  /** Later fields leave the lower bits of a lane alone. */
  lemma {:induction false} LanePrefix(cols: seq<KeyColumn>, n: nat, row: nat, k: nat, m: nat)
    requires AllReadable(cols, n) && row < n && k <= m <= |cols|
    ensures Lane(cols, n, row, m) % Pow2(OffsetOf(cols, k)) == Lane(cols, n, row, k)
    decreases m
  {
    hide Field, Lane, OffsetOf, Pow2;
    if k < m {
      LanePrefix(cols, n, row, k, m - 1);
      LaneStep(cols, n, row, m - 1);
      OffsetGrows(cols, k, m - 1);
      var low, high, f := OffsetOf(cols, k), OffsetOf(cols, m - 1), Field(cols[m - 1], row);
      MultipleOfPower(f, high, low);
      AddMultiple(Lane(cols, n, row, m - 1), f * Pow2(high - low), Pow2(low));
    }
  }

  /** A field can be cut out of the lane. */
  lemma FieldOfLane(cols: seq<KeyColumn>, n: nat, row: nat, k: nat)
    requires AllReadable(cols, n) && row < n && k < |cols|
    ensures (Lane(cols, n, row, |cols|) / Pow2(OffsetOf(cols, k))) % Pow2(1 + DataBits(cols[k].dtype)) == Field(cols[k], row)
  {
    hide Field;
    var off, w := OffsetOf(cols, k), 1 + DataBits(cols[k].dtype);
    var lane := Lane(cols, n, row, |cols|);
    Window(lane, off, w);
    LanePrefix(cols, n, row, k + 1, |cols|);
    assert OffsetOf(cols, k + 1) == off + w;
    DivMod(Field(cols[k], row), Lane(cols, n, row, k), Pow2(off));
  }

  /** Two lanes are equal exactly when the rows carry the same keys, null equal to null. */
  lemma LanesEqual(cols: seq<KeyColumn>, n: nat, i: nat, j: nat)
    requires AllReadable(cols, n) && i < n && j < n && forall k | 0 <= k < |cols| :: DictOk(cols[k])
    ensures Lane(cols, n, i, |cols|) == Lane(cols, n, j, |cols|)
       <==> forall k | 0 <= k < |cols| :: KeyAt(cols[k], i) == KeyAt(cols[k], j)
  {
    hide KeyAt, Lane, OffsetOf, DictOk;
    forall k | 0 <= k < |cols|
      ensures KeyAt(cols[k], i) == KeyAt(cols[k], j) <==> Field(cols[k], i) == Field(cols[k], j)
    {
      SameField(cols[k], i, j);
    }
    if Lane(cols, n, i, |cols|) == Lane(cols, n, j, |cols|) {
      forall k | 0 <= k < |cols|
        ensures Field(cols[k], i) == Field(cols[k], j)
      {
        FieldOfLane(cols, n, i, k);
        FieldOfLane(cols, n, j, k);
      }
    }
    if forall k | 0 <= k < |cols| :: KeyAt(cols[k], i) == KeyAt(cols[k], j) {
      SameFieldsSameLane(cols, n, i, j, |cols|);
    }
  }

  lemma SameField(c: KeyColumn, i: nat, j: nat)
    requires Readable(c) && DictOk(c) && i < c.nRows && j < c.nRows
    ensures KeyAt(c, i) == KeyAt(c, j) <==> Field(c, i) == Field(c, j)
  {
    hide Raw, IsValid, Readable, DictOk, Interpret;
    if IsValid(c, i) && IsValid(c, j) {
      SamePayload(c, i, j);
    }
  }

  lemma {:induction false} SameFieldsSameLane(cols: seq<KeyColumn>, n: nat, i: nat, j: nat, k: nat)
    requires AllReadable(cols, n) && i < n && j < n && k <= |cols|
    requires forall m | 0 <= m < k :: Field(cols[m], i) == Field(cols[m], j)
    ensures Lane(cols, n, i, k) == Lane(cols, n, j, k)
  {
    hide Field;
    if k > 0 {
      SameFieldsSameLane(cols, n, i, j, k - 1);
    }
  }

  // ----- decoding a lane -----

  lemma SplitWindow(lane: nat, off: nat, bits: nat, f: nat)
    requires (lane / Pow2(off)) % Pow2(1 + bits) == f
    ensures (lane / Pow2(off)) % 2 == f % 2 && (lane / Pow2(off + 1)) % Pow2(bits) == f / 2
  {
    hide Pow2;
    Doubled(bits);
    Doubled(off);
    HalfWindow(lane / Pow2(off), Pow2(bits));
    DivideTwice(lane, Pow2(off));
  }

  lemma FieldParts(c: KeyColumn, row: nat)
    requires Readable(c) && row < c.nRows
    ensures Field(c, row) % 2 == 0 <==> IsValid(c, row)
    ensures IsValid(c, row) ==> Field(c, row) / 2 == Raw(c, row)
  {
    hide Raw, IsValid, Readable, Pow2;
  }

  /** The flag and the payload, read at the offsets of a field. */
  lemma LaneBits(cols: seq<KeyColumn>, n: nat, row: nat, k: nat)
    requires AllReadable(cols, n) && row < n && k < |cols|
    ensures var lane, off := Lane(cols, n, row, |cols|), OffsetOf(cols, k);
            ((lane / Pow2(off)) % 2 == 0 <==> IsValid(cols[k], row)) &&
            (IsValid(cols[k], row) ==> (lane / Pow2(off + 1)) % Pow2(DataBits(cols[k].dtype)) == Raw(cols[k], row))
  {
    hide Lane, OffsetOf, Raw, IsValid, Readable, Pow2, DataBits, Field;
    FieldOfLane(cols, n, row, k);
    FieldParts(cols[k], row);
    SplitWindow(Lane(cols, n, row, |cols|), OffsetOf(cols, k), DataBits(cols[k].dtype), Field(cols[k], row));
  }

  lemma Doubled(k: nat)
    ensures Pow2(1 + k) == 2 * Pow2(k) == Pow2(k + 1)
  {
  }
}

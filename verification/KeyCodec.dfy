/** `encode_keys` and `decode_keys` as they run. */
module KeyCodec {
  import opened BitArith
  import opened IndexArith
  import opened KeyPacking
  import opened NullBitmap
  import opened Options

  // ----- validation -----

  const LANE_BITS: nat := 128

  function ColumnError(c: KeyColumn, n: nat, offset: nat): Option<KeyEncodeError> {
    if c.dtype.Utf8? && c.dict.None? then Some(Utf8MissingDict(c.name))
    else if |c.data| < NeedData(c.dtype, n) then Some(DataTooShort(c.name, |c.data|, NeedData(c.dtype, n)))
    else if |c.valid| < ValidityBytes(n) then Some(ValidityTooShort(c.name, |c.valid|, ValidityBytes(n)))
    else if offset + 1 + DataBits(c.dtype) > LANE_BITS then Some(TooWide(offset + 1 + DataBits(c.dtype)))
    else None
  }

  /** The first column among the first `k` that cannot be packed. */
  function LayoutError(cols: seq<KeyColumn>, n: nat, k: nat): Option<KeyEncodeError>
    requires k <= |cols|
  {
    if k == 0 then None
    else if LayoutError(cols, n, k - 1).Some? then LayoutError(cols, n, k - 1)
    else ColumnError(cols[k - 1], n, OffsetOf(cols, k - 1))
  }

  function MismatchError(cols: seq<KeyColumn>, n: nat, k: nat): Option<KeyEncodeError>
    requires k <= |cols|
  {
    if k == 0 then None
    else if MismatchError(cols, n, k - 1).Some? then MismatchError(cols, n, k - 1)
    else if cols[k - 1].nRows != n then Some(RowCountMismatch(n, cols[k - 1].nRows))
    else None
  }

  function EncodeError(cols: seq<KeyColumn>): Option<KeyEncodeError> {
    if cols == [] then Some(NoKeys)
    else if MismatchError(cols, cols[0].nRows, |cols|).Some? then MismatchError(cols, cols[0].nRows, |cols|)
    else LayoutError(cols, cols[0].nRows, |cols|)
  }

  lemma {:induction false} ErrorStays(cols: seq<KeyColumn>, n: nat, k: nat, m: nat)
    requires k <= m <= |cols|
    ensures LayoutError(cols, n, k).Some? ==> LayoutError(cols, n, m) == LayoutError(cols, n, k)
    ensures MismatchError(cols, n, k).Some? ==> MismatchError(cols, n, m) == MismatchError(cols, n, k)
    decreases m
  {
    hide ColumnError;
    if k < m {
      ErrorStays(cols, n, k, m - 1);
    }
  }

  /** Encoding fails exactly when it must: no columns, unequal heights, a missing dictionary,
      a short buffer, or more than 128 bits in all. */
  lemma {:induction false} NoLayoutError(cols: seq<KeyColumn>, n: nat, k: nat)
    requires k <= |cols|
    ensures LayoutError(cols, n, k).None? <==>
      (forall j | 0 <= j < k :: (cols[j].dtype.Utf8? ==> cols[j].dict.Some?) && |cols[j].data| >= NeedData(cols[j].dtype, n)
                                && |cols[j].valid| >= ValidityBytes(n)) && OffsetOf(cols, k) <= 128
  {
    hide NeedData, ValidityBytes, DataBits;
    if k > 0 {
      NoLayoutError(cols, n, k - 1);
    }
  }

  lemma {:induction false} NoMismatch(cols: seq<KeyColumn>, n: nat, k: nat)
    requires k <= |cols|
    ensures MismatchError(cols, n, k).None? <==> forall j | 0 <= j < k :: cols[j].nRows == n
  {
    if k > 0 {
      NoMismatch(cols, n, k - 1);
    }
  }

  // ----- encoding -----

  function FieldOf(cols: seq<KeyColumn>, k: nat): KeyField
    requires k < |cols|
  {
    var off := OffsetOf(cols, k);
    KeyField(cols[k].name, cols[k].dtype, off, off + 1, cols[k].dict)
  }

  function FieldsOf(cols: seq<KeyColumn>, k: nat): (fs: seq<KeyField>)
    requires k <= |cols|
    ensures |fs| == k
  {
    seq(k, j requires 0 <= j < k => FieldOf(cols, j))
  }

  datatype Encoded = Encoded(lanes: seq<nat>, schema: KeySchema)

  /** The lanes and the schema of columns that can be packed. */
  ghost predicate Packs(cols: seq<KeyColumn>, r: Encoded) {
    cols != [] && AllReadable(cols, cols[0].nRows) && OffsetOf(cols, |cols|) <= 128 &&
    |r.lanes| == cols[0].nRows &&
    (forall row | 0 <= row < |r.lanes| :: r.lanes[row] == Lane(cols, cols[0].nRows, row, |cols|)) &&
    r.schema == KeySchema(FieldsOf(cols, |cols|), OffsetOf(cols, |cols|), cols[0].nRows)
  }

  /** One lane: OR in a flag or a payload per column. */
  method EncodeRow(cols: seq<KeyColumn>, fields: seq<KeyField>, row: nat, ghost n: nat) returns (lane: nat)
    requires AllReadable(cols, n) && row < n && fields == FieldsOf(cols, |cols|)
    ensures lane == Lane(cols, n, row, |cols|)
  {
    hide Lane, OffsetOf, Raw, IsValid, Readable, Pow2, Or;
    lane := 0;
    NoColumns(cols, n, row);
    for k := 0 to |cols|
      invariant lane == Lane(cols, n, row, k)
    {
      RowStep(cols, n, row, k);
      if !IsValid(cols[k], row) {
        lane := Or(lane, 1 * Pow2(fields[k].nullBit));
      } else {
        var raw := Raw(cols[k], row);
        lane := Or(lane, raw * Pow2(fields[k].dataBit));
      }
    }
  }

  lemma NoColumns(cols: seq<KeyColumn>, n: nat, row: nat)
    requires AllReadable(cols, n) && row < n
    ensures Lane(cols, n, row, 0) == 0
  {
  }

  lemma RowStep(cols: seq<KeyColumn>, n: nat, row: nat, k: nat)
    requires AllReadable(cols, n) && row < n && k < |cols|
    ensures !IsValid(cols[k], row) ==>
      Lane(cols, n, row, k + 1) == Or(Lane(cols, n, row, k), 1 * Pow2(OffsetOf(cols, k)))
    ensures IsValid(cols[k], row) ==>
      var bits := Raw(cols[k], row) * Pow2(OffsetOf(cols, k) + 1);
      bits >= 0 && Lane(cols, n, row, k + 1) == Or(Lane(cols, n, row, k), bits)
  {
    hide Lane, OffsetOf, Raw, IsValid, Readable, Pow2, Or;
    var lane, off := Lane(cols, n, row, k), OffsetOf(cols, k);
    LaneStep(cols, n, row, k);
    OrField(lane, Field(cols[k], row), off);
    if IsValid(cols[k], row) {
      ShiftedPayload(Raw(cols[k], row), off);
    }
  }

  lemma OrField(lane: nat, f: nat, off: nat)
    requires lane < Pow2(off)
    ensures f * Pow2(off) >= 0 && Or(lane, f * Pow2(off)) == lane + f * Pow2(off)
  {
    OrDisjoint(lane, f, off);
  }

  lemma ShiftedPayload(raw: nat, off: nat)
    ensures raw * Pow2(off + 1) >= 0 && raw * Pow2(off + 1) == (2 * raw) * Pow2(off)
  {
    Doubled(off);
    Associates(raw, 2, Pow2(off));
    MulNonNegative(raw, Pow2(off + 1));
  }

  method EncodeKeys(cols: seq<KeyColumn>) returns (r: Result<Encoded, KeyEncodeError>)
    ensures r.Err? <==> EncodeError(cols).Some?
    ensures r.Err? ==> r.error == EncodeError(cols).value
    ensures r.Ok? ==> Packs(cols, r.value)
  {
    hide Lane, OffsetOf, NeedData, LayoutError, DataBits, FieldsOf;
    if cols == [] {
      return Err(NoKeys);
    }
    var n := cols[0].nRows;
    for k := 0 to |cols|
      invariant MismatchError(cols, n, k).None?
    {
      if cols[k].nRows != n {
        ErrorStays(cols, n, k + 1, |cols|);
        return Err(RowCountMismatch(n, cols[k].nRows));
      }
    }
    var layout := LayOut(cols, n);
    if layout.Err? {
      return Err(layout.error);
    }
    var fields := layout.value.fields;
    NoLayoutError(cols, n, |cols|);
    NoMismatch(cols, n, |cols|);
    var lanes := EncodeRows(cols, fields, n);
    return Ok(Encoded(lanes, layout.value));
  }

  /** Assign every column its bits, or stop at the first that does not fit. */
  method LayOut(cols: seq<KeyColumn>, n: nat) returns (r: Result<KeySchema, KeyEncodeError>)
    ensures r.Err? <==> LayoutError(cols, n, |cols|).Some?
    ensures r.Err? ==> r.error == LayoutError(cols, n, |cols|).value
    ensures r.Ok? ==> r.value == KeySchema(FieldsOf(cols, |cols|), OffsetOf(cols, |cols|), n)
  {
    hide ColumnError, DataBits;
    var fields: seq<KeyField>, offset: nat := [], 0;
    for k := 0 to |cols|
      invariant LayoutError(cols, n, k).None? && offset == OffsetOf(cols, k) && fields == FieldsOf(cols, k)
    {
      var e := ColumnError(cols[k], n, offset);
      if e.Some? {
        ErrorStays(cols, n, k + 1, |cols|);
        return Err(e.value);
      }
      fields := fields + [KeyField(cols[k].name, cols[k].dtype, offset, offset + 1, cols[k].dict)];
      offset := offset + 1 + DataBits(cols[k].dtype);
    }
    return Ok(KeySchema(fields, offset, n));
  }

  method EncodeRows(cols: seq<KeyColumn>, fields: seq<KeyField>, n: nat) returns (lanes: seq<nat>)
    requires AllReadable(cols, n) && fields == FieldsOf(cols, |cols|)
    ensures |lanes| == n && forall row | 0 <= row < n :: lanes[row] == Lane(cols, n, row, |cols|)
  {
    lanes := [];
    for row := 0 to n
      invariant |lanes| == row && forall i | 0 <= i < row :: lanes[i] == Lane(cols, n, i, |cols|)
    {
      var lane := EncodeRow(cols, fields, row, n);
      lanes := lanes + [lane];
    }
  }

  // ----- decoding -----

  datatype DecodedColumn = DecodedColumn(dtype: KeyDtype, values: seq<KeyVal>, valid: seq<bool>)

  function DefaultKey(d: KeyDtype): KeyVal {
    match d
    case Bool => BoolKey(false)
    case F64 => BitsKey(0)
    case F32 => BitsKey(0)
    case Utf8 => StrKey("")
    case _ => IntKey(0)
  }

  predicate LaneValid(f: KeyField, lane: nat) {
    (lane / Pow2(f.nullBit)) % 2 == 0
  }

  function LaneValue(f: KeyField, lane: nat): KeyVal {
    if LaneValid(f, lane) then Interpret(f.dtype, f.dict, (lane / Pow2(f.dataBit)) % Pow2(DataBits(f.dtype)))
    else DefaultKey(f.dtype)
  }

  function DecodedOf(f: KeyField, lanes: seq<nat>): DecodedColumn {
    DecodedColumn(f.dtype, seq(|lanes|, i requires 0 <= i < |lanes| => LaneValue(f, lanes[i])),
                  seq(|lanes|, i requires 0 <= i < |lanes| => LaneValid(f, lanes[i])))
  }

  lemma DecodedAppend(f: KeyField, lanes: seq<nat>, lane: nat)
    ensures var d := DecodedOf(f, lanes);
            DecodedOf(f, lanes + [lane]) == DecodedColumn(f.dtype, d.values + [LaneValue(f, lane)], d.valid + [LaneValid(f, lane)])
  {
    hide LaneValue, LaneValid;
  }

  method DecodeKeys(lanes: seq<nat>, schema: KeySchema) returns (out: seq<DecodedColumn>)
    ensures |out| == |schema.fields|
    ensures forall k | 0 <= k < |out| :: out[k] == DecodedOf(schema.fields[k], lanes)
  {
    hide LaneValue, LaneValid;
    var fields := schema.fields;
    out := seq(|fields|, k requires 0 <= k < |fields| => DecodedColumn(fields[k].dtype, [], []));
    for i := 0 to |lanes|
      invariant |out| == |fields| && forall k | 0 <= k < |fields| :: out[k] == DecodedOf(fields[k], lanes[..i])
    {
      assert lanes[..i + 1] == lanes[..i] + [lanes[i]];
      for k := 0 to |fields|
        invariant |out| == |fields|
        invariant forall j | 0 <= j < k :: out[j] == DecodedOf(fields[j], lanes[..i + 1])
        invariant forall j | k <= j < |fields| :: out[j] == DecodedOf(fields[j], lanes[..i])
      {
        hide DecodedOf;
        DecodedAppend(fields[k], lanes[..i], lanes[i]);
        var d := out[k];
        out := out[k := DecodedColumn(fields[k].dtype, d.values + [LaneValue(fields[k], lanes[i])],
                                      d.valid + [LaneValid(fields[k], lanes[i])])];
      }
    }
    assert lanes[..|lanes|] == lanes;
  }

  /** Decoding a packed lane gives back the key of every column, null flags included. */
  lemma DecodeOfEncode(cols: seq<KeyColumn>, n: nat, row: nat, k: nat)
    requires AllReadable(cols, n) && row < n && k < |cols|
    ensures var f, lane := FieldOf(cols, k), Lane(cols, n, row, |cols|);
            (LaneValid(f, lane) <==> KeyAt(cols[k], row).Some?)
            && LaneValue(f, lane) == (match KeyAt(cols[k], row) case Some(v) => v case None => DefaultKey(cols[k].dtype))
  {
    hide Lane, OffsetOf, Raw, IsValid, Readable, Pow2, Interpret;
    LaneBits(cols, n, row, k);
  }
}

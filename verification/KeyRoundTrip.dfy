/** Keys from values to lanes and back: what a column's bytes stand for, with the formulas written out. */
module KeyRoundTrip {
  import opened BitArith
  import opened IndexArith
  import opened KeyCodec
  import opened KeyPacking
  import opened NullBitmap
  import opened Options

  // ----- bytes of a value -----

  /** Byte `j` of `v`, lowest first; negative values come out in two's complement. */
  function ByteOf(v: int, j: nat): (b: Byte) {
    (v / Pow2(8 * j)) % 256
  }

  /** The bytes from `at` on are the `w` lowest of `v`. */
  ghost predicate Holds(data: seq<Byte>, at: nat, w: nat, v: int) {
    at + w <= |data| && forall j | 0 <= j < w :: data[at + j] == ByteOf(v, j)
  }

  lemma Recombined(a: int, p: int, t: int, s: int, r: int)
    ensures (t * p + s) * a + r == t * (a * p) + (s * a + r)
  {
    Distributes(t * p, s, a);
    Associates(t, p, a);
    assert p * a == a * p;
  }

  lemma RemainderSplits(v: int, a: int, p: int)
    requires a > 0 && p > 0
    ensures a * p > 0 && v % (a * p) == v % a + a * ((v / a) % p)
  {
    MulPositive(a, p);
    var q, r := v / a, v % a;
    var t, s := q / p, q % p;
    assert v == q * a + r && q == t * p + s;
    Recombined(a, p, t, s, r);
    RowBound(s, r, a, p);
    Swap(p, a);
    Swap(s, a);
    Quotient(v, a * p, t);
  }

  lemma Swap(a: int, b: int)
    ensures a * b == b * a
  {
  }

  lemma {:induction false} LittleEndianOf(bytes: seq<Byte>, v: int)
    requires forall j | 0 <= j < |bytes| :: bytes[j] == ByteOf(v, j)
    ensures LittleEndian(bytes) == v % Pow2(8 * |bytes|)
    decreases |bytes|
  {
    hide Pow2;
    if bytes == [] {
      NoBits(v);
    } else {
      var rest := bytes[1..];
      var m := 8 * |rest|;
      ByteBelow(0);
      Pow2Add(8, m);
      forall j | 0 <= j < |rest|
        ensures rest[j] == ByteOf(v / 256, j)
      {
        Pow2Add(8, 8 * j);
        DivideBoth(v, 256, Pow2(8 * j));
        assert rest[j] == bytes[j + 1];
      }
      LittleEndianOf(rest, v / 256);
      RemainderSplits(v, 256, Pow2(m));
      FirstByte(v);
    }
  }

  lemma NoBits(v: int)
    ensures v % Pow2(0) == 0
  {
    assert Pow2(0) == 1;
  }

  lemma FirstByte(v: int)
    ensures ByteOf(v, 0) == v % 256
  {
    assert Pow2(0) == 1;
  }

  // ----- payloads -----

  /** Bytes per value, by dtype. */
  function Width(d: KeyDtype): nat {
    match d
    case I8 => 1
    case U8 => 1
    case I16 => 2
    case U16 => 2
    case I32 => 4
    case U32 => 4
    case F32 => 4
    case Utf8 => 4
    case I64 => 8
    case F64 => 8
    case Bool => 0
  }

  /** The payload has that many bytes, and a Boolean one bit. */
  lemma PayloadWidth(d: KeyDtype)
    ensures DataBits(d) == if d.Bool? then 1 else 8 * Width(d)
  {
  }

  lemma PayloadOf(c: KeyColumn, row: nat, v: int)
    requires Readable(c) && row < c.nRows && !c.dtype.Bool? && row * Width(c.dtype) >= 0
    requires Holds(c.data, row * Width(c.dtype), Width(c.dtype), v)
    ensures Raw(c, row) == v % Pow2(8 * Width(c.dtype))
  {
    hide Pow2;
    RowIsThere(c, row);
    var w := Width(c.dtype);
    assert DataBits(c.dtype) / 8 == w;
    Distributes(row, 1, w);
    LittleEndianOf(c.data[row * w..(row + 1) * w], v);
  }

  lemma Powers()
    ensures Pow2(7) == 0x80 && Pow2(8) == 0x100 && Pow2(15) == 0x8000 && Pow2(16) == 0x1_0000
    ensures Pow2(31) == 0x8000_0000 && Pow2(32) == 0x1_0000_0000
    ensures Pow2(63) == 0x8000_0000_0000_0000 && Pow2(64) == 0x1_0000_0000_0000_0000
  {
    ByteBelow(0);
    BytePower();
    hide Pow2;
    Pow2Add(8, 7);
    Pow2Add(8, 8);
    Pow2Add(16, 15);
    Pow2Add(16, 16);
    Pow2Add(32, 31);
    Pow2Add(32, 32);
  }

  lemma BytePower()
    ensures Pow2(7) == 0x80
  {
    assert Pow2(7) == 2 * 2 * 2 * 2 * 2 * 2 * 2;
  }

  /** The whole numbers a dtype has. */
  predicate InRange(d: KeyDtype, v: int) {
    match d
    case I8 => -0x80 <= v < 0x80
    case I16 => -0x8000 <= v < 0x8000
    case I32 => -0x8000_0000 <= v < 0x8000_0000
    case I64 => -0x8000_0000_0000_0000 <= v < 0x8000_0000_0000_0000
    case U8 => 0 <= v < 0x100
    case U16 => 0 <= v < 0x1_0000
    case U32 => 0 <= v < 0x1_0000_0000
    case _ => false
  }

  lemma Unwrapped(v: int, half: int, raw: int)
    requires half > 0 && -half <= v < half && raw == v % (2 * half)
    ensures raw == if v >= 0 then v else v + 2 * half
  {
    Quotient(v, 2 * half, if v >= 0 then 0 else -1);
  }

  lemma IntegerPayload(d: KeyDtype, dict: Option<seq<string>>, v: int, raw: nat)
    requires InRange(d, v) && raw == v % Pow2(8 * Width(d))
    ensures Interpret(d, dict, raw) == IntKey(v)
  {
    Powers();
    hide Pow2;
    match d
    case I8 => Unwrapped(v, 0x80, raw);
    case I16 => Unwrapped(v, 0x8000, raw);
    case I32 => Unwrapped(v, 0x8000_0000, raw);
    case I64 => Unwrapped(v, 0x8000_0000_0000_0000, raw);
    case _ =>
  }

  // ----- from a row to its lane and back -----

  /** What fills the place of a null. */
  function Filler(d: KeyDtype): KeyVal {
    if d == Bool then BoolKey(false) else if d == Utf8 then StrKey("") else if d == F32 || d == F64 then BitsKey(0) else IntKey(0)
  }

  /** A null comes back as a null, and nothing else does. */
  lemma NullReturns(cols: seq<KeyColumn>, n: nat, row: nat, k: nat)
    requires AllReadable(cols, n) && row < n && k < |cols|
    ensures LaneValid(FieldOf(cols, k), Lane(cols, n, row, |cols|)) <==> BitSet(cols[k].valid, row)
    ensures !BitSet(cols[k].valid, row) ==> LaneValue(FieldOf(cols, k), Lane(cols, n, row, |cols|)) == Filler(cols[k].dtype)
  {
    hide Lane, LaneValid, GetValid, Readable, FieldOf, Raw;
    DecodeOfEncode(cols, n, row, k);
    ValidBit(cols[k].valid, row);
  }

  lemma Decoded(cols: seq<KeyColumn>, n: nat, row: nat, k: nat)
    requires AllReadable(cols, n) && row < n && k < |cols| && BitSet(cols[k].valid, row)
    ensures LaneValue(FieldOf(cols, k), Lane(cols, n, row, |cols|)) == Interpret(cols[k].dtype, cols[k].dict, Raw(cols[k], row))
  {
    hide Lane, LaneValid, LaneValue, GetValid, Readable, FieldOf, Raw, Interpret;
    DecodeOfEncode(cols, n, row, k);
    ValidBit(cols[k].valid, row);
  }

  /** An integer whose bytes a valid row holds, signed or not, is the key decoded from the row's lane. */
  lemma IntegerReturns(cols: seq<KeyColumn>, n: nat, row: nat, k: nat, v: int)
    requires AllReadable(cols, n) && row < n && k < |cols| && BitSet(cols[k].valid, row)
    requires InRange(cols[k].dtype, v) && row * Width(cols[k].dtype) >= 0
    requires Holds(cols[k].data, row * Width(cols[k].dtype), Width(cols[k].dtype), v)
    ensures LaneValue(FieldOf(cols, k), Lane(cols, n, row, |cols|)) == IntKey(v)
  {
    hide Lane, LaneValue, FieldOf, Raw, Interpret, Pow2, Holds, BitSet;
    Decoded(cols, n, row, k);
    PayloadOf(cols[k], row, v);
    IntegerPayload(cols[k].dtype, cols[k].dict, v, Raw(cols[k], row));
  }

  /** The bits of a float come back as they went in. */
  lemma FloatReturns(cols: seq<KeyColumn>, n: nat, row: nat, k: nat, bits: nat)
    requires AllReadable(cols, n) && row < n && k < |cols| && BitSet(cols[k].valid, row) && row * Width(cols[k].dtype) >= 0
    requires (cols[k].dtype.F32? && bits < 0x1_0000_0000) || (cols[k].dtype.F64? && bits < 0x1_0000_0000_0000_0000)
    requires Holds(cols[k].data, row * Width(cols[k].dtype), Width(cols[k].dtype), bits)
    ensures LaneValue(FieldOf(cols, k), Lane(cols, n, row, |cols|)) == BitsKey(bits)
  {
    Powers();
    hide Lane, LaneValue, FieldOf, Raw, Pow2, Holds, BitSet;
    Decoded(cols, n, row, k);
    PayloadOf(cols[k], row, bits);
  }

  /** A dictionary code comes back as its string. */
  lemma StringReturns(cols: seq<KeyColumn>, n: nat, row: nat, k: nat, code: nat)
    requires AllReadable(cols, n) && row < n && k < |cols| && BitSet(cols[k].valid, row) && row * Width(cols[k].dtype) >= 0
    requires cols[k].dtype.Utf8? && cols[k].dict.Some? && code < |cols[k].dict.value| && code < 0x1_0000_0000
    requires Holds(cols[k].data, row * Width(cols[k].dtype), Width(cols[k].dtype), code)
    ensures LaneValue(FieldOf(cols, k), Lane(cols, n, row, |cols|)) == StrKey(cols[k].dict.value[code])
  {
    Powers();
    hide Lane, LaneValue, FieldOf, Raw, Pow2, Holds, BitSet;
    Decoded(cols, n, row, k);
    PayloadOf(cols[k], row, code);
  }

  /** A bit-packed Boolean comes back as its bit. */
  lemma BooleanReturns(cols: seq<KeyColumn>, n: nat, row: nat, k: nat)
    requires AllReadable(cols, n) && row < n && k < |cols| && BitSet(cols[k].valid, row) && cols[k].dtype.Bool?
    ensures LaneValue(FieldOf(cols, k), Lane(cols, n, row, |cols|)) == BoolKey(BitSet(cols[k].data, row))
  {
    hide Lane, LaneValue, FieldOf, Pow2, GetValid, BitSet;
    Decoded(cols, n, row, k);
    hide *;
    PackedBit(cols[k], row);
  }

  lemma PackedBit(c: KeyColumn, row: nat)
    requires Readable(c) && row < c.nRows && c.dtype.Bool?
    ensures Raw(c, row) == (if BitSet(c.data, row) then 1 else 0) && (Interpret(Bool, c.dict, 1) == BoolKey(true)) && Interpret(Bool, c.dict, 0) == BoolKey(false)
  {
    hide GetValid;
    ValidBit(c.data, row);
  }
}

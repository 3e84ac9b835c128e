/** Bit-packed validity bitmaps: bit `row % 8` of byte `row / 8`, least significant first. */
module NullBitmap {
  import opened BitArith

  type Byte = b: int | 0 <= b < 256

  function ValidityBytes(rows: nat): nat {
    (rows + 7) / 8
  }

  /** `get_valid`: rows past the end are null. */
  predicate GetValid(bitmap: seq<Byte>, row: nat) {
    row / 8 < |bitmap| && Bit(bitmap[row / 8], row % 8) == 1
  }

  /** The row's bit, by its weight in its byte. */
  predicate BitSet(bitmap: seq<Byte>, row: nat) {
    row / 8 < |bitmap| && (bitmap[row / 8] / [1, 2, 4, 8, 16, 32, 64, 128][row % 8]) % 2 == 1
  }

  lemma WeightIsPower(k: nat)
    requires k < 8
    ensures Pow2(k) == [1, 2, 4, 8, 16, 32, 64, 128][k]
  {
    assert Pow2(0) == 1 && Pow2(1) == 2 && Pow2(2) == 4 && Pow2(3) == 8;
    assert Pow2(4) == 16 && Pow2(5) == 32 && Pow2(6) == 64 && Pow2(7) == 128;
  }

  lemma ValidBit(bitmap: seq<Byte>, row: nat)
    ensures GetValid(bitmap, row) <==> BitSet(bitmap, row)
  {
    hide Pow2;
    WeightIsPower(row % 8);
  }

  /** As many bytes as the rows need, and no more. */
  lemma BytesNeeded(rows: nat)
    ensures 8 * ValidityBytes(rows) >= rows && (rows > 0 ==> 8 * (ValidityBytes(rows) - 1) < rows) && ValidityBytes(0) == 0
  {
  }

  lemma ByteBelow(b: Byte)
    ensures b < Pow2(8) == 256
  {
    assert Pow2(8) == 2 * 2 * 2 * 2 * 2 * 2 * 2 * 2;
  }

  /** The byte with bit `k` set or cleared. */
  function WithBit(b: Byte, k: nat, valid: bool): (r: Byte)
    requires k < 8
    ensures forall j: nat :: Bit(r, j) == if j == k then (if valid then 1 else 0) else Bit(b, j)
  {
    ByteBelow(b);
    Pow2Mono(k, 7);
    OrBelow(b, Pow2(k), 8);
    ClearBelow(b, k);
    BitsOfOr(b, k);
    BitsOfClear(b, k);
    if valid then Or(b, Pow2(k)) else ClearBit(b, k)
  }

  lemma BitsOfClear(x: nat, k: nat)
    ensures forall j: nat :: Bit(ClearBit(x, k), j) == if j == k then 0 else Bit(x, j)
  {
    hide ClearBit, Bit;
    forall j: nat
      ensures Bit(ClearBit(x, k), j) == if j == k then 0 else Bit(x, j)
    {
      ClearedBit(x, k, j);
    }
  }

  lemma BitsOfOr(x: nat, k: nat)
    ensures forall j: nat :: Bit(Or(x, Pow2(k)), j) == if j == k then 1 else Bit(x, j)
  {
    hide Or, Bit, Pow2;
    forall j: nat
      ensures Bit(Or(x, Pow2(k)), j) == if j == k then 1 else Bit(x, j)
    {
      OrBit(x, Pow2(k), j);
      PowBit(k, j);
    }
  }

  /** `set_valid` changes one row's bit and no other. */
  method SetValid(bitmap: array<Byte>, row: nat, valid: bool)
    requires row / 8 < bitmap.Length
    modifies bitmap
    ensures forall r: nat :: GetValid(bitmap[..], r) <==> if r == row then valid else GetValid(old(bitmap[..]), r)
  {
    hide Bit;
    bitmap[row / 8] := WithBit(bitmap[row / 8], row % 8, valid);
    forall r: nat
      ensures GetValid(bitmap[..], r) <==> if r == row then valid else GetValid(old(bitmap[..]), r)
    {
      SameBitSameRow(r, row);
    }
  }

  lemma SameBitSameRow(r: nat, row: nat)
    ensures r == row <==> r / 8 == row / 8 && r % 8 == row % 8
  {
  }

  // ----- counting -----

  /** The number of valid rows below `rows`. */
  function CountRows(bitmap: seq<Byte>, rows: nat): nat {
    if rows == 0 then 0 else CountRows(bitmap, rows - 1) + (if GetValid(bitmap, rows - 1) then 1 else 0)
  }

  /** `count_ones`. */
  function Ones(x: nat): nat {
    if x == 0 then 0 else x % 2 + Ones(x / 2)
  }

  function CountBits(x: nat, t: nat): nat {
    if t == 0 then 0 else CountBits(x, t - 1) + Bit(x, t - 1)
  }

  lemma {:induction false} CountBitsShift(x: nat, t: nat)
    requires t > 0
    ensures CountBits(x, t) == x % 2 + CountBits(x / 2, t - 1)
  {
    hide Bit;
    LowestBit(x);
    if t > 1 {
      CountBitsShift(x, t - 1);
      BitShift(x, t - 1);
    }
  }

  /** The ones among the lowest `t` bits. */
  lemma {:induction false} OnesOfLow(x: nat, t: nat)
    ensures Ones(x % Pow2(t)) == CountBits(x, t)
    decreases t
  {
    hide CountBits;
    if t == 0 {
      CountNone(x);
      assert Pow2(0) == 1;
    } else {
      var m := Pow2(t - 1);
      HalfWindow(x, m);
      OnesOfLow(x / 2, t - 1);
      CountBitsShift(x, t);
      OnesStep(x % (2 * m));
    }
  }

  lemma CountNone(x: nat)
    ensures CountBits(x, 0) == 0
  {
  }

  lemma OnesStep(y: nat)
    ensures Ones(y) == y % 2 + Ones(y / 2)
  {
  }

  /** Whole bytes and the low bits of the next one. */
  lemma {:induction false} CountInByte(bitmap: seq<Byte>, j: nat, t: nat)
    requires t <= 8
    ensures CountRows(bitmap, 8 * j + t)
         == CountRows(bitmap, 8 * j) + if j < |bitmap| then CountBits(bitmap[j], t) else 0
    decreases t
  {
    if t > 0 {
      CountInByte(bitmap, j, t - 1);
      assert (8 * j + t - 1) / 8 == j && (8 * j + t - 1) % 8 == t - 1;
    }
  }

  /** `count_valid`: whole bytes by population count, the last partial byte under a mask. */
  method CountValid(bitmap: seq<Byte>, rows: nat) returns (sum: nat)
    ensures sum == CountRows(bitmap, rows)
  {
    hide CountRows, CountBits, Ones, Pow2;
    var full, trailing := rows / 8, rows % 8;
    var end := if full < |bitmap| then full else |bitmap|;
    sum := 0;
    NoRows(bitmap);
    for j := 0 to end
      invariant sum == CountRows(bitmap, 8 * j)
    {
      CountInByte(bitmap, j, 8);
      OnesOfLow(bitmap[j], 8);
      ByteBelow(bitmap[j]);
      sum := sum + Ones(bitmap[j]);
    }
    PastTheEnd(bitmap, end, full);
    if trailing > 0 {
      var last := if full < |bitmap| then bitmap[full] else 0;
      CountInByte(bitmap, full, trailing);
      OnesOfLow(last, trailing);
      NoOnes(trailing);
      sum := sum + Ones(last % Pow2(trailing));
    }
  }

  lemma NoRows(bitmap: seq<Byte>)
    ensures CountRows(bitmap, 0) == 0
  {
  }

  lemma NoOnes(t: nat)
    ensures CountBits(0, t) == 0
  {
    if t > 0 {
      NoOnes(t - 1);
      ZeroBit(t - 1);
    }
  }

  lemma {:induction false} PastTheEnd(bitmap: seq<Byte>, end: nat, full: nat)
    requires end <= full && (end < full ==> end >= |bitmap|)
    ensures CountRows(bitmap, 8 * full) == CountRows(bitmap, 8 * end)
    decreases full
  {
    hide CountRows;
    if end < full {
      PastTheEnd(bitmap, end, full - 1);
      CountInByte(bitmap, full - 1, 8);
      assert 8 * (full - 1) + 8 == 8 * full;
    }
  }
}

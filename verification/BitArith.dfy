/** Powers of two, bitwise OR on naturals, and windows of bits. */
module BitArith {
  import opened IndexArith

  function Pow2(k: int): (p: int)
    ensures p >= 1
  {
    if k <= 0 then 1 else 2 * Pow2(k - 1)
  }

  lemma {:induction false} Pow2Add(a: nat, b: nat)
    ensures Pow2(a + b) == Pow2(a) * Pow2(b)
  {
    if a > 0 {
      Pow2Add(a - 1, b);
      assert a + b - 1 == a - 1 + b;
      Associates(2, Pow2(a - 1), Pow2(b));
    }
  }

  /** Bitwise OR, from the lowest bit up. */
  function Or(a: nat, b: nat): nat
    decreases a + b
  {
    if a == 0 && b == 0 then 0
    else 2 * Or(a / 2, b / 2) + (if a % 2 == 1 || b % 2 == 1 then 1 else 0)
  }

  lemma {:induction false} OrZero(b: nat)
    ensures Or(0, b) == b && Or(b, 0) == b
  {
    if b > 0 {
      OrZero(b / 2);
    }
  }

  /** Bits above `k` ORed onto a number below `2^k` are added to it. */
  lemma {:induction false} OrDisjoint(a: nat, v: nat, k: nat)
    requires a < Pow2(k)
    ensures v * Pow2(k) >= 0 && Or(a, v * Pow2(k)) == a + v * Pow2(k)
    decreases k
  {
    MulNonNegative(v, Pow2(k));
    if k == 0 {
      OrZero(v);
    } else {
      var half := v * Pow2(k - 1);
      MulNonNegative(v, Pow2(k - 1));
      assert v * Pow2(k) == 2 * half by {
        Associates(v, 2, Pow2(k - 1));
        Associates(2, v, Pow2(k - 1));
      }
      OrDisjoint(a / 2, v, k - 1);
      if a != 0 || half != 0 {
        assert (2 * half) / 2 == half && (2 * half) % 2 == 0;
      }
    }
  }

  /** The `k` residues above the `m` lowest. */
  lemma WindowOf(x: nat, m: int, k: int)
    requires m > 0 && k > 0
    ensures m * k > 0 && (x / m) % k == (x % (m * k)) / m
  {
    MulPositive(m, k);
    var q, r := x / (m * k), x % (m * k);
    Associates(q, k, m);
    assert m * k == k * m;
    assert x == q * (k * m) + r == q * k * m + r;
    Split(r, m, k);
    var d := r / m;
    MulNonNegative(q, k);
    assert d * m <= r < d * m + m;
    Distributes(q * k, d, m);
    Quotient(x, m, q * k + d);
    DivMod(q, d, k);
  }

  lemma Window(x: nat, a: nat, b: nat)
    ensures (x / Pow2(a)) % Pow2(b) == (x % Pow2(a + b)) / Pow2(a)
  {
    Pow2Add(a, b);
    WindowOf(x, Pow2(a), Pow2(b));
  }

  lemma {:induction false} Pow2Mono(a: nat, b: nat)
    requires a <= b
    ensures Pow2(a) <= Pow2(b)
    decreases b
  {
    if a < b {
      Pow2Mono(a, b - 1);
    }
  }

  // ----- single bits -----

  function Bit(x: nat, k: nat): (b: nat)
    ensures b < 2
  {
    (x / Pow2(k)) % 2
  }

  lemma BitShift(x: nat, k: nat)
    requires k > 0
    ensures Bit(x, k) == Bit(x / 2, k - 1)
  {
    var m := Pow2(k - 1);
    DivideTwice(x, m);
  }

  lemma DivideTwice(x: nat, m: int)
    requires m > 0
    ensures (x / m) / 2 == x / (2 * m) == (x / 2) / m
  {
    var q := x / m;
    var h, b := q / 2, q % 2;
    var hm := h * m;
    assert q == h + h + b;
    Distributes(h + h, b, m);
    Distributes(h, h, m);
    assert q * m == hm + hm + b * m;
    assert 0 <= b * m <= m;
    assert h * (2 * m) == 2 * hm by {
      Associates(2, h, m);
      Associates(h, 2, m);
    }
    Quotient(x, 2 * m, h);
    assert 2 * hm <= x < 2 * hm + 2 * m;
    Quotient(x / 2, m, h);
  }

  lemma {:induction false} OrBit(a: nat, b: nat, k: nat)
    ensures Bit(Or(a, b), k) == 1 <==> Bit(a, k) == 1 || Bit(b, k) == 1
    decreases k
  {
    if k == 0 {
      assert Pow2(0) == 1;
    } else {
      OrBit(a / 2, b / 2, k - 1);
      BitShift(a, k);
      BitShift(b, k);
      BitShift(Or(a, b), k);
    }
  }

  lemma {:induction false} OrBelow(a: nat, b: nat, n: nat)
    requires a < Pow2(n) && b < Pow2(n)
    ensures Or(a, b) < Pow2(n)
    decreases n
  {
    if n > 0 {
      OrBelow(a / 2, b / 2, n - 1);
    }
  }

  lemma {:induction false} PowBit(j: nat, k: nat)
    ensures Bit(Pow2(j), k) == 1 <==> j == k
    decreases k
  {
    if k == 0 {
      assert Pow2(0) == 1;
    } else {
      BitShift(Pow2(j), k);
      if j == 0 {
        ZeroBit(k - 1);
      } else {
        PowBit(j - 1, k - 1);
      }
    }
  }

  lemma ZeroBit(k: nat)
    ensures Bit(0, k) == 0
  {
    Quotient(0, Pow2(k), 0);
  }

  /** `x & !(1 << k)`. */
  function ClearBit(x: nat, k: nat): nat
    decreases k
  {
    if k == 0 then x - x % 2 else 2 * ClearBit(x / 2, k - 1) + x % 2
  }

  lemma LowestBit(x: nat)
    ensures Bit(x, 0) == x % 2
  {
    assert Pow2(0) == 1;
  }

  lemma {:induction false} ClearedBit(x: nat, k: nat, j: nat)
    ensures Bit(ClearBit(x, k), j) == if j == k then 0 else Bit(x, j)
    decreases k
  {
    hide Bit;
    LowestBit(x);
    LowestBit(ClearBit(x, k));
    if j > 0 {
      BitShift(x, j);
      BitShift(ClearBit(x, k), j);
      if k > 0 {
        ClearedBit(x / 2, k - 1, j - 1);
      }
    }
  }

  lemma {:induction false} ClearBelow(x: nat, k: nat)
    ensures ClearBit(x, k) <= x
    decreases k
  {
    if k > 0 {
      ClearBelow(x / 2, k - 1);
    }
  }

  /** Bits of a window. */
  lemma WindowBit(x: nat, a: nat, n: nat, k: nat)
    requires k < n
    ensures Bit((x / Pow2(a)) % Pow2(n), k) == Bit(x, a + k)
  {
    hide Pow2;
    LowBit(x / Pow2(a), n, k);
    Pow2Add(a, k);
    DivideBoth(x, Pow2(a), Pow2(k));
  }

  /** The bits below `n` survive taking the remainder by `2^n`. */
  lemma {:induction false} LowBit(y: nat, n: nat, k: nat)
    requires k < n
    ensures Bit(y % Pow2(n), k) == Bit(y, k)
    decreases n
  {
    var m := Pow2(n - 1);
    HalfWindow(y, m);
    assert Pow2(n) == 2 * m;
    if k == 0 {
      assert Pow2(0) == 1;
    } else {
      LowBit(y / 2, n - 1, k - 1);
      BitShift(y % Pow2(n), k);
      BitShift(y, k);
    }
  }

  lemma HalfWindow(y: nat, m: int)
    requires m > 0
    ensures (y % (2 * m)) % 2 == y % 2 && (y % (2 * m)) / 2 == (y / 2) % m
  {
    WindowOf(y, 2, m);
    var q, r := y / (2 * m), y % (2 * m);
    Associates(q, 2, m);
    assert y == 2 * (q * m) + r;
  }

  lemma DivideBoth(x: int, m: int, k: int)
    requires m > 0 && k > 0
    ensures m * k > 0 && (x / m) / k == x / (m * k)
  {
    MulPositive(m, k);
    var q := x / m;
    var h, b := q / k, q % k;
    Distributes(h * k, b, m);
    Associates(h, k, m);
    assert k * m == m * k;
    assert q * m == h * (m * k) + b * m;
    MulMono(b + 1, k, m);
    Distributes(b, 1, m);
    MulNonNegative(b, m);
    Quotient(x, m * k, h);
  }
}

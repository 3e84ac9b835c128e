/** The greedy radix planner of the FFT. */
module RadixPlanner {
  import opened Options
  import opened StockhamKernel

  const RADICES: seq<nat> := [8, 7, 6, 5, 4, 3, 2]

  predicate Prime(p: nat) {
    p >= 2 && forall d: nat | 2 <= d < p :: p % d != 0
  }

  /** No prime above 7 divides `n`. */
  predicate Smooth(n: nat)
    requires n >= 1
  {
    forall p: nat | 7 < p <= n && Prime(p) :: n % p != 0
  }

  // ----- divisibility -----

  lemma MultipleMod(q: nat, x: int)
    requires q > 0
    ensures (q * x) % q == 0
  {
    var d, m := (q * x) / q, (q * x) % q;
    assert q * x == q * d + m;
    assert q * (x - d) == m;
    assert x - d >= 1 ==> q * (x - d) >= q;
    assert d - x >= 1 ==> q * (d - x) >= q;
    assert q * (d - x) == -m;
  }

  lemma DividesMultiple(q: nat, a: int, b: int)
    requires q > 0 && a % q == 0
    ensures (a * b) % q == 0 && (b * a) % q == 0
  {
    var t := a / q;
    assert a == q * t;
    assert a * b == q * (t * b);
    MultipleMod(q, t * b);
  }

  /** Euclid's lemma for a prime `q` and a factor below it. */
  lemma {:induction false} Euclid(q: nat, r: nat, m: int)
    requires Prime(q) && 1 <= r < q && (r * m) % q == 0
    ensures m % q == 0
    decreases r
  {
    if r > 1 {
      var a, b, t := q / r, q % r, r * m / q;
      assert q == a * r + b && r * m == q * t;
      assert b * m == q * (m - a * t) by {
        assert b * m == q * m - a * r * m;
        assert a * r * m == a * (r * m);
        assert a * (q * t) == q * (a * t);
      }
      MultipleMod(q, m - a * t);
      Euclid(q, b, m);
    }
  }

  lemma {:induction false} PrimeAboveRadices(q: nat, radices: seq<nat>, rem: int)
    requires Prime(q) && q > 7
    requires forall i | 0 <= i < |radices| :: 2 <= radices[i] <= 8
    requires (Product(radices) * rem) % q == 0
    ensures rem % q == 0
  {
    if radices != [] {
      assert q != 8 by { assert 8 % 2 == 0; }
      var tail := Product(radices[1..]) * rem;
      assert Product(radices) * rem == radices[0] * tail;
      Euclid(q, radices[0], tail);
      PrimeAboveRadices(q, radices[1..], rem);
    }
  }

  /** Every number above 1 has a prime divisor. */
  lemma {:induction false} PrimeDivisor(n: nat, from: nat) returns (p: nat)
    requires n >= 2 && 2 <= from <= n
    requires forall d: nat | 2 <= d < from :: n % d != 0
    ensures Prime(p) && n % p == 0 && p <= n
    decreases n - from
  {
    hide Prime;
    if n % from == 0 {
      p := from;
      LeastDivisorIsPrime(n, from);
    } else {
      p := PrimeDivisor(n, from + 1);
    }
  }

  lemma LeastDivisorIsPrime(n: nat, p: nat)
    requires 2 <= p && n % p == 0
    requires forall d: nat | 2 <= d < p :: n % d != 0
    ensures Prime(p)
  {
    var q := n / p;
    assert p * q == n;
    forall d: nat | 2 <= d < p
      ensures p % d != 0
    {
      if p % d == 0 {
        DividesMultiple(d, p, q);
      }
    }
  }

  lemma NotDividingQuotient(d: nat, n: nat, r: nat)
    requires d > 0 && r > 0 && n % r == 0 && n % d != 0
    ensures (n / r) % d != 0
  {
    assert n / r * r == n;
    if (n / r) % d == 0 {
      DividesMultiple(d, n / r, r);
    }
  }

  lemma {:induction false} ProductAppend(radices: seq<nat>, r: nat)
    ensures Product(radices + [r]) == Product(radices) * r
  {
    if radices == [] {
      assert Product([r]) == r * Product([r][1..]);
    } else {
      assert (radices + [r])[1..] == radices[1..] + [r];
      ProductAppend(radices[1..], r);
    }
  }

  /** Radices all between 2 and 8, with `rem` left over from `n`. */
  ghost predicate Partial(n: nat, radices: seq<nat>, rem: nat) {
    rem >= 1 && Product(radices) * rem == n && forall i | 0 <= i < |radices| :: 2 <= radices[i] <= 8
  }

  /** None of the first `k` radices divides `rem` any more. */
  ghost predicate Exhausted(rem: nat, k: nat)
    requires k <= |RADICES|
  {
    forall i | 0 <= i < k :: rem % RADICES[i] != 0
  }

  lemma CompletePlanIsSmooth(n: nat, radices: seq<nat>)
    requires n >= 1 && Partial(n, radices, 1)
    ensures Smooth(n)
  {
    hide Prime, Product;
    forall p: nat | 7 < p <= n && Prime(p)
      ensures n % p != 0
    {
      if n % p == 0 {
        PrimeAboveRadices(p, radices, 1);
      }
    }
  }

  lemma ExhaustedRemainder(rem: nat)
    requires Exhausted(rem, |RADICES|)
    ensures rem % 7 != 0 && rem % 5 != 0 && rem % 3 != 0 && rem % 2 != 0
  {
    assert RADICES[1] == 7 && RADICES[3] == 5 && RADICES[5] == 3 && RADICES[6] == 2;
  }

  lemma SmallPrimes(p: nat)
    requires Prime(p) && p <= 7
    ensures p == 2 || p == 3 || p == 5 || p == 7
  {
    assert 4 % 2 == 0 && 6 % 2 == 0;
  }

  lemma IncompletePlanIsNotSmooth(n: nat, radices: seq<nat>, rem: nat)
    requires n >= 1 && Partial(n, radices, rem) && Exhausted(rem, |RADICES|) && rem > 1
    ensures !Smooth(n)
  {
    hide Prime, Product, Exhausted, Smooth;
    var p := PrimeDivisor(rem, 2);
    ExhaustedRemainder(rem);
    if p <= 7 {
      SmallPrimes(p);
    }
    DividesMultiple(p, rem, Product(radices));
    FactorBound(Product(radices), rem);
    NotSmooth(n, p);
  }

  lemma FactorBound(c: int, rem: int)
    requires rem >= 1 && c * rem >= 1
    ensures rem <= c * rem
  {
    assert c <= 0 ==> c * rem <= 0;
  }

  lemma NotSmooth(n: nat, p: nat)
    requires 7 < p <= n && Prime(p) && n % p == 0
    ensures !Smooth(n)
  {
  }

  /** The inner loop of `factorize`: divide out one radix as often as it goes. */
  method DivideOut(n: nat, out0: seq<nat>, rem0: nat, k: nat) returns (out: seq<nat>, rem: nat)
    requires k < |RADICES| && Partial(n, out0, rem0) && Exhausted(rem0, k)
    ensures Partial(n, out, rem) && Exhausted(rem, k + 1)
  {
    hide Product;
    out, rem := out0, rem0;
    var r := RADICES[k];
    assert 2 <= r <= 8;
    while rem % r == 0
      invariant Partial(n, out, rem) && Exhausted(rem, k)
      decreases rem
    {
      forall i | 0 <= i < k
        ensures (rem / r) % RADICES[i] != 0
      {
        NotDividingQuotient(RADICES[i], rem, r);
      }
      ProductAppend(out, r);
      assert r * (rem / r) == rem;
      assert Product(out) * r * (rem / r) == Product(out) * (r * (rem / r));
      out := out + [r];
      rem := rem / r;
    }
  }

  /** `factorize`: divide out 8, 7, 6, 5, 4, 3, 2 greedily. For `n >= 2` it succeeds
      exactly when no prime above 7 divides `n`. */
  method Factorize(n: int) returns (plan: Option<seq<nat>>)
    ensures n <= 0 ==> plan.None?
    ensures n == 1 ==> plan == Some([1])
    ensures n >= 2 ==> (plan.Some? <==> Smooth(n))
    ensures plan.Some? ==> n >= 1 && Product(plan.value) == n
    ensures plan.Some? && n >= 2 ==> forall i | 0 <= i < |plan.value| :: 2 <= plan.value[i] <= 8
  {
    hide Prime, Smooth;
    if n <= 0 {
      return None;
    }
    if n == 1 {
      assert Product([1]) == 1 * Product([1][1..]);
      return Some([1]);
    }
    var rem: nat := n;
    var out: seq<nat> := [];
    var k := 0;
    while k < |RADICES|
      invariant 0 <= k <= |RADICES|
      invariant Partial(n, out, rem) && Exhausted(rem, k)
    {
      out, rem := DivideOut(n, out, rem, k);
      k := k + 1;
    }
    if rem != 1 {
      IncompletePlanIsNotSmooth(n, out, rem);
      return None;
    }
    CompletePlanIsSmooth(n, out);
    return Some(out);
  }
}

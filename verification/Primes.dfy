// isprime of src/servers/uv_prime_server.c on 64-bit unsigned integers, whose products
// wrap, against the definition of a prime number.
module Primes {
  import opened Bytes

  const MAX_32 := 0xFFFF_FFFF

  // The square of this number is 7 below a multiple of 2^64, so the loop guard fails at it
  // for every n below 2^64 - 7.
  const LAST_GUARD := 1852311383259529397

  ghost predicate Prime(n: nat) {
    n >= 2 && forall d :: 2 <= d < n ==> n % d != 0
  }

  function Square64(r: nat): nat { (r * r) % TWO_64 }

  lemma DivisorBounds(n: nat, d: nat, q: nat)
    requires n >= 2 && 2 <= d < n && n == d * q
    ensures 2 <= q < n
  {
    assert q != 0 && q != 1;
    assert q < d * q;
  }

  lemma EvenTimes(d: nat, q: nat)
    ensures d % 2 == 0 ==> (d * q) % 2 == 0
  {
    if d % 2 == 0 {
      var h := d / 2;
      assert d * q == 2 * (h * q);
    }
  }

  lemma Quotient(x: nat, q: nat, r: nat, d: nat)
    requires r < d && x == q * d + r
    ensures x % d == r
  {
    var k := q - x / d;
    assert d * k == x % d - r;
    if k >= 1 {
      MultipleAtLeast(d, k);
    } else if k <= -1 {
      MultipleAtLeast(d, -k);
    }
  }

  lemma MultipleAtLeast(d: nat, k: nat)
    requires k >= 1
    ensures d * k >= d
  {
  }

  // An odd number with a proper divisor has one not above its square root.
  lemma SmallerDivisor(n: nat, e: nat) returns (d: nat)
    requires n % 2 == 1 && 2 <= e < n && n % e == 0
    ensures 3 <= d < n && d % 2 == 1 && n % d == 0 && d * d <= n
  {
    var q := n / e;
    assert n == e * q;
    DivisorBounds(n, e, q);
    EvenTimes(e, q);
    EvenTimes(q, e);
    assert q * e == n;
    Quotient(n, e, 0, q);
    if e <= q {
      d := e;
      ProductMonotone(e, e, q);
    } else {
      d := q;
      ProductMonotone(q, q, e);
    }
  }

  lemma SmallDivisor(n: nat) returns (d: nat)
    requires n % 2 == 1 && n > 1 && !Prime(n)
    ensures 3 <= d < n && d % 2 == 1 && n % d == 0 && d * d <= n
  {
    var e :| 2 <= e < n && n % e == 0;
    d := SmallerDivisor(n, e);
  }

  lemma ProductMonotone(c: nat, a: nat, b: nat)
    requires a <= b
    ensures c * a <= c * b
  {
  }

  lemma SquareMonotone(a: nat, b: nat)
    requires a <= b
    ensures a * a <= b * b
  {
  }

  // No product wraps at or below 2^32 - 1.
  lemma SmallSquare(r: nat)
    requires r <= MAX_32
    ensures Square64(r) == r * r
  {
    SquareMonotone(r, MAX_32);
  }

  // The four odd numbers too close to 2^64 for LAST_GUARD are composite.
  function SmallFactor(n: nat): nat {
    if n == TWO_64 - 5 then 11 else if n == TWO_64 - 3 then 13 else 3
  }

  lemma TopNumbersComposite(n: nat)
    requires TWO_64 - 7 <= n < TWO_64 && n % 2 == 1
    ensures n % SmallFactor(n) == 0
  {
    assert n == TWO_64 - 7 || n == TWO_64 - 5 || n == TWO_64 - 3 || n == TWO_64 - 1;
  }

  lemma LastGuardFails()
    ensures Square64(LAST_GUARD) == TWO_64 - 7
  {
  }

  // Where the loop can be at most while it has found no divisor of n.
  ghost predicate InRange(n: nat, r: nat) {
    if n < MAX_32 * MAX_32 then r <= MAX_32
    else if n < TWO_64 - 7 then r <= LAST_GUARD
    else r <= SmallFactor(n)
  }

  ghost predicate NoDivisorBelow(n: nat, r: nat) {
    forall q :: 3 <= q < r && q % 2 == 1 ==> n % q != 0
  }

  lemma StaysInRange(n: nat, r: nat)
    requires n < TWO_64 && n % 2 == 1 && r % 2 == 1 && r >= 3 && InRange(n, r)
    requires Square64(r) <= n && n % r != 0 && NoDivisorBelow(n, r)
    ensures InRange(n, r + 2) && r + 2 < TWO_64 && NoDivisorBelow(n, r + 2)
  {
    if n < MAX_32 * MAX_32 {
      SmallSquare(r);
      assert r != MAX_32;
    } else if n < TWO_64 - 7 {
      LastGuardFails();
    } else {
      TopNumbersComposite(n);
    }
  }

  // A divisor the loop meets is a proper one.
  lemma ProperDivisor(n: nat, r: nat)
    requires n < TWO_64 && r >= 3 && InRange(n, r) && Square64(r) <= n
    ensures r < n
  {
    if n < MAX_32 * MAX_32 {
      SmallSquare(r);
      ProductMonotone(r, 2, r);
    }
  }

  // As long as no divisor was met, the guard of a composite holds and does not wrap.
  lemma CompositeGuardHolds(n: nat, r: nat)
    requires 1 < n < TWO_64 && n % 2 == 1 && NoDivisorBelow(n, r) && !Prime(n)
    ensures r * r <= n && Square64(r) <= n
  {
    var d := SmallDivisor(n);
    SquareMonotone(r, d);
  }

  lemma EvenPrime(n: nat)
    requires n % 2 == 0
    ensures Prime(n) <==> n == 2
  {
    if n > 2 {
      assert n % 2 == 0;
    }
  }

  lemma FoundDivisor(n: nat, r: nat)
    requires n < TWO_64 && r >= 3 && InRange(n, r) && Square64(r) <= n && n % r == 0
    ensures !Prime(n) && n != 1
  {
    ProperDivisor(n, r);
  }

  lemma FirstGuard(n: nat)
    ensures InRange(n, 3) && NoDivisorBelow(n, 3)
  {
  }

  // Exact on the whole 64-bit range but for n = 1, which is reported prime: composites are
  // found before any product wraps, and for the primes whose loop does wrap the guard
  // fails before r gets to n.
  method IsPrime(n: nat) returns (prime: bool)
    requires n < TWO_64
    ensures prime <==> Prime(n) || n == 1
  {
    hide Prime, InRange, NoDivisorBelow, Square64;
    if n % 2 == 0 {
      EvenPrime(n);
      prime := n == 2;
      return;
    }
    var r := 3;
    FirstGuard(n);
    while Square64(r) <= n
      invariant r % 2 == 1 && 3 <= r < TWO_64 && InRange(n, r) && NoDivisorBelow(n, r)
      decreases TWO_64 - r
    {
      if n % r == 0 {
        FoundDivisor(n, r);
        return false;
      }
      StaysInRange(n, r);
      r := (r + 2) % TWO_64;
    }
    if n > 1 && !Prime(n) {
      CompositeGuardHolds(n, r);
    }
    prime := true;
  }

  // ---- Where the products wrap ----

  // The loop evaluates its guard at r.
  ghost predicate Reached(n: nat, r: nat) {
    && r >= 3 && r % 2 == 1
    && forall q :: 3 <= q < r && q % 2 == 1 ==> Square64(q) <= n && n % q != 0
  }

  // Sharp bound: the guard of some odd n < 2^64 evaluates a product that does not fit in
  // 64 bits exactly if n is a prime not below (2^32 - 1)^2.
  lemma WrapsIff(n: nat)
    requires n < TWO_64 && n % 2 == 1
    ensures (exists r: nat :: Reached(n, r) && r * r >= TWO_64) <==> Prime(n) && n >= MAX_32 * MAX_32
  {
    if Prime(n) && n >= MAX_32 * MAX_32 {
      var r := MAX_32 + 2;
      forall q | 3 <= q < r && q % 2 == 1
        ensures Square64(q) <= n && n % q != 0
      {
        SmallSquare(q);
        SquareMonotone(q, MAX_32);
      }
      assert Reached(n, r) && r * r >= TWO_64;
    }
    if r: nat :| Reached(n, r) && r * r >= TWO_64 {
      BigRoot(r);
      SmallSquare(MAX_32);
      assert Square64(MAX_32) <= n;
      if !Prime(n) {
        CompositeGuardHolds(n, r);
      }
    }
  }

  lemma BigRoot(r: nat)
    requires r * r >= TWO_64
    ensures r > MAX_32
  {
    if r <= MAX_32 {
      SquareMonotone(r, MAX_32);
    }
  }
}

// A prime for which the products of isprime do wrap: 2^64 - 2^32 + 1. That it is prime
// follows from a number whose powers go through 2^32 different remainders modulo each of
// its divisors, so that no divisor lies below its square root.
module WrappingPrime {
  import opened Bytes
  import opened Primes

  const EXAMPLE := 0xFFFF_FFFF_0000_0001
  const ROOT := 1753635133440165772

  function Power(x: nat, e: nat): nat { if e == 0 then 1 else x * Power(x, e - 1) }
  function TwoTo(k: nat): (n: nat) ensures n >= 1 { if k == 0 then 1 else 2 * TwoTo(k - 1) }

  function Rem(x: nat, d: nat): (r: nat)
    requires d > 0
    ensures r < d && (x < d ==> r == x)
  {
    x % d
  }

  lemma RemIs(x: nat, q: nat, r: nat, d: nat)
    requires r < d && x == q * d + r
    ensures Rem(x, d) == r
  {
    Quotient(x, q, r, d);
  }

  lemma Divide(x: nat, d: nat) returns (q: nat)
    requires d > 0
    ensures x == q * d + Rem(x, d)
  {
    q := x / d;
  }

  lemma Expand(a: nat, b: nat, p: nat, r: nat, q: nat, s: nat, d: nat) returns (k: nat, rest: nat)
    requires a == p * d + r && b == q * d + s
    ensures a * b == k * d + rest && rest == r * s
  {
    k, rest := p * b + r * q, r * s;
    assert a * b == p * d * b + r * b;
    assert p * d * b == p * b * d;
    assert r * b == r * q * d + r * s;
    assert (p * b + r * q) * d == p * b * d + r * q * d;
  }

  lemma RemOfSum(x: nat, k: nat, y: nat, d: nat)
    requires d > 0 && x == k * d + y
    ensures Rem(x, d) == Rem(y, d)
  {
    hide Rem;
    var t := Divide(y, d);
    assert k * d + t * d == (k + t) * d;
    RemIs(x, k + t, Rem(y, d), d);
  }

  lemma RemProduct(a: nat, b: nat, d: nat)
    requires d > 0
    ensures Rem(a * b, d) == Rem(Rem(a, d) * Rem(b, d), d)
  {
    hide Rem;
    var p := Divide(a, d);
    var q := Divide(b, d);
    var k, rest := Expand(a, b, p, Rem(a, d), q, Rem(b, d), d);
    RemOfSum(a * b, k, rest, d);
  }

  lemma Regroup(a: nat, b: nat, c: nat)
    ensures a * (b * c) == (a * b) * c
  {
  }

  lemma {:induction false} PowerSum(x: nat, i: nat, j: nat)
    ensures Power(x, i + j) == Power(x, i) * Power(x, j)
  {
    if i > 0 {
      PowerSum(x, i - 1, j);
      Regroup(x, Power(x, i - 1), Power(x, j));
    }
  }

  lemma {:induction false} PowerOfPower(x: nat, i: nat, j: nat)
    ensures Power(Power(x, i), j) == Power(x, i * j)
  {
    if j == 0 {
      assert i * j == 0;
    } else {
      PowerOfPower(x, i, j - 1);
      PowerSum(x, i, i * (j - 1));
      assert i * j == i + i * (j - 1);
    }
  }

  lemma {:induction false} PowerOfOne(x: nat, e: nat, d: nat)
    requires d > 1 && Rem(x, d) == 1
    ensures Rem(Power(x, e), d) == 1
  {
    hide Rem;
    if e > 0 {
      PowerOfOne(x, e - 1, d);
      RemProduct(x, Power(x, e - 1), d);
    }
  }

  lemma MinusOneSquared(d: nat)
    requires d > 2
    ensures Rem((d - 1) * (d - 1), d) == 1
  {
    hide Rem;
    assert (d - 1) * (d - 1) == (d - 2) * d + 1;
    RemIs((d - 1) * (d - 1), d - 2, 1, d);
  }

  // (-1)^e
  lemma {:induction false} PowerOfMinusOne(x: nat, e: nat, d: nat)
    requires d > 2 && Rem(x, d) == d - 1
    ensures Rem(Power(x, e), d) == if e % 2 == 0 then 1 else d - 1
  {
    hide Rem;
    if e > 0 {
      PowerOfMinusOne(x, e - 1, d);
      RemProduct(x, Power(x, e - 1), d);
      MinusOneSquared(d);
    }
  }

  // If x^(2^r) is -1 modulo d, no power of x below 2^(r+1) is 1.
  lemma OddIsNoCycle(x: nat, n: nat, k: nat, d: nat)
    requires d > 2 && Rem(Power(x, n), d) == d - 1 && k % 2 == 1
    ensures Rem(Power(x, k), d) != 1
  {
    hide Rem, Power;
    if Rem(Power(x, k), d) == 1 {
      PowerOfOne(Power(x, k), n, d);
      PowerOfMinusOne(Power(x, n), k, d);
      PowerOfPower(x, k, n);
      PowerOfPower(x, n, k);
      assert false;
    }
  }

  lemma {:induction false} NoShortCycle(x: nat, r: nat, k: nat, d: nat)
    requires d > 2 && Rem(Power(x, TwoTo(r)), d) == d - 1 && 0 < k < TwoTo(r + 1)
    ensures Rem(Power(x, k), d) != 1
    decreases r
  {
    hide Rem, Power;
    if k % 2 == 1 {
      OddIsNoCycle(x, TwoTo(r), k, d);
    } else {
      PowerOfPower(x, 2, k / 2);
      PowerOfPower(x, 2, TwoTo(r - 1));
      NoShortCycle(Power(x, 2), r - 1, k / 2, d);
    }
  }

  lemma FullCycle(x: nat, r: nat, d: nat)
    requires d > 2 && Rem(Power(x, TwoTo(r)), d) == d - 1
    ensures Rem(Power(x, TwoTo(r + 1)), d) == 1
  {
    hide Rem, Power;
    PowerOfPower(x, TwoTo(r), 2);
    PowerOfMinusOne(Power(x, TwoTo(r)), 2, d);
    assert TwoTo(r) * 2 == TwoTo(r + 1);
  }

  lemma AllDifferent(x: nat, r: nat, i: nat, j: nat, d: nat)
    requires d > 2 && Rem(Power(x, TwoTo(r)), d) == d - 1 && i < j < TwoTo(r + 1)
    ensures Rem(Power(x, i), d) != Rem(Power(x, j), d)
  {
    hide Rem, Power, TwoTo;
    var n := TwoTo(r + 1);
    FullCycle(x, r, d);
    NoShortCycle(x, r, j - i, d);
    PowerSum(x, n - i, i);
    PowerSum(x, n - i, j);
    PowerSum(x, n, j - i);
    RemProduct(Power(x, n - i), Power(x, i), d);
    RemProduct(Power(x, n - i), Power(x, j), d);
    RemProduct(Power(x, n), Power(x, j - i), d);
  }

  function Remainders(x: nat, n: nat, d: nat): set<nat>
    requires d > 0
  {
    if n == 0 then {} else Remainders(x, n - 1, d) + {Rem(Power(x, n - 1), d)}
  }

  lemma {:induction false} RemainderOf(x: nat, n: nat, d: nat, y: nat) returns (i: nat)
    requires d > 0 && y in Remainders(x, n, d)
    ensures i < n && Rem(Power(x, i), d) == y
  {
    i := n - 1;
    if Rem(Power(x, i), d) != y {
      i := RemainderOf(x, n - 1, d, y);
    }
  }

  lemma {:induction false} Upto(s: set<nat>, d: nat)
    requires forall y :: y in s ==> y < d
    ensures |s| <= d
  {
    if d == 0 {
      assert s == {};
    } else {
      Upto(s - {d - 1}, d - 1);
    }
  }

  lemma {:induction false} ManyRemainders(x: nat, r: nat, n: nat, d: nat)
    requires d > 2 && Rem(Power(x, TwoTo(r)), d) == d - 1 && n <= TwoTo(r + 1)
    ensures |Remainders(x, n, d)| == n
  {
    if n > 0 {
      ManyRemainders(x, r, n - 1, d);
      if Rem(Power(x, n - 1), d) in Remainders(x, n - 1, d) {
        var i := RemainderOf(x, n - 1, d, Rem(Power(x, n - 1), d));
        AllDifferent(x, r, i, n - 1, d);
      }
    }
  }

  lemma DivisorIsLarge(x: nat, r: nat, d: nat)
    requires d > 2 && Rem(Power(x, TwoTo(r)), d) == d - 1
    ensures d >= TwoTo(r + 1)
  {
    var n := TwoTo(r + 1);
    ManyRemainders(x, r, n, d);
    forall y | y in Remainders(x, n, d) ensures y < d {
      var _ := RemainderOf(x, n, d, y);
    }
    Upto(Remainders(x, n, d), d);
  }

  // Modulo EXAMPLE, written out for the verifier to compute with.
  function Square(x: nat): nat { (x * x) % 0xFFFF_FFFF_0000_0001 }

  // x squared k times.
  function Squared(x: nat, k: nat): nat
    decreases k
  {
    if k == 0 then x else Squared(Square(x), k - 1)
  }

  lemma {:induction false} SquaredIsPower(x: nat, y: nat, k: nat)
    requires Rem(y, EXAMPLE) == x
    ensures Rem(Power(y, TwoTo(k)), EXAMPLE) == Squared(x, k)
    decreases k
  {
    if k == 0 {
      assert Power(y, 1) == y;
    } else {
      RemProduct(y, y, EXAMPLE);
      PowerOfPower(y, 2, TwoTo(k - 1));
      assert Power(y, 2) == y * Power(y, 1) == y * y;
      SquaredIsPower(Square(x), y * y, k - 1);
    }
  }

  lemma SquareOnce(x: nat, y: nat, k: nat)
    requires Square(x) == y
    ensures Squared(x, k + 1) == Squared(y, k)
  {
  }

  lemma FirstSquares()
    ensures Squared(1753635133440165772, 31) == Squared(6115771955107415310, 15)
  {
    hide Squared;
    SquareOnce(1753635133440165772, 4614640910117430873, 30);
    SquareOnce(4614640910117430873, 9123114210336311365, 29);
    SquareOnce(9123114210336311365, 16116352524544190054, 28);
    SquareOnce(16116352524544190054, 6414415596519834757, 27);
    SquareOnce(6414415596519834757, 1213594585890690845, 26);
    SquareOnce(1213594585890690845, 17096174751763063430, 25);
    SquareOnce(17096174751763063430, 5456943929260765144, 24);
    SquareOnce(5456943929260765144, 9713644485405565297, 23);
    SquareOnce(9713644485405565297, 16905767614792059275, 22);
    SquareOnce(16905767614792059275, 5416168637041100469, 21);
    SquareOnce(5416168637041100469, 17654865857378133588, 20);
    SquareOnce(17654865857378133588, 3511170319078647661, 19);
    SquareOnce(3511170319078647661, 18146160046829613826, 18);
    SquareOnce(18146160046829613826, 9306717745644682924, 17);
    SquareOnce(9306717745644682924, 12380578893860276750, 16);
    SquareOnce(12380578893860276750, 6115771955107415310, 15);
  }

  lemma LastSquares()
    ensures Squared(6115771955107415310, 15) == Squared(18446744069414584320, 0)
  {
    hide Squared;
    SquareOnce(6115771955107415310, 17776499369601055404, 14);
    SquareOnce(17776499369601055404, 16207902636198568418, 13);
    SquareOnce(16207902636198568418, 1532612707718625687, 12);
    SquareOnce(1532612707718625687, 17492915097719143606, 11);
    SquareOnce(17492915097719143606, 455906449640507599, 10);
    SquareOnce(455906449640507599, 11353340290879379826, 9);
    SquareOnce(11353340290879379826, 1803076106186727246, 8);
    SquareOnce(1803076106186727246, 13797081185216407910, 7);
    SquareOnce(13797081185216407910, 17870292113338400769, 6);
    SquareOnce(17870292113338400769, 549755813888, 5);
    SquareOnce(549755813888, 70368744161280, 4);
    SquareOnce(70368744161280, 17293822564807737345, 3);
    SquareOnce(17293822564807737345, 18446744069397807105, 2);
    SquareOnce(18446744069397807105, 281474976710656, 1);
    SquareOnce(281474976710656, 18446744069414584320, 0);
  }

  lemma RootIsRoot()
    ensures Squared(ROOT, 31) == EXAMPLE - 1
  {
    FirstSquares();
    LastSquares();
  }

  // What is -1 modulo n is -1 modulo every divisor of n.
  lemma MinusOneModDivisor(x: nat, n: nat, d: nat)
    requires n > 0 && d > 0 && Rem(x, n) == n - 1 && Rem(n, d) == 0
    ensures Rem(x, d) == d - 1
  {
    hide Rem;
    var q := Divide(x, n);
    var m := Divide(n, d);
    assert q * (m * d) == (q * m) * d;
    assert (q * m + m - 1) * d == (q * m) * d + m * d - d;
    assert q * m + m - 1 >= 0;
    RemIs(x, q * m + m - 1, d - 1, d);
  }

  lemma TwoTo32()
    ensures TwoTo(32) == 0x1_0000_0000
  {
    assert TwoTo(8) == 0x100 && TwoTo(16) == 0x1_0000 && TwoTo(24) == 0x100_0000;
  }

  lemma DivisorsAreLarge(d: nat)
    requires d > 2 && Rem(EXAMPLE, d) == 0
    ensures d >= 0x1_0000_0000
  {
    hide Rem, Power, Squared, TwoTo;
    SquaredIsPower(ROOT, ROOT, 31);
    RootIsRoot();
    MinusOneModDivisor(Power(ROOT, TwoTo(31)), EXAMPLE, d);
    DivisorIsLarge(ROOT, 31, d);
    TwoTo32();
  }

  // The guard of isprime(18446744069414584321) evaluates a product that wraps.
  lemma SomeGuardWraps()
    ensures EXAMPLE < TWO_64 && Prime(EXAMPLE)
    ensures exists r: nat :: Reached(EXAMPLE, r) && r * r >= TWO_64
  {
    if !Prime(EXAMPLE) {
      var d := SmallDivisor(EXAMPLE);
      DivisorsAreLarge(d);
      SquareMonotone(0x1_0000_0000, d);
    }
    WrapsIff(EXAMPLE);
  }
}

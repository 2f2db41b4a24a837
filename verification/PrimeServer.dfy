// The request and the reply of src/servers/uv_prime_server.c around isprime.
module PrimeServer {
  import opened Bytes
  import opened Primes

  // "prime\n" and "composite\n"
  const PRIME: seq<Byte> := [112, 114, 105, 109, 101, 10]
  const COMPOSITE: seq<Byte> := [99, 111, 109, 112, 111, 115, 105, 116, 101, 10]

  predicate IsDigit(c: Byte) { 48 <= c <= 57 }

  function Digit(c: Byte): nat
    requires IsDigit(c)
  {
    c as int - 48
  }

  // The number a run of digits denotes.
  function Value(digits: seq<Byte>): nat
    requires forall i :: 0 <= i < |digits| ==> IsDigit(digits[i])
  {
    if digits == [] then 0 else 10 * Value(digits[..|digits| - 1]) + Digit(digits[|digits| - 1])
  }

  function LeadingDigits(s: seq<Byte>): (n: nat)
    ensures n <= |s| && forall i :: 0 <= i < n ==> IsDigit(s[i])
    ensures n < |s| ==> !IsDigit(s[n])
  {
    if s == [] || !IsDigit(s[0]) then 0 else 1 + LeadingDigits(s[1..])
  }

  function RequestedNumber(s: seq<Byte>): nat {
    Value(s[..LeadingDigits(s)]) % TWO_64
  }

  function Decimal(n: nat): (s: seq<Byte>)
    ensures |s| >= 1 && forall i :: 0 <= i < |s| ==> IsDigit(s[i])
  {
    if n < 10 then [48 + n] else Decimal(n / 10) + [48 + n % 10]
  }

  lemma {:induction false} ValueOfDecimal(n: nat)
    ensures Value(Decimal(n)) == n
  {
    if n >= 10 {
      ValueOfDecimal(n / 10);
      assert Decimal(n)[..|Decimal(n)| - 1] == Decimal(n / 10);
    } else {
      assert Decimal(n)[..0] == [];
    }
  }

  lemma {:induction false} LeadingDigitsAre(digits: seq<Byte>, rest: seq<Byte>)
    requires forall i :: 0 <= i < |digits| ==> IsDigit(digits[i])
    requires rest == [] || !IsDigit(rest[0])
    ensures LeadingDigits(digits + rest) == |digits|
  {
    if digits == [] {
      assert digits + rest == rest;
    } else {
      assert (digits + rest)[1..] == digits[1..] + rest;
      LeadingDigitsAre(digits[1..], rest);
    }
  }

  lemma {:induction false} ValueOfZeros(zeros: seq<Byte>, digits: seq<Byte>)
    requires forall i :: 0 <= i < |zeros| ==> zeros[i] == 48
    requires forall i :: 0 <= i < |digits| ==> IsDigit(digits[i])
    ensures Value(zeros + digits) == Value(digits)
    decreases |zeros| + |digits|
  {
    var s := zeros + digits;
    if digits != [] {
      assert s[..|s| - 1] == zeros + digits[..|digits| - 1];
      ValueOfZeros(zeros, digits[..|digits| - 1]);
    } else if zeros != [] {
      assert s == zeros && zeros[..|zeros| - 1] + [] == zeros[..|zeros| - 1];
      ValueOfZeros(zeros[..|zeros| - 1], []);
    }
  }

  // Printing a number, with any zeros in front, and parsing the request gives the number
  // back modulo 2^64.
  lemma PrintThenParse(zeros: seq<Byte>, n: nat, rest: seq<Byte>)
    requires forall i :: 0 <= i < |zeros| ==> zeros[i] == 48
    requires rest == [] || !(48 <= rest[0] <= 57)
    ensures RequestedNumber(zeros + Decimal(n) + rest) == n % TWO_64
  {
    var digits := zeros + Decimal(n);
    LeadingDigitsAre(digits, rest);
    assert (digits + rest)[..|digits|] == digits;
    ValueOfZeros(zeros, Decimal(n));
    ValueOfDecimal(n);
  }

  // The two laws that fix the number of every request: 0 without a leading digit, and ten
  // times as much plus the digit for one more of them, modulo 2^64.
  lemma NoLeadingDigit(rest: seq<Byte>)
    requires rest == [] || !(48 <= rest[0] <= 57)
    ensures RequestedNumber(rest) == 0
  {
    assert rest[..0] == [];
  }

  lemma OneMoreDigit(digits: seq<Byte>, c: Byte, rest: seq<Byte>)
    requires (forall i :: 0 <= i < |digits| ==> 48 <= digits[i] <= 57) && 48 <= c <= 57
    requires rest == [] || !(48 <= rest[0] <= 57)
    ensures RequestedNumber(digits + [c] + rest) == (10 * RequestedNumber(digits) + (c - 48)) % TWO_64
  {
    var more := digits + [c];
    LeadingDigitsAre(more, rest);
    LeadingDigitsAre(digits, []);
    assert (more + rest)[..|more|] == more && more[..|digits|] == digits;
    assert digits + [] == digits && digits[..|digits|] == digits;
    ModStep(Value(digits), Digit(c));
  }

  lemma ModStep(a: nat, d: nat)
    ensures ((a % TWO_64) * 10 + d) % TWO_64 == (a * 10 + d) % TWO_64
  {
    var k := a / TWO_64;
    assert a * 10 + d == (a % TWO_64) * 10 + d + (10 * k) * TWO_64;
    ModMultiple((a % TWO_64) * 10 + d, 10 * k);
  }

  lemma {:induction false} ModMultiple(a: nat, k: nat)
    ensures (a + k * TWO_64) % TWO_64 == a % TWO_64
  {
    if k > 0 {
      ModMultiple(a, k - 1);
      assert a + k * TWO_64 == (a + (k - 1) * TWO_64) + TWO_64;
    }
  }

  datatype Outcome = Closed | Nothing | Queued | Replied(bytes: seq<Byte>)

  function Verdict(prime: bool): seq<Byte> { if prime then PRIME else COMPOSITE }

  // peer_state_t
  class Peer {
    var number: nat
    const sendbuf: array<Byte>
    var sendbufEnd: nat

    ghost predicate Valid()
      reads this
    {
      number < TWO_64 && sendbuf.Length == SENDBUF_SIZE && sendbufEnd <= SENDBUF_SIZE
    }

    ghost function Reply(): seq<Byte>
      requires Valid()
      reads this, sendbuf
    {
      sendbuf[..sendbufEnd]
    }

    constructor ()
      ensures Valid() && fresh(sendbuf) && Reply() == []
    {
      number, sendbufEnd := 0, 0;
      sendbuf := new Byte[SENDBUF_SIZE](_ => 0);
    }

    method SetPeerSendbuf(str: seq<Byte>)
      requires Valid() && |str| <= SENDBUF_SIZE
      modifies this`sendbufEnd, sendbuf
      ensures Valid() && Reply() == str
    {
      for i := 0 to |str|
        invariant sendbuf[..i] == str[..i]
      {
        sendbuf[i] := str[i];
      }
      sendbufEnd := |str|;
    }

    // The digit loop of on_peer_read, over the nread bytes of the request.
    method ParseNumber(buf: seq<Byte>) returns (n: nat)
      ensures n == RequestedNumber(buf)
    {
      n := 0;
      for i := 0 to |buf|
        invariant forall k :: 0 <= k < i ==> IsDigit(buf[k])
        invariant n == Value(buf[..i]) % TWO_64
      {
        if IsDigit(buf[i]) {
          assert buf[..i + 1][..i] == buf[..i];
          ModStep(Value(buf[..i]), Digit(buf[i]));
          n := (n * 10 + Digit(buf[i])) % TWO_64;
        } else {
          RunEnds(buf, i);
          return;
        }
      }
      RunEnds(buf, |buf|);
    }

    // Also the body of the BLOCK branch of on_peer_read.
    method OnWorkSubmitted()
      requires Valid()
      modifies this`sendbufEnd, sendbuf
      ensures Valid() && Reply() == Verdict(Prime(number) || number == 1)
    {
      var prime := IsPrime(number);
      if prime {
        SetPeerSendbuf(PRIME);
      } else {
        SetPeerSendbuf(COMPOSITE);
      }
    }

    method OnWorkCompleted() returns (written: seq<Byte>)
      requires Valid()
      ensures written == Reply()
    {
      written := sendbuf[..sendbufEnd];
    }

    // A negative nread is the end of the input or an error. `block` is MODE=BLOCK.
    method OnPeerRead(nread: int, buf: seq<Byte>, block: bool) returns (outcome: Outcome)
      requires Valid() && nread <= |buf|
      modifies this, sendbuf
      ensures Valid()
      ensures outcome.Closed? <==> nread < 0
      ensures outcome.Nothing? <==> nread == 0
      ensures nread > 0 ==> number == RequestedNumber(buf[..nread])
      ensures nread <= 0 ==> number == old(number) && Reply() == old(Reply())
      ensures outcome.Replied? ==> outcome.bytes == Verdict(Prime(number) || number == 1)
      ensures nread > 0 ==> (outcome.Replied? <==> block)
    {
      if nread < 0 {
        return Closed;
      }
      if nread == 0 {
        return Nothing;
      }
      var n := ParseNumber(buf[..nread]);
      number := n;
      if !block {
        return Queued;
      }
      OnWorkSubmitted();
      var bytes := OnWorkCompleted();
      outcome := Replied(bytes);
    }
  }

  lemma {:induction false} RunEnds(s: seq<Byte>, n: nat)
    requires n <= |s| && (forall k :: 0 <= k < n ==> IsDigit(s[k])) && (n < |s| ==> !IsDigit(s[n]))
    ensures LeadingDigits(s) == n
  {
    assert s == s[..n] + s[n..];
    LeadingDigitsAre(s[..n], s[n..]);
  }

  // A client that prints any number n that is not 1 modulo 2^64, and ends the request with
  // a non-digit, is told the truth about n modulo 2^64, with and without the work queue.
  method AskTheServer(zeros: seq<Byte>, n: nat, rest: seq<Byte>, block: bool) returns (reply: seq<Byte>)
    requires forall i :: 0 <= i < |zeros| ==> zeros[i] == 48
    requires rest == [] || !(48 <= rest[0] <= 57)
    ensures reply == PRIME <==> Prime(n % TWO_64) || n % TWO_64 == 1
    ensures reply == COMPOSITE <==> !Prime(n % TWO_64) && n % TWO_64 != 1
  {
    var request := zeros + Decimal(n) + rest;
    PrintThenParse(zeros, n, rest);
    var peer := new Peer();
    var outcome := peer.OnPeerRead(|request|, request, block);
    assert request[..|request|] == request;
    if block {
      reply := outcome.bytes;
    } else {
      peer.OnWorkSubmitted();
      reply := peer.OnWorkCompleted();
    }
    assert PRIME != COMPOSITE by { assert PRIME[0] != COMPOSITE[0]; }
  }
}

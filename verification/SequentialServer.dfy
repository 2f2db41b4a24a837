// handle_connection of src/servers/sequential_server.c, which src/servers/thread_server.c
// repeats unchanged: the simple form the event-driven servers are compared with.
module SequentialServer {
  import opened Bytes
  import opened Framing

  datatype Outcome = Finished | SendFailed | Exited

  // With no credit a send fails; without a limit it never does.
  datatype Credit = Unlimited | Limited(n: nat) {
    predicate Covers(sends: nat) { Unlimited? || sends <= n }
    function Spend(): Credit { if Limited? && n > 0 then Limited(n - 1) else this }
  }

  function Flatten(chunks: seq<seq<Byte>>): seq<Byte> {
    if chunks == [] then [] else chunks[0] + Flatten(chunks[1..])
  }

  // It is concatenation: every chunk is in it, whole and in its place.
  lemma {:induction false} FlattenIsConcatenation(a: seq<seq<Byte>>, b: seq<seq<Byte>>, chunk: seq<Byte>)
    ensures Flatten([]) == [] && Flatten([chunk]) == chunk
    ensures Flatten(a + b) == Flatten(a) + Flatten(b)
    decreases |a|
  {
    assert [chunk][1..] == [] && chunk + [] == chunk;
    if a == [] {
      assert a + b == b && [] + Flatten(b) == Flatten(b);
    } else {
      assert (a + b)[0] == a[0] && (a + b)[1..] == a[1..] + b;
      FlattenIsConcatenation(a[1..], b, chunk);
      Associative(a[0], Flatten(a[1..]), Flatten(b));
    }
  }

  // A connected blocking socket: what successive recv calls will deliver before the end
  // of the input, how many sends will succeed, and what was sent.
  class Socket {
    var incoming: seq<seq<Byte>>
    var credit: Credit
    var sent: seq<Byte>
    var open: bool

    ghost predicate Valid()
      reads this
    {
      forall k :: 0 <= k < |incoming| ==> 1 <= |incoming[k]| <= 1024
    }

    constructor (chunks: seq<seq<Byte>>, credit: Credit)
      requires forall k :: 0 <= k < |chunks| ==> 1 <= |chunks[k]| <= 1024
      ensures Valid() && incoming == chunks && this.credit == credit && sent == [] && open
    {
      incoming, this.credit, sent, open := chunks, credit, [], true;
    }

    // 0 at the end of the input.
    method Recv(buf: array<Byte>) returns (len: nat)
      requires Valid() && buf.Length == 1024
      modifies this`incoming, buf
      ensures Valid()
      ensures len == 0 <==> old(incoming) == []
      ensures len > 0 ==>
                len <= 1024 && old(incoming) == [buf[..len]] + incoming
      ensures len == 0 ==> incoming == []
    {
      if incoming == [] {
        return 0;
      }
      var chunk := incoming[0];
      assert incoming == [chunk] + incoming[1..];
      len, incoming := |chunk|, incoming[1..];
      for i := 0 to len
        invariant buf[..i] == chunk[..i]
        modifies buf
      {
        buf[i] := chunk[i];
      }
      assert buf[..len] == chunk;
    }

    method Send(b: Byte) returns (n: int)
      modifies this`sent, this`credit
      ensures n == 1 || n == -1
      ensures n == 1 <==> old(credit) != Limited(0)
      ensures credit == old(credit).Spend()
      ensures sent == if n == 1 then old(sent) + [b] else old(sent)
    {
      if credit == Limited(0) {
        return -1;
      }
      sent := sent + [b];
      credit := credit.Spend();
      n := 1;
    }
  }

  // Sending byte by byte, until a send fails.
  function CreditAfter(credit: Credit, sends: nat): Credit
    requires credit.Covers(sends)
  {
    if credit.Limited? then Limited(credit.n - sends) else credit
  }

  // The answer to a prefix of the input is a prefix of the whole answer.
  lemma StreamCut(a: seq<Byte>, b: seq<Byte>)
    ensures Stream(a) <= Stream(a + b)
  {
    StreamGrows(a, b);
  }

  lemma StreamStep(received: seq<Byte>, chunk: seq<Byte>, i: nat)
    requires i < |chunk|
    ensures var before := received + chunk[..i];
            var mode := ModeAfter(WAIT_FOR_MSG, before);
            && ModeAfter(WAIT_FOR_MSG, received + chunk[..i + 1]) == NextMode(mode, chunk[i])
            && Stream(received + chunk[..i + 1]) == Stream(before) + Answer(mode, chunk[i])
            && Stream(received + chunk[..i + 1]) <= Stream(received + chunk)
  {
    hide Reply, ModeAfter, Stream;
    var before, b := received + chunk[..i], chunk[i];
    SingleByte(ModeAfter(WAIT_FOR_MSG, before), b);
    StreamGrows(before, [b]);
    assert received + chunk[..i + 1] == before + [b];
    assert received + chunk == (before + [b]) + chunk[i + 1..];
    StreamCut(before + [b], chunk[i + 1..]);
  }

  // What holds between two bytes: `received` has been answered in full.
  ghost predicate Answered(sock: Socket, state: Mode, credit: Credit, received: seq<Byte>)
    reads sock
  {
    && sock.open
    && state == ModeAfter(WAIT_FOR_MSG, received)
    && sock.sent == Stream(received)
    && credit.Covers(|sock.sent|) && sock.credit == CreditAfter(credit, |sock.sent|)
  }

  // The switch statement, for byte i of the buffer.
  method AnswerByte(sock: Socket, buf: array<Byte>, i: nat, state: Mode) returns (after: Mode, ok: bool)
    requires i < buf.Length && sock.open
    modifies sock`sent, sock`credit, sock`open, buf
    ensures sock.incoming == old(sock.incoming) && sock.open == ok
    ensures forall k :: 0 <= k < buf.Length && k != i ==> buf[k] == old(buf[k])
    ensures ok <==> old(sock.credit).Covers(|Answer(state, old(buf[i]))|)
    ensures ok ==> after == NextMode(state, old(buf[i]))
                   && sock.sent == old(sock.sent) + Answer(state, old(buf[i]))
                   && sock.credit == CreditAfter(old(sock.credit), |Answer(state, old(buf[i]))|)
    ensures !ok ==> sock.sent == old(sock.sent)
  {
    after, ok := state, true;
    match state {
      case WAIT_FOR_MSG =>
        if buf[i] == CARET {
          after := IN_MSG;
        }
      case IN_MSG =>
        if buf[i] == DOLLAR {
          after := WAIT_FOR_MSG;
        } else {
          buf[i] := Inc(buf[i]);
          var n := sock.Send(buf[i]);
          if n < 1 {
            sock.open := false;
            ok := false;
          }
        }
    }
  }

  // The inner loop, over the `len` bytes of one recv.
  method AnswerChunk(
      sock: Socket, buf: array<Byte>, len: nat, state: Mode, ghost credit: Credit, ghost received: seq<Byte>)
    returns (after: Mode, ok: bool)
    requires len <= buf.Length && Answered(sock, state, credit, received)
    modifies sock`sent, sock`credit, sock`open, buf
    ensures sock.incoming == old(sock.incoming)
    ensures ok ==> Answered(sock, after, credit, received + old(buf[..len]))
    ensures !ok ==> !sock.open && sock.sent < Stream(received + old(buf[..len])) && credit == Limited(|sock.sent|)
  {
    hide Reply, ModeAfter, Stream;
    ghost var chunk := buf[..len];
    assert received + chunk[..0] == received;
    after := state;
    for i := 0 to len
      invariant sock.incoming == old(sock.incoming)
      invariant forall k :: i <= k < len ==> buf[k] == chunk[k]
      invariant Answered(sock, after, credit, received + chunk[..i])
    {
      StreamStep(received, chunk, i);
      after, ok := AnswerByte(sock, buf, i, after);
      if !ok {
        return;
      }
    }
    assert chunk[..len] == chunk;
    ok := true;
  }

  lemma CutShort(sent: seq<Byte>, received: seq<Byte>, rest: seq<Byte>, input: seq<Byte>)
    requires sent < Stream(received) && received + rest == input
    ensures sent < Stream(input)
  {
    StreamCut(received, rest);
  }

  method HandleConnection(sock: Socket) returns (outcome: Outcome)
    requires sock.Valid() && sock.open && sock.sent == []
    modifies sock
    ensures outcome.Finished? <==> old(sock.credit).Covers(|Stream(Flatten(old(sock.incoming)))|)
    ensures outcome.Finished? ==> sock.sent == Stream(Flatten(old(sock.incoming)))
    ensures outcome.SendFailed? ==>
              sock.sent < Stream(Flatten(old(sock.incoming))) && old(sock.credit) == Limited(|sock.sent|)
    ensures outcome.Exited? <==> old(sock.credit) == Limited(0)
    ensures sock.open <==> outcome.Exited?
  {
    ghost var input, credit := Flatten(sock.incoming), sock.credit;
    var n := sock.Send(STAR);
    if n < 1 {
      return Exited;
    }
    var state := WAIT_FOR_MSG;
    ghost var received: seq<Byte> := [];
    assert Answered(sock, state, credit, received);
    hide Reply, ModeAfter, Stream;
    var buf := new Byte[1024](_ => 0);
    while true
      invariant sock.Valid()
      invariant received + Flatten(sock.incoming) == input
      invariant Answered(sock, state, credit, received)
      decreases |sock.incoming|
    {
      var len := sock.Recv(buf);
      if len == 0 {
        break;
      }
      ghost var chunk := buf[..len];
      assert (received + chunk) + Flatten(sock.incoming) == input by {
        assert received + (chunk + Flatten(sock.incoming)) == (received + chunk) + Flatten(sock.incoming);
      }
      var ok;
      state, ok := AnswerChunk(sock, buf, len, state, credit, received);
      if !ok {
        CutShort(sock.sent, received + chunk, Flatten(sock.incoming), input);
        return SendFailed;
      }
      received := received + chunk;
    }
    assert received == input;
    sock.open := false;
    outcome := Finished;
  }
}

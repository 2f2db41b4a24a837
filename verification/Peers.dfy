// The per-connection state of src/servers/epoll_server.c and src/servers/select_server.c
// and its three handlers, which are the same in both: what they compute on values, and
// the class whose methods update the state in place.
module Peers {
  import opened Bytes
  import opened Framing
  import opened Options

  const RECVBUF_SIZE := 1024

  // The last two states of the source are those of the protocol.
  datatype InternalState = INITIAL_ACK | Serving(mode: Mode)

  // peer_state_t
  datatype PeerState = PeerState(state: InternalState, sendbuf: seq<Byte>, sendbufEnd: nat, sendptr: nat)

  // What the caller should wait for next; neither means close.
  datatype Status = Status(wantRead: bool, wantWrite: bool)

  const STATUS_R := Status(true, false)
  const STATUS_W := Status(false, true)
  const STATUS_RW := Status(true, true)
  const STATUS_NORW := Status(false, false)

  // What recv and send return: EAGAIN, the end of the input, some bytes; EAGAIN, or how
  // many bytes were taken.
  datatype RecvAnswer = RecvAgain | Eof | Data(bytes: seq<Byte>)
  datatype SendAnswer = SendAgain | Accepted(n: nat)

  predicate Sane(p: PeerState) {
    |p.sendbuf| == SENDBUF_SIZE && p.sendptr <= p.sendbufEnd <= SENDBUF_SIZE
  }

  function Connected(p: PeerState): PeerState
    requires |p.sendbuf| == SENDBUF_SIZE
  {
    PeerState(INITIAL_ACK, p.sendbuf[0 := STAR], 1, 0)
  }

  // One received byte; None if one of the handler's assertions fails.
  function FeedByte(p: PeerState, b: Byte): Option<PeerState>
    requires |p.sendbuf| == SENDBUF_SIZE
  {
    match p.state
    case INITIAL_ACK => None
    case Serving(WAIT_FOR_MSG) => Some(if b == CARET then p.(state := Serving(IN_MSG)) else p)
    case Serving(IN_MSG) =>
      if b == DOLLAR then Some(p.(state := Serving(WAIT_FOR_MSG)))
      else if p.sendbufEnd < SENDBUF_SIZE
      then Some(p.(sendbuf := p.sendbuf[p.sendbufEnd := Inc(b)], sendbufEnd := p.sendbufEnd + 1))
      else None
  }

  function Feed(p: PeerState, bytes: seq<Byte>): (q: Option<PeerState>)
    requires |p.sendbuf| == SENDBUF_SIZE
    ensures q.Some? ==> |q.value.sendbuf| == SENDBUF_SIZE && p.sendbufEnd <= q.value.sendbufEnd
    ensures q.Some? ==> q.value.sendptr == p.sendptr
  {
    if bytes == [] then Some(p)
    else
      var before := Feed(p, bytes[..|bytes| - 1]);
      if before.None? then None else FeedByte(before.value, bytes[|bytes| - 1])
  }

  datatype Handled = Handled(peer: PeerState, status: Status) | AssertionFailed

  function ReadyRecv(p: PeerState, answer: RecvAnswer): Handled
    requires |p.sendbuf| == SENDBUF_SIZE
  {
    if p.state == INITIAL_ACK || p.sendptr < p.sendbufEnd then Handled(p, STATUS_W)
    else match answer
      case Eof => Handled(p, STATUS_NORW)
      case RecvAgain => Handled(p, STATUS_R)
      case Data(bytes) =>
        var q := Feed(p, bytes);
        if q.None? then AssertionFailed
        else
          var readyToSend := q.value.sendbufEnd > p.sendbufEnd;
          Handled(q.value, Status(!readyToSend, readyToSend))
  }

  function ReadySend(p: PeerState, answer: SendAnswer): Handled
    requires |p.sendbuf| == SENDBUF_SIZE
  {
    if p.sendptr >= p.sendbufEnd then Handled(p, STATUS_RW)
    else match answer
      case SendAgain => Handled(p, STATUS_W)
      case Accepted(n) =>
        if n < p.sendbufEnd - p.sendptr then Handled(p.(sendptr := p.sendptr + n), STATUS_W)
        else
          Handled(p.(sendptr := 0, sendbufEnd := 0,
                     state := if p.state == INITIAL_ACK then Serving(WAIT_FOR_MSG) else p.state), STATUS_R)
  }

  // ---- The stored automaton is the protocol's automaton ----

  function ModeOf(state: InternalState): Mode {
    if state.Serving? then state.mode else WAIT_FOR_MSG
  }

  function Pending(p: PeerState): (bytes: seq<Byte>)
    requires Sane(p)
  {
    p.sendbuf[p.sendptr..p.sendbufEnd]
  }

  // Received bytes change the state and append the reply to what is pending; an assertion
  // trips exactly when the reply does not fit behind what is in the buffer.
  lemma {:induction false} FeedAppendsReply(p: PeerState, bytes: seq<Byte>)
    requires Sane(p) && p.state != INITIAL_ACK
    ensures Feed(p, bytes).Some? <==> p.sendbufEnd + |Reply(ModeOf(p.state), bytes)| <= SENDBUF_SIZE
    ensures Feed(p, bytes).Some? ==>
              var q := Feed(p, bytes).value;
              && Sane(q) && q.state != INITIAL_ACK
              && ModeOf(q.state) == ModeAfter(ModeOf(p.state), bytes)
              && Pending(q) == Pending(p) + Reply(ModeOf(p.state), bytes)
  {
    if bytes != [] {
      var front, last := bytes[..|bytes| - 1], bytes[|bytes| - 1];
      FeedAppendsReply(p, front);
      if Feed(p, front).Some? {
        var before := Feed(p, front).value;
        FeedByteAppends(before, last);
        Associative(Pending(p), Reply(ModeOf(p.state), front), Answer(ModeOf(before.state), last));
      }
    }
  }

  lemma FeedByteAppends(p: PeerState, b: Byte)
    requires Sane(p) && p.state != INITIAL_ACK
    ensures FeedByte(p, b).Some? <==> p.sendbufEnd + |Answer(ModeOf(p.state), b)| <= SENDBUF_SIZE
    ensures FeedByte(p, b).Some? ==>
              var q := FeedByte(p, b).value;
              && Sane(q) && q.state != INITIAL_ACK
              && ModeOf(q.state) == NextMode(ModeOf(p.state), b)
              && Pending(q) == Pending(p) + Answer(ModeOf(p.state), b)
  {
  }

  // What a read does to a connection with nothing pending, without the handler's terms.
  lemma DataEffect(p: PeerState, answer: RecvAnswer)
    requires |p.sendbuf| == SENDBUF_SIZE
    ensures p.state != INITIAL_ACK && p.sendptr == p.sendbufEnd <= SENDBUF_SIZE && answer.Data? ==>
              var mode, h := ModeOf(p.state), ReadyRecv(p, answer);
              && (h.Handled? <==> p.sendbufEnd + |Reply(mode, answer.bytes)| <= SENDBUF_SIZE)
              && (h.Handled? ==> Sane(h.peer) && Pending(h.peer) == Reply(mode, answer.bytes)
                                 && h.peer.state == Serving(ModeAfter(mode, answer.bytes))
                                 && h.status.wantWrite == (Reply(mode, answer.bytes) != [])
                                 && h.status.wantRead == !h.status.wantWrite)
  {
    hide Reply, ModeAfter, Feed;
    if p.state != INITIAL_ACK && p.sendptr == p.sendbufEnd <= SENDBUF_SIZE && answer.Data? {
      FeedAppendsReply(p, answer.bytes);
      assert Pending(p) == [] && [] + Reply(ModeOf(p.state), answer.bytes) == Reply(ModeOf(p.state), answer.bytes);
    }
  }

  // ---- The state updated in place ----

  class Peer {
    var state: InternalState
    const sendbuf: array<Byte>
    var sendbufEnd: nat
    var sendptr: nat

    ghost predicate Valid() {
      sendbuf.Length == SENDBUF_SIZE
    }

    ghost function View(): PeerState
      reads this, sendbuf
    {
      PeerState(state, sendbuf[..], sendbufEnd, sendptr)
    }

    // A slot of the zero-initialised table.
    constructor ()
      ensures Valid() && fresh(sendbuf)
      ensures View() == PeerState(INITIAL_ACK, seq(SENDBUF_SIZE, _ => 0), 0, 0)
    {
      state, sendbufEnd, sendptr := INITIAL_ACK, 0, 0;
      sendbuf := new Byte[SENDBUF_SIZE](_ => 0);
    }

    method OnPeerConnected() returns (status: Status)
      requires Valid()
      modifies this, sendbuf
      ensures View() == Connected(old(View())) && status == STATUS_W
      ensures state == INITIAL_ACK && sendbuf[0] == STAR && sendptr == 0 && sendbufEnd == 1
    {
      state := INITIAL_ACK;
      sendbuf[0] := STAR;
      sendptr := 0;
      sendbufEnd := 1;
      status := STATUS_W;
    }

    // The switch statement of on_peer_ready_recv.
    method OnByte(b: Byte) returns (ok: bool, wrote: bool)
      requires Valid()
      modifies this, sendbuf
      ensures FeedByte(old(View()), b) == if ok then Some(View()) else None
      ensures ok ==> sendbufEnd == old(sendbufEnd) + if wrote then 1 else 0
    {
      ok, wrote := true, false;
      match state {
        case INITIAL_ACK =>
          ok := false;
        case Serving(WAIT_FOR_MSG) =>
          if b == CARET {
            state := Serving(IN_MSG);
          }
        case Serving(IN_MSG) =>
          if b == DOLLAR {
            state := Serving(WAIT_FOR_MSG);
          } else if sendbufEnd < SENDBUF_SIZE {
            sendbuf[sendbufEnd] := Inc(b);
            sendbufEnd := sendbufEnd + 1;
            wrote := true;
          } else {
            ok := false;
          }
      }
    }

    // `ok` is false if one of the assertions fails.
    method OnPeerReadyRecv(answer: RecvAnswer) returns (ok: bool, status: Status)
      requires Valid()
      modifies this, sendbuf
      ensures ok <==> ReadyRecv(old(View()), answer).Handled?
      ensures ok ==> ReadyRecv(old(View()), answer) == Handled(View(), status)
      ensures old(state) == INITIAL_ACK || old(sendptr) < old(sendbufEnd) ==>
                ok && View() == old(View()) && !status.wantRead && status.wantWrite
      ensures old(state) != INITIAL_ACK && old(sendptr) >= old(sendbufEnd) && !answer.Data? ==>
                ok && View() == old(View()) && status.wantRead == answer.RecvAgain? && !status.wantWrite
      ensures old(state) != INITIAL_ACK && old(sendptr) == old(sendbufEnd) <= SENDBUF_SIZE && answer.Data? ==>
                var mode := ModeOf(old(state));
                && (ok <==> old(sendbufEnd) + |Reply(mode, answer.bytes)| <= SENDBUF_SIZE)
                && (ok ==> Sane(View()) && Pending(View()) == Reply(mode, answer.bytes)
                           && state == Serving(ModeAfter(mode, answer.bytes))
                           && status.wantWrite == (Reply(mode, answer.bytes) != [])
                           && status.wantRead == !status.wantWrite)
    {
      hide Reply, ModeAfter;
      DataEffect(View(), answer);
      if state == INITIAL_ACK || sendptr < sendbufEnd {
        return true, STATUS_W;
      }
      if answer.Eof? {
        return true, STATUS_NORW;
      }
      if answer.RecvAgain? {
        return true, STATUS_R;
      }
      var buf := answer.bytes;
      var readyToSend := false;
      ghost var p := View();
      for i := 0 to |buf|
        invariant Feed(p, buf[..i]) == Some(View())
        invariant readyToSend <==> sendbufEnd > p.sendbufEnd
      {
        assert buf[..i + 1][..i] == buf[..i];
        var wrote;
        ok, wrote := OnByte(buf[i]);
        if !ok {
          FeedFails(p, buf, i + 1);
          return false, STATUS_NORW;
        }
        readyToSend := readyToSend || wrote;
      }
      assert buf[..|buf|] == buf;
      ok, status := true, Status(!readyToSend, readyToSend);
    }

    method OnPeerReadySend(answer: SendAnswer) returns (status: Status)
      requires Valid()
      modifies this
      ensures ReadySend(old(View()), answer) == Handled(View(), status)
      ensures old(sendptr) >= old(sendbufEnd) ==> View() == old(View()) && status.wantRead && status.wantWrite
      ensures old(sendptr) < old(sendbufEnd) && answer.SendAgain? ==>
                View() == old(View()) && !status.wantRead && status.wantWrite
      ensures old(sendptr) < old(sendbufEnd) && answer.Accepted? && answer.n < old(sendbufEnd) - old(sendptr) ==>
                && View() == old(View()).(sendptr := old(sendptr) + answer.n)
                && !status.wantRead && status.wantWrite
      ensures old(sendptr) < old(sendbufEnd) && answer.Accepted? && answer.n >= old(sendbufEnd) - old(sendptr) ==>
                && sendptr == sendbufEnd == 0 && status.wantRead && !status.wantWrite
                && state == if old(state) == INITIAL_ACK then Serving(WAIT_FOR_MSG) else old(state)
    {
      if sendptr >= sendbufEnd {
        return STATUS_RW;
      }
      var sendlen := sendbufEnd - sendptr;
      if answer.SendAgain? {
        return STATUS_W;
      }
      var nsent := answer.n;
      if nsent < sendlen {
        sendptr := sendptr + nsent;
        status := STATUS_W;
      } else {
        sendptr := 0;
        sendbufEnd := 0;
        if state == INITIAL_ACK {
          state := Serving(WAIT_FOR_MSG);
        }
        status := STATUS_R;
      }
    }
  }

  lemma {:induction false} FeedFails(p: PeerState, bytes: seq<Byte>, n: nat)
    requires |p.sendbuf| == SENDBUF_SIZE && n <= |bytes| && Feed(p, bytes[..n]).None?
    ensures Feed(p, bytes).None?
    decreases |bytes| - n
  {
    if n < |bytes| {
      assert bytes[..n + 1][..n] == bytes[..n];
      FeedFails(p, bytes, n + 1);
    } else {
      assert bytes[..n] == bytes;
    }
  }
}

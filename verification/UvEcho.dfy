// src/servers/uv_server.c: one connection of the callback-driven echo server, under the
// order of callbacks that its single send buffer relies on: the next read comes after the
// previous write has completed.
module UvEcho {
  import opened Bytes
  import opened Framing
  import opened Options
  import opened Peers

  // X, Y, Z
  predicate EndsInXyz(s: seq<Byte>) {
    |s| >= 3 && s[|s| - 3] == 88 && s[|s| - 2] == 89 && s[|s| - 1] == 90
  }

  // What the callbacks read and write, and the history: all bytes read, the completed
  // echo writes, whether the greeting has been written, whether uv_stop was called and
  // whether an assertion failed. `inFlight` is the write that has not completed.
  datatype Session = Session(
    peer: PeerState, inFlight: Option<seq<Byte>>, reading: bool,
    received: seq<Byte>, greeted: bool, echoes: seq<seq<Byte>>, stopped: bool, failed: bool)

  datatype Callback = WroteInitAck | Read(bytes: seq<Byte>) | WroteBuf

  function Connect(p: PeerState): Session
    requires |p.sendbuf| == SENDBUF_SIZE
  {
    Session(Connected(p), Some([STAR]), false, [], false, [], false, false)
  }

  predicate Ordered(s: Session, c: Callback) {
    && !s.stopped && !s.failed
    && match c
       case WroteInitAck => s.inFlight.Some? && !s.greeted
       case Read(bytes) => s.reading && s.inFlight.None? && bytes != []
       case WroteBuf => s.inFlight.Some? && s.greeted
  }

  function Call(s: Session, c: Callback): Session
    requires |s.peer.sendbuf| == SENDBUF_SIZE && s.peer.sendbufEnd <= SENDBUF_SIZE
  {
    match c
    case WroteInitAck =>
      s.(peer := s.peer.(state := Serving(WAIT_FOR_MSG), sendbufEnd := 0),
         inFlight := None, reading := true, greeted := true)
    case Read(bytes) =>
      if s.peer.state == INITIAL_ACK then s
      else
        var q := Feed(s.peer, bytes);
        if q.None? then s.(failed := true)
        else
          s.(peer := q.value, received := s.received + bytes,
             inFlight := if 0 < q.value.sendbufEnd <= SENDBUF_SIZE
                         then Some(q.value.sendbuf[..q.value.sendbufEnd]) else s.inFlight)
    case WroteBuf =>
      var done := s.(inFlight := None,
                     echoes := if s.inFlight.Some? then s.echoes + [s.inFlight.value] else s.echoes);
      if EndsInXyz(s.peer.sendbuf[..s.peer.sendbufEnd]) then done.(stopped := true)
      else done.(peer := s.peer.(sendbufEnd := 0))
  }

  ghost predicate Reaches(s: Session, calls: seq<Callback>, t: Session)
    decreases |calls|
  {
    if calls == [] then s == t
    else
      && Ordered(s, calls[0]) && |s.peer.sendbuf| == SENDBUF_SIZE && s.peer.sendbufEnd <= SENDBUF_SIZE
      && Reaches(Call(s, calls[0]), calls[1..], t)
  }

  function Concat(writes: seq<seq<Byte>>): seq<Byte> {
    if writes == [] then [] else Concat(writes[..|writes| - 1]) + writes[|writes| - 1]
  }

  // Everything written, the greeting first.
  function Written(s: Session): seq<Byte> {
    if s.greeted then [STAR] + Concat(s.echoes) else []
  }

  function Flying(s: Session): seq<Byte> {
    if s.inFlight.Some? then s.inFlight.value else []
  }

  ghost predicate Inv(s: Session) {
    && Sane(s.peer) && s.peer.sendptr == 0
    && s.reading == s.greeted
    && (s.greeted <==> s.peer.state != INITIAL_ACK)
    && (!s.greeted ==> s.received == [] && s.echoes == [] && s.inFlight == Some([STAR]))
    && (s.greeted && !s.stopped ==> Flying(s) == s.peer.sendbuf[..s.peer.sendbufEnd])
    && (s.stopped ==> s.inFlight == None)
    && (!s.failed ==> Written(s) + Flying(s) == Stream(s.received)
                      && ModeOf(s.peer.state) == ModeAfter(WAIT_FOR_MSG, s.received))
    && (s.stopped <==> s.echoes != [] && EndsInXyz(s.echoes[|s.echoes| - 1]))
    && (forall k :: 0 <= k < |s.echoes| - 1 ==> !EndsInXyz(s.echoes[k]))
  }

  lemma ConcatAppend(writes: seq<seq<Byte>>, write: seq<Byte>)
    ensures Concat(writes + [write]) == Concat(writes) + write
  {
    assert (writes + [write])[..|writes|] == writes;
  }

  lemma WrittenGrows(echoes: seq<seq<Byte>>, write: seq<Byte>)
    ensures ([STAR] + Concat(echoes + [write])) + [] == ([STAR] + Concat(echoes)) + write
  {
    hide Concat;
    ConcatAppend(echoes, write);
    Associative([STAR], Concat(echoes), write);
  }

  lemma LastEcho(echoes: seq<seq<Byte>>, write: seq<Byte>)
    requires forall k :: 0 <= k < |echoes| ==> !EndsInXyz(echoes[k])
    ensures var after := echoes + [write];
            after[|after| - 1] == write && forall k :: 0 <= k < |after| - 1 ==> !EndsInXyz(after[k])
  {
  }

  lemma WroteBufKeepsInv(s: Session)
    requires Inv(s) && Ordered(s, WroteBuf)
    ensures Inv(Call(s, WroteBuf))
  {
    hide Concat, Stream, ModeAfter, EndsInXyz, ModeOf;
    WrittenGrows(s.echoes, s.inFlight.value);
    LastEcho(s.echoes, s.inFlight.value);
  }

  lemma ReadKeepsInv(s: Session, bytes: seq<Byte>)
    requires Inv(s) && Ordered(s, Read(bytes))
    ensures Inv(Call(s, Read(bytes)))
    ensures s.peer.state != INITIAL_ACK
    ensures Call(s, Read(bytes)).failed <==> |Reply(ModeAfter(WAIT_FOR_MSG, s.received), bytes)| > SENDBUF_SIZE
  {
    hide Reply, ModeAfter, Concat, Stream, Feed, EndsInXyz;
    var t := Call(s, Read(bytes));
    var reply := Reply(ModeOf(s.peer.state), bytes);
    assert Flying(s) == [] && s.peer.sendbufEnd == 0 && Pending(s.peer) == [];
    FeedAppendsReply(s.peer, bytes);
    if !t.failed {
      assert [] + reply == reply && Written(s) + [] == Written(s);
      StreamGrows(s.received, bytes);
      assert Flying(t) == reply;
    }
  }

  function BytesOf(c: Callback): seq<Byte> {
    match c
    case Read(bytes) => bytes
    case _ => []
  }

  lemma CallKeepsInv(s: Session, c: Callback)
    requires Inv(s) && Ordered(s, c)
    ensures Inv(Call(s, c))
    ensures Call(s, c).greeted <==> s.greeted || c == WroteInitAck
    ensures !Call(s, c).failed ==> Call(s, c).received == s.received + BytesOf(c)
  {
    hide Feed, ModeAfter, Stream, EndsInXyz;
    match c
    case WroteInitAck =>
      assert [STAR] + Concat([]) == [STAR];
    case Read(bytes) => ReadKeepsInv(s, bytes);
    case WroteBuf => WroteBufKeepsInv(s);
  }

  lemma {:induction false} RunKeepsInv(s: Session, calls: seq<Callback>, t: Session)
    requires Inv(s) && Reaches(s, calls, t)
    ensures Inv(t)
    decreases |calls|
  {
    if calls != [] {
      CallKeepsInv(s, calls[0]);
      RunKeepsInv(Call(s, calls[0]), calls[1..], t);
    }
  }

  // What the callbacks themselves say was read.
  function BytesRead(calls: seq<Callback>): seq<Byte> {
    if calls == [] then [] else BytesOf(calls[0]) + BytesRead(calls[1..])
  }

  // Every read that does not fail the assertion counts.
  lemma {:induction false} EveryReadCounts(s: Session, calls: seq<Callback>, t: Session)
    requires Inv(s) && Reaches(s, calls, t)
    ensures !t.failed ==> t.received == s.received + BytesRead(calls)
    ensures t.greeted <==> s.greeted || WroteInitAck in calls
    decreases |calls|
  {
    hide Inv, Call;
    if calls == [] {
      assert s.received + BytesRead(calls) == s.received;
    } else {
      var next := Call(s, calls[0]);
      CallKeepsInv(s, calls[0]);
      EveryReadCounts(next, calls[1..], t);
      if next.failed {
        FailedIsLast(next, calls[1..], t);
      }
      Associative(s.received, BytesOf(calls[0]), BytesRead(calls[1..]));
      assert WroteInitAck in calls <==> WroteInitAck == calls[0] || WroteInitAck in calls[1..];
    }
  }

  lemma FailedIsLast(s: Session, calls: seq<Callback>, t: Session)
    requires Reaches(s, calls, t) && s.failed
    ensures calls == [] && t == s
  {
  }

  // Ordered callbacks send the stream function of all that was read, and the loop is
  // stopped exactly by the first completed echo write that ends in XYZ.
  lemma OrderedCallbacksEcho(p: PeerState, calls: seq<Callback>, t: Session)
    requires |p.sendbuf| == SENDBUF_SIZE && Reaches(Connect(p), calls, t)
    ensures !t.failed ==> t.received == BytesRead(calls) && Written(t) + Flying(t) == Stream(BytesRead(calls))
    ensures t.greeted <==> WroteInitAck in calls
    ensures t.stopped <==> t.echoes != [] && EndsInXyz(t.echoes[|t.echoes| - 1])
    ensures forall k :: 0 <= k < |t.echoes| - 1 ==> !EndsInXyz(t.echoes[k])
    ensures t.reading ==> t.peer.state != INITIAL_ACK
  {
    assert [] + [STAR] == [STAR] + [] == [STAR];
    RunKeepsInv(Connect(p), calls, t);
    EveryReadCounts(Connect(p), calls, t);
    assert [] + BytesRead(calls) == BytesRead(calls);
  }

  // An assertion fails exactly at a read that the buffer cannot answer in one piece.
  lemma FailsIffReplyTooLong(p: PeerState, calls: seq<Callback>, s: Session, bytes: seq<Byte>)
    requires |p.sendbuf| == SENDBUF_SIZE && Reaches(Connect(p), calls, s) && Ordered(s, Read(bytes))
    ensures |s.peer.sendbuf| == SENDBUF_SIZE && s.peer.sendbufEnd <= SENDBUF_SIZE
    ensures Call(s, Read(bytes)).failed
            <==> |Reply(ModeAfter(WAIT_FOR_MSG, s.received), bytes)| > SENDBUF_SIZE
  {
    assert [] + [STAR] == [STAR] + [] == [STAR];
    RunKeepsInv(Connect(p), calls, s);
    ReadKeepsInv(s, bytes);
  }

  // A client can make the assertion fail: a frame of 1025 bytes in one read does.
  lemma LongFrameFails(p: PeerState)
    requires |p.sendbuf| == SENDBUF_SIZE
    ensures exists calls, t :: Reaches(Connect(p), calls, t) && t.failed
  {
    var body: seq<Byte> := seq(SENDBUF_SIZE + 1, _ => 97);
    var bytes := [CARET] + body;
    var s := Call(Connect(p), WroteInitAck);
    assert Reaches(Connect(p), [WroteInitAck], s);
    OpenFrame([], body);
    BodyIsAnswered(body);
    assert [] + [CARET] + body == bytes;
    assert ModeAfter(WAIT_FOR_MSG, s.received) == WAIT_FOR_MSG;
    FailsIffReplyTooLong(p, [WroteInitAck], s, bytes);
    var t := Call(s, Read(bytes));
    assert Reaches(s, [Read(bytes)], t);
    var calls := [WroteInitAck, Read(bytes)];
    assert calls[1..] == [Read(bytes)];
    assert Reaches(Connect(p), calls, t) && t.failed;
  }

  // peer_state_t and the callbacks that update it. `session` is the step system's state.
  class UvPeer {
    var state: InternalState
    const sendbuf: array<Byte>
    var sendbufEnd: nat
    ghost var session: Session

    ghost predicate Valid()
      reads this, sendbuf
    {
      && sendbuf.Length == SENDBUF_SIZE && sendbufEnd <= SENDBUF_SIZE
      && (!session.failed ==> session.peer == View())
    }

    ghost function View(): PeerState
      reads this, sendbuf
    {
      PeerState(state, sendbuf[..], sendbufEnd, 0)
    }

    // on_peer_connected: the first uv_write is of what is then in the buffer.
    constructor ()
      ensures Valid() && fresh(sendbuf)
      ensures session == Connect(PeerState(INITIAL_ACK, seq(SENDBUF_SIZE, _ => 0), 0, 0))
      ensures sendbuf[..sendbufEnd] == [STAR] && session.inFlight == Some(sendbuf[..sendbufEnd])
    {
      state := INITIAL_ACK;
      sendbuf := new Byte[SENDBUF_SIZE](_ => 0);
      sendbufEnd := 1;
      session := Connect(PeerState(INITIAL_ACK, seq(SENDBUF_SIZE, _ => 0), 0, 0));
      new;
      sendbuf[0] := STAR;
    }

    method OnWroteInitAck()
      requires Valid() && !session.failed
      modifies this
      ensures Valid() && session == Call(old(session), WroteInitAck)
    {
      state := Serving(WAIT_FOR_MSG);
      sendbufEnd := 0;
      session := Call(session, WroteInitAck);
    }

    // The switch statement of on_peer_read.
    method OnByte(b: Byte) returns (ok: bool)
      requires sendbuf.Length == SENDBUF_SIZE && sendbufEnd <= SENDBUF_SIZE
      modifies this`state, this`sendbufEnd, sendbuf
      ensures sendbufEnd <= SENDBUF_SIZE
      ensures old(state) != INITIAL_ACK ==> FeedByte(old(View()), b) == if ok then Some(View()) else None
      ensures old(state) == INITIAL_ACK ==> ok && View() == old(View())
    {
      ok := true;
      match state {
        case INITIAL_ACK =>
        case Serving(WAIT_FOR_MSG) =>
          if b == CARET {
            state := Serving(IN_MSG);
          }
        case Serving(IN_MSG) =>
          if b == DOLLAR {
            state := Serving(WAIT_FOR_MSG);
          } else if sendbufEnd < SENDBUF_SIZE {
            sendbuf[sendbufEnd] := Inc(b);
            sendbufEnd := sendbufEnd + 1;
          } else {
            ok := false;
          }
      }
    }

    // The data branch of on_peer_read; `write` is what it hands to uv_write, and `ok` is
    // false if the assertion fails.
    method OnPeerRead(bytes: seq<Byte>) returns (ok: bool, write: Option<seq<Byte>>)
      requires Valid() && !session.failed
      modifies this, sendbuf
      ensures Valid() && session == Call(old(session), Read(bytes))
      ensures ok <==> !session.failed
      ensures session.inFlight == if write.Some? then write else old(session.inFlight)
      ensures write.Some? <==> ok && old(state) != INITIAL_ACK && sendbufEnd > 0
    {
      ghost var p, next := View(), Call(session, Read(bytes));
      ok, write := true, None;
      if state == INITIAL_ACK {
        session := next;
        return;
      }
      for i := 0 to |bytes|
        invariant sendbufEnd <= SENDBUF_SIZE && state != INITIAL_ACK && session == old(session)
        invariant Feed(p, bytes[..i]) == Some(View())
      {
        assert bytes[..i + 1][..i] == bytes[..i];
        ok := OnByte(bytes[i]);
        if !ok {
          FeedFails(p, bytes, i + 1);
          session := next;
          return;
        }
      }
      assert bytes[..|bytes|] == bytes;
      ok := true;
      session := next;
      if sendbufEnd > 0 {
        write := Some(sendbuf[..sendbufEnd]);
      }
    }

    method PeerEnd() returns (end: int)
      requires Valid()
      ensures end == if EndsInXyz(sendbuf[..sendbufEnd]) then 1 else 0
      ensures end == 1 <==> sendbufEnd >= 3 && sendbuf[sendbufEnd - 3..sendbufEnd] == [88, 89, 90]
    {
      if sendbufEnd < 3 {
        return 0;
      }
      var last, secondToLast, thirdToLast := sendbuf[sendbufEnd - 1], sendbuf[sendbufEnd - 2], sendbuf[sendbufEnd - 3];
      if thirdToLast == 88 && secondToLast == 89 && last == 90 {
        return 1;
      }
      end := 0;
    }

    method OnWroteBuf() returns (stop: bool)
      requires Valid() && !session.failed
      modifies this
      ensures Valid() && session == Call(old(session), WroteBuf)
      ensures stop <==> EndsInXyz(old(sendbuf[..sendbufEnd]))
      ensures session.stopped <==> old(session.stopped) || stop
    {
      ghost var next := Call(session, WroteBuf);
      var end := PeerEnd();
      stop := end == 1;
      if !stop {
        sendbufEnd := 0;
      }
      session := next;
    }
  }
}

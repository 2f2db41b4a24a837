// All connections of an event-driven server together, as a step system: descriptors are
// accepted, become readable or writable in any order, are closed and used again.
module Connections {
  import opened Bytes
  import opened Framing
  import opened Peers

  // The history of one connection: what the peer will send in all, how it has been
  // divided so far, what was sent to it, and how many handler calls did not meet EAGAIN.
  datatype Conn = Conn(input: seq<Byte>, received: seq<Byte>, unread: seq<Byte>, sent: seq<Byte>, calls: nat)

  // `table` is global_state, `reading` and `writing` the registered interests. `failed`
  // is set when an assertion of a handler fails.
  datatype World = World(
    table: seq<PeerState>, reading: set<nat>, writing: set<nat>,
    conns: map<nat, Conn>, closed: seq<Conn>, failed: bool)

  datatype Event =
    | Accept(fd: nat, input: seq<Byte>)
    | Readable(fd: nat, recv: RecvAnswer)
    | Writable(fd: nat, send: SendAnswer)

  // What the kernel can report: accept returns a descriptor that is not in use, only
  // registered descriptors become ready, and recv and send answer as documented.
  predicate Possible(w: World, e: Event) {
    && !w.failed
    && e.fd < |w.table|
    && match e
       case Accept(fd, _) => fd !in w.conns
       case Readable(fd, answer) => fd in w.conns && fd in w.reading && CanAnswer(w.conns[fd], answer)
       case Writable(fd, answer) =>
         && fd in w.conns && fd in w.writing
         && (answer.Accepted? ==> 1 <= answer.n <= w.table[fd].sendbufEnd - w.table[fd].sendptr)
  }

  predicate CanAnswer(c: Conn, answer: RecvAnswer) {
    match answer
    case RecvAgain => true
    case Eof => c.unread == []
    case Data(bytes) => 1 <= |bytes| <= RECVBUF_SIZE && bytes <= c.unread
  }

  predicate TableSane(w: World) {
    forall fd :: 0 <= fd < |w.table| ==> |w.table[fd].sendbuf| == SENDBUF_SIZE
  }

  function SetInterest(w: World, fd: nat, status: Status): World {
    w.(reading := if status.wantRead then w.reading + {fd} else w.reading - {fd},
       writing := if status.wantWrite then w.writing + {fd} else w.writing - {fd})
  }

  // FD_SET/FD_CLR or epoll_ctl, and close when neither is wanted.
  function Finish(w: World, fd: nat, status: Status): World
    requires fd in w.conns
  {
    var next := SetInterest(w, fd, status);
    if !status.wantRead && !status.wantWrite
    then next.(conns := next.conns - {fd}, closed := next.closed + [next.conns[fd]])
    else next
  }

  // Nothing is read while bytes are pending.
  function Heard(c: Conn, p: PeerState, answer: RecvAnswer): Conn {
    if p.state == INITIAL_ACK || p.sendptr < p.sendbufEnd then c
    else match answer
      case RecvAgain => c
      case Eof => c.(calls := c.calls + 1)
      case Data(bytes) =>
        if bytes <= c.unread
        then c.(received := c.received + bytes, unread := c.unread[|bytes|..], calls := c.calls + 1)
        else c
  }

  function Told(c: Conn, p: PeerState, answer: SendAnswer): Conn {
    match answer
    case SendAgain => c
    case Accepted(n) =>
      if p.sendptr + n <= |p.sendbuf|
      then c.(sent := c.sent + p.sendbuf[p.sendptr..p.sendptr + n], calls := c.calls + 1)
      else c
  }

  function Apply(w: World, e: Event): World
    requires Possible(w, e) && TableSane(w)
  {
    match e
    case Accept(fd, input) =>
      SetInterest(w, fd, STATUS_W).(table := w.table[fd := Connected(w.table[fd])],
                                    conns := w.conns[fd := Conn(input, [], input, [], 0)])
    case Readable(fd, answer) =>
      (match ReadyRecv(w.table[fd], answer)
       case AssertionFailed => w.(failed := true)
       case Handled(p, status) =>
         Finish(w.(table := w.table[fd := p], conns := w.conns[fd := Heard(w.conns[fd], w.table[fd], answer)]),
                fd, status))
    case Writable(fd, answer) =>
      (match ReadySend(w.table[fd], answer)
       case AssertionFailed => w.(failed := true)
       case Handled(p, status) =>
         Finish(w.(table := w.table[fd := p], conns := w.conns[fd := Told(w.conns[fd], w.table[fd], answer)]),
                fd, status))
  }

  ghost predicate Reaches(w: World, events: seq<Event>, v: World)
    decreases |events|
  {
    if events == [] then w == v
    else
      var last := events[|events| - 1];
      exists u :: Reaches(w, events[..|events| - 1], u) && Possible(u, last) && TableSane(u) && v == Apply(u, last)
  }

  // The table starts zeroed and no connection is open.
  function Start(maxFds: nat): World {
    World(seq(maxFds, _ => PeerState(INITIAL_ACK, seq(SENDBUF_SIZE, _ => 0), 0, 0)), {}, {}, map[], [], false)
  }

  // ---- What every reachable state keeps ----

  // Sent and pending bytes are exactly the stream function of the received ones, the
  // stored state is the automaton's, the connection waits for write iff bytes are
  // pending and for read iff none are, and its calls are paid for by progress.
  ghost predicate ConnInv(p: PeerState, c: Conn, reading: bool, writing: bool) {
    && Sane(p)
    && c.received + c.unread == c.input
    && c.sent + Pending(p) == Stream(c.received)
    && (p.state == INITIAL_ACK ==> c.received == [] && p.sendptr < p.sendbufEnd)
    && ModeOf(p.state) == ModeAfter(WAIT_FOR_MSG, c.received)
    && (p.sendptr == p.sendbufEnd ==> p.sendptr == 0)
    && (writing <==> p.sendptr < p.sendbufEnd)
    && (reading <==> p.sendptr == p.sendbufEnd)
    && c.calls + |Pending(p)| <= 2 * |c.received| + 1
  }

  ghost predicate ClosedInv(c: Conn) {
    && c.received == c.input && c.sent == Stream(c.input)
    && c.calls <= 2 * |c.input| + 2
  }

  ghost predicate Inv(w: World) {
    && TableSane(w)
    && !w.failed
    && w.reading <= w.conns.Keys && w.writing <= w.conns.Keys
    && (forall fd :: fd in w.conns ==>
          fd < |w.table| && ConnInv(w.table[fd], w.conns[fd], fd in w.reading, fd in w.writing))
    && (forall k :: 0 <= k < |w.closed| ==> ClosedInv(w.closed[k]))
  }

  lemma AcceptKeepsInv(p: PeerState, input: seq<Byte>)
    requires |p.sendbuf| == SENDBUF_SIZE
    ensures ConnInv(Connected(p), Conn(input, [], input, [], 0), false, true)
  {
    assert Pending(Connected(p)) == [STAR];
  }

  lemma DataKeepsInv(p: PeerState, c: Conn, bytes: seq<Byte>)
    requires ConnInv(p, c, true, false) && CanAnswer(c, Data(bytes))
    ensures Feed(p, bytes).Some?
    ensures var q := Feed(p, bytes).value;
            ConnInv(q, Heard(c, p, Data(bytes)), q.sendbufEnd == p.sendbufEnd, q.sendbufEnd > p.sendbufEnd)
  {
    FeedAppendsReply(p, bytes);
    var q, unread := Feed(p, bytes).value, c.unread[|bytes|..];
    var reply := Reply(ModeAfter(WAIT_FOR_MSG, c.received), bytes);
    StreamGrows(c.received, bytes);
    assert c.received + bytes + unread == c.input by {
      assert c.unread == bytes + unread;
      Associative(c.received, bytes, unread);
    }
    assert Pending(p) == [] && c.sent + [] == c.sent && [] + reply == reply;
    assert Heard(c, p, Data(bytes)) == Conn(c.input, c.received + bytes, unread, c.sent, c.calls + 1);
  }

  lemma RecvKeepsInv(p: PeerState, c: Conn, answer: RecvAnswer)
    requires ConnInv(p, c, true, false) && CanAnswer(c, answer)
    ensures ReadyRecv(p, answer).Handled?
    ensures var h := ReadyRecv(p, answer);
            var d := Heard(c, p, answer);
            if answer.Eof? then h.status == STATUS_NORW && ClosedInv(d)
            else ConnInv(h.peer, d, h.status.wantRead, h.status.wantWrite) && (h.status.wantRead || h.status.wantWrite)
  {
    if answer.Data? {
      DataKeepsInv(p, c, answer.bytes);
    } else if answer.Eof? {
      assert c.received == c.input && Pending(p) == [] && c.sent == Stream(c.input);
    }
  }

  lemma SendKeepsInv(p: PeerState, c: Conn, answer: SendAnswer)
    requires ConnInv(p, c, false, true)
    requires answer.Accepted? ==> 1 <= answer.n <= p.sendbufEnd - p.sendptr
    ensures var h := ReadySend(p, answer);
            && h.Handled?
            && ConnInv(h.peer, Told(c, p, answer), h.status.wantRead, h.status.wantWrite)
            && (h.status.wantRead || h.status.wantWrite)
  {
    if answer.Accepted? {
      var q, d := ReadySend(p, answer).peer, Told(c, p, answer);
      var n := answer.n;
      assert Pending(p) == p.sendbuf[p.sendptr..p.sendptr + n] + Pending(q);
      assert d.sent + Pending(q) == c.sent + Pending(p);
    }
  }

  // What an event on one descriptor leaves alone.
  ghost predicate Elsewhere(w: World, v: World, fd: nat) {
    && |v.table| == |w.table|
    && (forall g :: 0 <= g < |w.table| && g != fd ==> v.table[g] == w.table[g])
    && (forall g :: g != fd ==> (g in v.conns <==> g in w.conns))
    && (forall g :: g != fd && g in w.conns ==> v.conns[g] == w.conns[g])
    && (forall g :: g != fd ==> (g in v.reading <==> g in w.reading) && (g in v.writing <==> g in w.writing))
  }

  lemma ElsewhereKeepsInv(w: World, v: World, fd: nat)
    requires Inv(w) && Elsewhere(w, v, fd) && TableSane(v) && !v.failed && fd < |w.table|
    requires if fd in v.conns
             then ConnInv(v.table[fd], v.conns[fd], fd in v.reading, fd in v.writing)
             else fd !in v.reading && fd !in v.writing
    requires v.closed == w.closed || exists c :: v.closed == w.closed + [c] && ClosedInv(c)
    ensures Inv(v)
  {
    forall g | g in v.conns
      ensures g < |v.table| && ConnInv(v.table[g], v.conns[g], g in v.reading, g in v.writing)
    {
      if g != fd {
        assert g in w.conns && v.conns[g] == w.conns[g] && v.table[g] == w.table[g];
      }
    }
  }

  lemma FinishKeepsInv(w: World, fd: nat, h: Handled, d: Conn)
    requires Inv(w) && fd in w.conns && h.Handled? && |h.peer.sendbuf| == SENDBUF_SIZE
    requires if h.status == STATUS_NORW then ClosedInv(d)
             else ConnInv(h.peer, d, h.status.wantRead, h.status.wantWrite)
    ensures var u := w.(table := w.table[fd := h.peer], conns := w.conns[fd := d]);
            Inv(Finish(u, fd, h.status)) && Elsewhere(w, Finish(u, fd, h.status), fd)
  {
    hide ConnInv, ClosedInv, Sane;
    var u := w.(table := w.table[fd := h.peer], conns := w.conns[fd := d]);
    var v := Finish(u, fd, h.status);
    if h.status == STATUS_NORW {
      assert v.closed == w.closed + [d] && fd !in v.conns;
    } else {
      assert v.closed == w.closed && v.conns[fd] == d;
    }
    assert Elsewhere(w, v, fd);
    ElsewhereKeepsInv(w, v, fd);
  }

  // A step keeps the invariant and is confined to its own descriptor; accepting starts a
  // fresh history whatever the slot held before.
  lemma StepKeepsInv(w: World, e: Event)
    requires Inv(w) && Possible(w, e)
    ensures Inv(Apply(w, e)) && Elsewhere(w, Apply(w, e), e.fd)
    ensures e.Accept? ==> Apply(w, e).conns[e.fd] == Conn(e.input, [], e.input, [], 0)
  {
    match e
    case Accept(fd, input) =>
      AcceptKeepsInv(w.table[fd], input);
      assert Elsewhere(w, Apply(w, e), fd);
      ElsewhereKeepsInv(w, Apply(w, e), fd);
    case Readable(fd, answer) =>
      RecvKeepsInv(w.table[fd], w.conns[fd], answer);
      FinishKeepsInv(w, fd, ReadyRecv(w.table[fd], answer), Heard(w.conns[fd], w.table[fd], answer));
    case Writable(fd, answer) =>
      SendKeepsInv(w.table[fd], w.conns[fd], answer);
      FinishKeepsInv(w, fd, ReadySend(w.table[fd], answer), Told(w.conns[fd], w.table[fd], answer));
  }

  // What the main loop has to do to its own data for an event on an open connection.
  ghost predicate Effect(w: World, v: World, fd: nat, h: Handled) {
    && h.Handled? && fd < |w.table|
    && v.table == w.table[fd := h.peer]
    && v.reading == (if h.status.wantRead then w.reading + {fd} else w.reading - {fd})
    && v.writing == (if h.status.wantWrite then w.writing + {fd} else w.writing - {fd})
    && v.conns.Keys <= w.conns.Keys
  }

  lemma RecvEffect(w: World, fd: nat, answer: RecvAnswer)
    requires Inv(w) && Possible(w, Readable(fd, answer))
    ensures Inv(Apply(w, Readable(fd, answer)))
    ensures Effect(w, Apply(w, Readable(fd, answer)), fd, ReadyRecv(w.table[fd], answer))
    ensures answer.Eof? ==> fd !in Apply(w, Readable(fd, answer)).conns
  {
    StepKeepsInv(w, Readable(fd, answer));
    RecvKeepsInv(w.table[fd], w.conns[fd], answer);
  }

  lemma SendEffect(w: World, fd: nat, answer: SendAnswer)
    requires Inv(w) && Possible(w, Writable(fd, answer))
    ensures Inv(Apply(w, Writable(fd, answer)))
    ensures Effect(w, Apply(w, Writable(fd, answer)), fd, ReadySend(w.table[fd], answer))
  {
    StepKeepsInv(w, Writable(fd, answer));
    SendKeepsInv(w.table[fd], w.conns[fd], answer);
  }

  lemma {:induction false} RunKeepsInv(w: World, events: seq<Event>, v: World)
    requires Inv(w) && Reaches(w, events, v)
    ensures Inv(v) && |v.table| == |w.table|
    decreases |events|
  {
    if events != [] {
      var front, last := events[..|events| - 1], events[|events| - 1];
      var u :| Reaches(w, front, u) && Possible(u, last) && TableSane(u) && v == Apply(u, last);
      RunKeepsInv(w, front, u);
      StepKeepsInv(u, last);
    }
  }

  lemma ReachesOneMore(w: World, events: seq<Event>, u: World, e: Event)
    requires Reaches(w, events, u) && Possible(u, e) && TableSane(u)
    ensures Reaches(w, events + [e], Apply(u, e))
  {
    assert (events + [e])[..|events|] == events;
  }

  // Turns of a main loop follow each other.
  lemma {:induction false} RunsChain(u: World, first: seq<Event>, v: World, second: seq<Event>, w: World)
    requires Reaches(u, first, v) && Reaches(v, second, w)
    ensures Reaches(u, first + second, w)
    decreases |second|
  {
    hide Apply, Possible, TableSane;
    if second == [] {
      assert first + second == first;
    } else {
      var front, last := second[..|second| - 1], second[|second| - 1];
      var x :| Reaches(v, front, x) && Possible(x, last) && TableSane(x) && w == Apply(x, last);
      RunsChain(u, first, v, front, x);
      ReachesOneMore(u, first + front, x, last);
      assert first + second == (first + front) + [last];
    }
  }

  // ---- Main results ----

  // For any number of connections and any interleaving, chunking, partial sends and
  // EAGAINs, every open connection has been sent a prefix of the stream function of its
  // input with the rest pending, and no assertion fails.
  lemma EveryRunRefinesStream(maxFds: nat, events: seq<Event>, w: World)
    requires Reaches(Start(maxFds), events, w)
    ensures !w.failed
    ensures forall fd :: fd in w.conns ==>
              fd < |w.table| && ConnInv(w.table[fd], w.conns[fd], fd in w.reading, fd in w.writing)
    ensures forall fd :: fd in w.conns ==> (fd in w.reading <==> fd !in w.writing)
    ensures forall fd :: fd in w.conns ==> w.conns[fd].sent <= Stream(w.conns[fd].input)
  {
    RunKeepsInv(Start(maxFds), events, w);
    forall fd | fd in w.conns
      ensures w.conns[fd].sent <= Stream(w.conns[fd].input)
    {
      SentIsPrefix(w.table[fd], w.conns[fd], fd in w.reading, fd in w.writing);
    }
  }

  lemma SentIsPrefix(p: PeerState, c: Conn, reading: bool, writing: bool)
    requires ConnInv(p, c, reading, writing)
    ensures c.sent <= Stream(c.input) && (reading <==> !writing)
  {
    StreamGrows(c.received, c.unread);
  }

  // Every closed connection was sent exactly what the sequential server sends, after at
  // most 2*|input|+2 handler calls that did not meet EAGAIN.
  lemma EveryCloseIsClean(maxFds: nat, events: seq<Event>, w: World, k: nat)
    requires Reaches(Start(maxFds), events, w) && k < |w.closed|
    ensures w.closed[k].sent == Stream(w.closed[k].input)
    ensures w.closed[k].calls <= 2 * |w.closed[k].input| + 2
  {
    RunKeepsInv(Start(maxFds), events, w);
  }

  // What the events themselves say about descriptor fd since it was last accepted: the
  // bytes recv returned, how many bytes send took, and the calls without EAGAIN.
  datatype Since = Since(received: seq<Byte>, sent: nat, calls: nat)

  function Advance(before: Since, e: Event): Since {
    match e
    case Accept(_, _) => Since([], 0, 0)
    case Readable(_, Data(bytes)) => Since(before.received + bytes, before.sent, before.calls + 1)
    case Readable(_, Eof) => before.(calls := before.calls + 1)
    case Writable(_, Accepted(n)) => Since(before.received, before.sent + n, before.calls + 1)
    case _ => before
  }

  function SinceAccept(events: seq<Event>, fd: nat): Since {
    if events == [] then Since([], 0, 0)
    else
      var before, last := SinceAccept(events[..|events| - 1], fd), events[|events| - 1];
      if last.fd == fd then Advance(before, last) else before
  }

  function Recorded(c: Conn): Since {
    Since(c.received, |c.sent|, c.calls)
  }

  lemma RecvRecorded(p: PeerState, c: Conn, answer: RecvAnswer)
    requires ConnInv(p, c, true, false) && CanAnswer(c, answer)
    ensures Recorded(Heard(c, p, answer)) == Advance(Recorded(c), Readable(0, answer))
  {
  }

  lemma SendRecorded(p: PeerState, c: Conn, answer: SendAnswer)
    requires ConnInv(p, c, false, true)
    requires answer.Accepted? ==> 1 <= answer.n <= p.sendbufEnd - p.sendptr
    ensures Recorded(Told(c, p, answer)) == Advance(Recorded(c), Writable(0, answer))
  {
  }

  lemma StepRecorded(w: World, e: Event)
    requires Inv(w) && Possible(w, e) && e.fd in Apply(w, e).conns
    ensures e.Accept? ==> Recorded(Apply(w, e).conns[e.fd]) == Since([], 0, 0)
    ensures !e.Accept? ==> e.fd in w.conns
                           && Recorded(Apply(w, e).conns[e.fd]) == Advance(Recorded(w.conns[e.fd]), e)
  {
    match e
    case Accept(_, _) =>
    case Readable(fd, answer) =>
      RecvKeepsInv(w.table[fd], w.conns[fd], answer);
      RecvRecorded(w.table[fd], w.conns[fd], answer);
    case Writable(fd, answer) =>
      SendKeepsInv(w.table[fd], w.conns[fd], answer);
      SendRecorded(w.table[fd], w.conns[fd], answer);
  }

  // A connection closes only at the end of its input, with its history.
  lemma ClosesOnlyAtEof(w: World, e: Event) returns (c: Conn)
    requires Inv(w) && Possible(w, e) && e.fd !in Apply(w, e).conns
    ensures e == Readable(e.fd, Eof) && Apply(w, e).closed == w.closed + [c]
    ensures c.input == w.conns[e.fd].input && Recorded(c) == Advance(Recorded(w.conns[e.fd]), e)
  {
    match e
    case Readable(fd, answer) =>
      RecvKeepsInv(w.table[fd], w.conns[fd], answer);
      c := Heard(w.conns[fd], w.table[fd], answer);
    case Writable(fd, answer) =>
      SendKeepsInv(w.table[fd], w.conns[fd], answer);
  }

  // A connection that is gone after a run has met the end of its input on the way.
  lemma {:induction false} GoneMeansEof(w: World, events: seq<Event>, v: World, fd: nat)
    requires Inv(w) && Reaches(w, events, v) && fd in w.conns && fd !in v.conns
    ensures Readable(fd, Eof) in events
    decreases |events|
  {
    var front, last := events[..|events| - 1], events[|events| - 1];
    var u :| Reaches(w, front, u) && Possible(u, last) && TableSane(u) && v == Apply(u, last);
    RunKeepsInv(w, front, u);
    hide Inv, Apply, Possible;
    StepKeepsInv(u, last);
    if fd in u.conns {
      var _ := ClosesOnlyAtEof(u, last);
    } else {
      GoneMeansEof(w, front, u, fd);
    }
  }

  // The recorded histories are those of the events.
  lemma {:induction false} HistoriesAreFaithful(maxFds: nat, events: seq<Event>, w: World, fd: nat)
    requires Reaches(Start(maxFds), events, w) && fd in w.conns
    ensures Recorded(w.conns[fd]) == SinceAccept(events, fd)
    decreases |events|
  {
    var front, last := events[..|events| - 1], events[|events| - 1];
    var u :| Reaches(Start(maxFds), front, u) && Possible(u, last) && TableSane(u) && w == Apply(u, last);
    RunKeepsInv(Start(maxFds), front, u);
    hide Inv, Apply, Possible, Recorded;
    StepKeepsInv(u, last);
    if last.fd == fd {
      StepRecorded(u, last);
      if !last.Accept? {
        HistoriesAreFaithful(maxFds, front, u, fd);
      }
    } else {
      HistoriesAreFaithful(maxFds, front, u, fd);
    }
  }

  // An open connection can always make a call that does not meet EAGAIN, and cannot have
  // made more than 2*|input|+1 of them: so it closes.
  lemma OpenMeansUnfinished(maxFds: nat, events: seq<Event>, w: World, fd: nat) returns (e: Event)
    requires Reaches(Start(maxFds), events, w) && fd in w.conns
    ensures w.conns[fd].calls <= 2 * |w.conns[fd].input| + 1
    ensures Possible(w, e) && e.fd == fd && e != Readable(fd, RecvAgain) && e != Writable(fd, SendAgain)
  {
    RunKeepsInv(Start(maxFds), events, w);
    var c := w.conns[fd];
    assert |c.received| <= |c.input|;
    if fd in w.writing {
      e := Writable(fd, Accepted(1));
    } else if c.unread == [] {
      e := Readable(fd, Eof);
    } else {
      assert c.unread[..1] <= c.unread;
      e := Readable(fd, Data(c.unread[..1]));
    }
  }
}

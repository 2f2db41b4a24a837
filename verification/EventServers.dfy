// The main loops of src/servers/select_server.c and src/servers/epoll_server.c over the
// table of connection states they update in place.
module EventServers {
  import opened Bytes
  import opened Options
  import opened Peers
  import opened Connections

  // What the accept, recv and send calls of one turn of the main loop return.
  // `accepted` is None when accept meets EAGAIN; with the new descriptor comes what its
  // peer will send.
  datatype Answers = Answers(
    recvs: map<nat, RecvAnswer>, sends: map<nat, SendAnswer>, accepted: Option<(nat, seq<Byte>)>)
  {
    // accept returns a descriptor inside a table of maxFds entries, or beyond it.
    predicate AcceptsWithin(maxFds: nat) { accepted.Some? && accepted.value.0 < maxFds }
    predicate AcceptsBeyond(maxFds: nat) { accepted.Some? && accepted.value.0 >= maxFds }
  }

  function AcceptEvent(a: Answers): (events: seq<Event>)
    ensures |events| <= 1
  {
    if a.accepted.Some? then [Accept(a.accepted.value.0, a.accepted.value.1)] else []
  }

  function RecvEvent(a: Answers, fd: nat): (events: seq<Event>)
    ensures |events| <= 1
  {
    if fd in a.recvs then [Readable(fd, a.recvs[fd])] else []
  }

  function SendEvent(a: Answers, fd: nat): (events: seq<Event>)
    ensures |events| <= 1
  {
    if fd in a.sends then [Writable(fd, a.sends[fd])] else []
  }

  ghost predicate CanRecv(w: World, a: Answers, fd: nat) {
    fd in a.recvs && Possible(w, Readable(fd, a.recvs[fd]))
  }

  ghost predicate CanSend(w: World, a: Answers, fd: nat) {
    fd in a.sends && Possible(w, Writable(fd, a.sends[fd]))
  }

  // ---- One pass of select ----

  // The descriptors select leaves in the two sets it was given, and the answers that the
  // calls made for them will get.
  datatype SelectTurn = SelectTurn(listener: nat, readable: set<nat>, writable: set<nat>, answers: Answers)

  // What the scan does at one descriptor.
  function AtReadable(turn: SelectTurn, fd: nat): (events: seq<Event>)
    ensures |events| <= 1
  {
    if fd !in turn.readable then []
    else if fd == turn.listener then AcceptEvent(turn.answers)
    else RecvEvent(turn.answers, fd)
  }

  function AtWritable(turn: SelectTurn, fd: nat): (events: seq<Event>)
    ensures |events| <= 1
  {
    if fd in turn.writable then SendEvent(turn.answers, fd) else []
  }

  // The events of one pass over the descriptors below `limit`, in the order of the scan.
  function Schedule(turn: SelectTurn, limit: nat): seq<Event> {
    if limit == 0 then []
    else Schedule(turn, limit - 1) + AtReadable(turn, limit - 1) + AtWritable(turn, limit - 1)
  }

  // accept returns a descriptor that is not in use when the scan gets to the listener:
  // what the events before it make of w has no such connection.
  ghost predicate AcceptsUnused(w: World, before: seq<Event>, listener: nat, a: Answers) {
    a.accepted.Some? ==>
      && a.accepted.value.0 != listener
      && forall u :: Reaches(w, before, u) ==> a.accepted.value.0 !in u.conns
  }

  // What select may report: registered descriptors only.
  ghost predicate SelectReports(w: World, turn: SelectTurn) {
    && turn.listener !in w.conns
    && turn.readable <= w.reading + {turn.listener} && turn.writable <= w.writing
    && (forall fd :: fd in turn.readable && fd != turn.listener ==> CanRecv(w, turn.answers, fd))
    && (forall fd :: fd in turn.writable ==> CanSend(w, turn.answers, fd))
    && (turn.listener in turn.readable ==>
          AcceptsUnused(w, Schedule(turn, turn.listener), turn.listener, turn.answers))
  }

  lemma ScheduleStep(turn: SelectTurn, fd: nat)
    ensures Schedule(turn, fd + 1) == Schedule(turn, fd) + AtReadable(turn, fd) + AtWritable(turn, fd)
    ensures AtReadable(turn, fd) == [] ==> Schedule(turn, fd + 1) == Schedule(turn, fd) + AtWritable(turn, fd)
    ensures AtWritable(turn, fd) == [] ==> Schedule(turn, fd + 1) == Schedule(turn, fd) + AtReadable(turn, fd)
    ensures AtReadable(turn, fd) == AtWritable(turn, fd) == [] ==> Schedule(turn, fd + 1) == Schedule(turn, fd)
  {
  }

  lemma ScheduleFromNothing(w: World, turn: SelectTurn)
    ensures Reaches(w, Schedule(turn, 0), w)
  {
  }

  lemma {:induction false} ScheduleStable(turn: SelectTurn, m: nat, n: nat)
    requires m <= n && forall fd :: m <= fd < n ==> fd !in turn.readable && fd !in turn.writable
    ensures Schedule(turn, m) == Schedule(turn, n)
    decreases n
  {
    if m < n {
      ScheduleStable(turn, m, n - 1);
    }
  }

  // How often the pass should dispatch e: once if its bit is ready.
  function Expected(turn: SelectTurn, limit: nat, e: Event): nat {
    var ready :=
      match e
      case Accept(fd, input) =>
        turn.listener < limit && turn.listener in turn.readable && turn.answers.accepted == Some((fd, input))
      case Readable(fd, answer) =>
        && fd < limit && fd in turn.readable && fd != turn.listener
        && fd in turn.answers.recvs && turn.answers.recvs[fd] == answer
      case Writable(fd, answer) =>
        fd < limit && fd in turn.writable && fd in turn.answers.sends && turn.answers.sends[fd] == answer;
    if ready then 1 else 0
  }

  // Every ready bit is dispatched exactly once, and nothing else is; lower descriptors
  // come first.
  lemma {:induction false} ScheduleIsExact(turn: SelectTurn, limit: nat, e: Event)
    ensures multiset(Schedule(turn, limit))[e] == Expected(turn, limit, e)
    ensures limit > 0 ==> Schedule(turn, limit - 1) <= Schedule(turn, limit)
  {
    if limit > 0 {
      hide Schedule, Expected, AtReadable, AtWritable;
      var fd := limit - 1;
      ScheduleIsExact(turn, fd, e);
      ScheduleStep(turn, fd);
      CountConcat(Schedule(turn, fd), AtReadable(turn, fd), AtWritable(turn, fd), e);
      OneMoreExpected(turn, fd, e);
    }
  }

  lemma OneMoreExpected(turn: SelectTurn, fd: nat, e: Event)
    ensures Expected(turn, fd + 1, e)
            == Expected(turn, fd, e)
               + (if AtReadable(turn, fd) == [e] then 1 else 0) + (if AtWritable(turn, fd) == [e] then 1 else 0)
  {
    assert AtReadable(turn, fd) == [e] ==> AtReadable(turn, fd)[0] == e;
    assert AtWritable(turn, fd) == [e] ==> AtWritable(turn, fd)[0] == e;
    assert RecvEvent(turn.answers, e.fd) == [e] ==> RecvEvent(turn.answers, e.fd)[0] == e;
    assert SendEvent(turn.answers, e.fd) == [e] ==> SendEvent(turn.answers, e.fd)[0] == e;
    assert AcceptEvent(turn.answers) == [e] ==> AcceptEvent(turn.answers)[0] == e;
  }

  lemma CountConcat(before: seq<Event>, received: seq<Event>, sends: seq<Event>, e: Event)
    requires |received| <= 1 && |sends| <= 1
    ensures multiset(before + received + sends)[e]
            == multiset(before)[e] + (if received == [e] then 1 else 0) + (if sends == [e] then 1 else 0)
  {
    assert multiset(before + received + sends) == multiset(before) + multiset(received) + multiset(sends);
    OneAtMost(received, e);
    OneAtMost(sends, e);
  }

  lemma OneAtMost(events: seq<Event>, e: Event)
    requires |events| <= 1
    ensures multiset(events)[e] == if events == [e] then 1 else 0
  {
    if |events| == 1 {
      assert events == [events[0]];
      assert multiset(events) == multiset{events[0]};
    }
  }

  function Remaining(s: set<nat>, fd: nat): set<nat> {
    set x | x in s && x >= fd
  }

  lemma RemainingStep(s: set<nat>, fd: nat)
    ensures |Remaining(s, fd)| == |Remaining(s, fd + 1)| + if fd in s then 1 else 0
  {
    if fd in s {
      assert Remaining(s, fd) == Remaining(s, fd + 1) + {fd};
    } else {
      assert Remaining(s, fd) == Remaining(s, fd + 1);
    }
  }

  // Descriptor fd is as it was in w.
  ghost predicate Untouched(w: World, v: World, fd: nat) {
    && fd in w.conns && fd in v.conns && v.conns[fd] == w.conns[fd]
    && fd < |w.table| == |v.table| && v.table[fd] == w.table[fd]
    && (fd in v.reading <==> fd in w.reading) && (fd in v.writing <==> fd in w.writing)
    && w.failed == v.failed
  }

  // Before the scan looks at fd: nothing that is ready from there on has changed.
  ghost predicate Ahead(w: World, v: World, turn: SelectTurn, fd: nat) {
    forall x :: x >= fd && x != turn.listener && (x in turn.readable || x in turn.writable) ==>
      Untouched(w, v, x)
  }

  lemma AheadAtStart(w: World, turn: SelectTurn)
    requires Inv(w) && SelectReports(w, turn)
    ensures Ahead(w, w, turn, 0)
    ensures turn.readable !! turn.writable
  {
    forall x | x in turn.writable
      ensures x !in turn.readable
    {
      assert ConnInv(w.table[x], w.conns[x], x in w.reading, x in w.writing);
    }
  }

  // A ready bit ahead of the scan is never stale.
  lemma StillPossible(w: World, v: World, a: Answers, fd: nat)
    requires Untouched(w, v, fd)
    ensures CanRecv(w, a, fd) ==> CanRecv(v, a, fd)
    ensures CanSend(w, a, fd) ==> CanSend(v, a, fd)
  {
  }

  lemma AcceptIsPossible(w: World, before: seq<Event>, u: World, listener: nat, a: Answers)
    requires Inv(u) && a.AcceptsWithin(|u.table|)
    requires AcceptsUnused(w, before, listener, a) && Reaches(w, before, u)
    ensures Possible(u, AcceptEvent(a)[0])
  {
  }

  lemma AheadAfterAccept(w: World, u: World, v: World, turn: SelectTurn)
    requires turn.answers.accepted.Some? && turn.answers.accepted.value.0 !in u.conns
    requires Ahead(w, u, turn, turn.listener)
    requires Elsewhere(u, v, turn.answers.accepted.value.0) && u.failed == v.failed
    ensures Ahead(w, v, turn, turn.listener + 1)
  {
    var newfd := turn.answers.accepted.value.0;
    forall x | x >= turn.listener + 1 && (x in turn.readable || x in turn.writable)
      ensures Untouched(w, v, x)
    {
      assert Untouched(w, u, x) && x != newfd;
    }
  }

  lemma AheadAfter(w: World, u: World, v: World, turn: SelectTurn, fd: nat)
    requires Ahead(w, u, turn, fd)
    requires Elsewhere(u, v, fd) && u.failed == v.failed
    ensures Ahead(w, v, turn, fd + 1)
  {
    forall x | x >= fd + 1 && x != turn.listener && (x in turn.readable || x in turn.writable)
      ensures Untouched(w, v, x)
    {
      assert Untouched(w, u, x);
    }
  }

  // What is known before the scan looks at fd, in world u.
  ghost predicate ScanAt(w: World, u: World, turn: SelectTurn, fd: nat) {
    && Inv(w) && Inv(u) && SelectReports(w, turn)
    && Reaches(w, Schedule(turn, fd), u)
    && Ahead(w, u, turn, fd)
  }

  lemma ScanFacts(w: World, u: World, turn: SelectTurn, fd: nat)
    requires ScanAt(w, u, turn, fd)
    ensures turn.readable !! turn.writable && turn.listener !in turn.writable
    ensures turn.listener in turn.readable && turn.answers.accepted.Some? ==>
              turn.answers.accepted.value.0 != turn.listener
  {
    hide Apply, Reaches, Schedule, Ahead;
    AheadAtStart(w, turn);
  }

  lemma ScanAccept(w: World, u: World, turn: SelectTurn)
    requires ScanAt(w, u, turn, turn.listener)
    requires turn.listener in turn.readable && turn.answers.AcceptsWithin(|u.table|)
    ensures Possible(u, AcceptEvent(turn.answers)[0]) && turn.listener !in turn.writable
    ensures ScanAt(w, Apply(u, AcceptEvent(turn.answers)[0]), turn, turn.listener + 1)
  {
    hide Apply, Elsewhere, Reaches, Schedule;
    var e := AcceptEvent(turn.answers)[0];
    AheadAtStart(w, turn);
    ScheduleStep(turn, turn.listener);
    AcceptIsPossible(w, Schedule(turn, turn.listener), u, turn.listener, turn.answers);
    StepKeepsInv(u, e);
    ReachesOneMore(w, Schedule(turn, turn.listener), u, e);
    assert Apply(u, e).failed == u.failed;
    AheadAfterAccept(w, u, Apply(u, e), turn);
  }

  lemma ScanRecv(w: World, u: World, turn: SelectTurn, fd: nat)
    requires ScanAt(w, u, turn, fd)
    requires fd in turn.readable && fd != turn.listener
    ensures CanRecv(u, turn.answers, fd) && fd !in turn.writable
    ensures ScanAt(w, Apply(u, Readable(fd, turn.answers.recvs[fd])), turn, fd + 1)
  {
    hide Apply, Elsewhere, Reaches, Schedule;
    var e := Readable(fd, turn.answers.recvs[fd]);
    AheadAtStart(w, turn);
    ScheduleStep(turn, fd);
    StillPossible(w, u, turn.answers, fd);
    StepKeepsInv(u, e);
    RecvEffect(u, fd, turn.answers.recvs[fd]);
    ReachesOneMore(w, Schedule(turn, fd), u, e);
    AheadAfter(w, u, Apply(u, e), turn, fd);
  }

  lemma ScanSend(w: World, u: World, turn: SelectTurn, fd: nat)
    requires ScanAt(w, u, turn, fd)
    requires fd in turn.writable
    ensures CanSend(u, turn.answers, fd) && fd !in turn.readable
    ensures ScanAt(w, Apply(u, Writable(fd, turn.answers.sends[fd])), turn, fd + 1)
  {
    hide Apply, Elsewhere, Reaches, Schedule;
    var e := Writable(fd, turn.answers.sends[fd]);
    AheadAtStart(w, turn);
    assert fd in w.conns;
    ScheduleStep(turn, fd);
    StillPossible(w, u, turn.answers, fd);
    StepKeepsInv(u, e);
    SendEffect(u, fd, turn.answers.sends[fd]);
    ReachesOneMore(w, Schedule(turn, fd), u, e);
    AheadAfter(w, u, Apply(u, e), turn, fd);
  }

  lemma ScanSkip(w: World, u: World, turn: SelectTurn, fd: nat)
    requires ScanAt(w, u, turn, fd)
    requires fd in turn.readable ==> fd == turn.listener && turn.answers.accepted.None?
    requires fd !in turn.writable
    ensures ScanAt(w, u, turn, fd + 1)
  {
    hide Reaches, Schedule, Inv;
    ScheduleStep(turn, fd);
  }

  // The scan gets to the listener, whatever is ready before it.
  lemma {:induction false} ScanGetsTo(w: World, turn: SelectTurn, fd: nat) returns (u: World)
    requires Inv(w) && SelectReports(w, turn) && fd <= turn.listener
    ensures ScanAt(w, u, turn, fd)
  {
    hide SelectReports, Reaches, Schedule, Ahead, Apply;
    if fd == 0 {
      u := w;
      AheadAtStart(w, turn);
      ScheduleFromNothing(w, turn);
    } else {
      var v := ScanGetsTo(w, turn, fd - 1);
      if fd - 1 in turn.readable {
        ScanRecv(w, v, turn, fd - 1);
        u := Apply(v, Readable(fd - 1, turn.answers.recvs[fd - 1]));
      } else if fd - 1 in turn.writable {
        ScanSend(w, v, turn, fd - 1);
        u := Apply(v, Writable(fd - 1, turn.answers.sends[fd - 1]));
      } else {
        ScanSkip(w, v, turn, fd - 1);
        u := v;
      }
    }
  }

  lemma InSchedule(turn: SelectTurn, limit: nat, fd: nat)
    requires Readable(fd, Eof) in Schedule(turn, limit)
    ensures fd < limit && fd in turn.readable && RecvEvent(turn.answers, fd) == [Readable(fd, Eof)]
  {
    ScheduleIsExact(turn, limit, Readable(fd, Eof));
  }

  // All that accept promises is an unused descriptor. If it was open when select was
  // called, it lies behind the scan, which has read the end of its input; so no ready bit
  // that the scan still has to look at belongs to the connection it stood for.
  lemma ReusedLiesBehind(w: World, turn: SelectTurn)
    requires Inv(w) && SelectReports(w, turn)
    requires turn.listener in turn.readable && turn.answers.accepted.Some?
    ensures var newfd := turn.answers.accepted.value.0;
            && (newfd in w.conns ==>
                  newfd < turn.listener && newfd in turn.readable && turn.answers.recvs[newfd] == Eof)
            && newfd !in Remaining(turn.readable, turn.listener) && newfd !in Remaining(turn.writable, turn.listener)
  {
    var newfd := turn.answers.accepted.value.0;
    var u := ScanGetsTo(w, turn, turn.listener);
    if newfd in w.conns {
      GoneMeansEof(w, Schedule(turn, turn.listener), u, newfd);
      InSchedule(turn, turn.listener, newfd);
      assert RecvEvent(turn.answers, newfd)[0] == Readable(newfd, Eof);
    }
  }

  // ---- One batch of epoll_wait ----

  datatype EpollEvent = EpollEvent(fd: nat, epollin: bool, epollout: bool)

  // What epoll_wait fills in, and the answers that the calls made for it will get.
  datatype EpollTurn = EpollTurn(listener: nat, events: seq<EpollEvent>, answers: Answers)

  function AtEvent(turn: EpollTurn, e: EpollEvent): seq<Event> {
    if e.fd == turn.listener then AcceptEvent(turn.answers)
    else if e.epollin then RecvEvent(turn.answers, e.fd)
    else if e.epollout then SendEvent(turn.answers, e.fd)
    else []
  }

  // The events of the first n entries, in order.
  function Batch(turn: EpollTurn, n: nat): seq<Event>
    requires n <= |turn.events|
  {
    if n == 0 then [] else Batch(turn, n - 1) + AtEvent(turn, turn.events[n - 1])
  }

  // What epoll_wait may fill in: each descriptor once, with bits it is registered for.
  ghost predicate EpollReports(w: World, turn: EpollTurn) {
    && turn.listener !in w.conns
    && (forall k, l :: 0 <= k < l < |turn.events| ==> turn.events[k].fd != turn.events[l].fd)
    && (forall k :: 0 <= k < |turn.events| && turn.events[k].fd != turn.listener ==>
          && (turn.events[k].epollin ==> CanRecv(w, turn.answers, turn.events[k].fd))
          && (turn.events[k].epollout ==> CanSend(w, turn.answers, turn.events[k].fd)))
    && (forall n :: 0 <= n < |turn.events| && turn.events[n].fd == turn.listener ==>
          AcceptsUnused(w, Batch(turn, n), turn.listener, turn.answers))
  }

  // Before entry n of the batch: nothing that has an event from there on has changed.
  ghost predicate BatchAhead(w: World, v: World, turn: EpollTurn, n: nat) {
    forall k :: n <= k < |turn.events| && turn.events[k].fd != turn.listener ==>
      AtEvent(turn, turn.events[k]) != [] ==> Untouched(w, v, turn.events[k].fd)
  }

  lemma BatchAheadAtStart(w: World, turn: EpollTurn)
    requires Inv(w) && EpollReports(w, turn)
    ensures BatchAhead(w, w, turn, 0)
    ensures Reaches(w, Batch(turn, 0), w)
  {
  }

  lemma BatchAheadAfterAccept(w: World, u: World, v: World, turn: EpollTurn, n: nat)
    requires EpollReports(w, turn) && BatchAhead(w, u, turn, n)
    requires n < |turn.events| && turn.events[n].fd == turn.listener
    requires turn.answers.accepted.Some? && turn.answers.accepted.value.0 !in u.conns
    requires Elsewhere(u, v, turn.answers.accepted.value.0) && u.failed == v.failed
    ensures BatchAhead(w, v, turn, n + 1)
  {
    forall k | n + 1 <= k < |turn.events| && turn.events[k].fd != turn.listener && AtEvent(turn, turn.events[k]) != []
      ensures Untouched(w, v, turn.events[k].fd)
    {
      assert Untouched(w, u, turn.events[k].fd);
    }
  }

  lemma BatchAheadAfter(w: World, u: World, v: World, turn: EpollTurn, n: nat)
    requires EpollReports(w, turn) && BatchAhead(w, u, turn, n)
    requires n < |turn.events| && turn.events[n].fd != turn.listener
    requires Elsewhere(u, v, turn.events[n].fd) && u.failed == v.failed
    ensures BatchAhead(w, v, turn, n + 1)
  {
    forall k | n + 1 <= k < |turn.events| && turn.events[k].fd != turn.listener && AtEvent(turn, turn.events[k]) != []
      ensures Untouched(w, v, turn.events[k].fd)
    {
      assert Untouched(w, u, turn.events[k].fd);
    }
  }

  // What is known before entry n of the batch, in world u.
  ghost predicate BatchAt(w: World, u: World, turn: EpollTurn, n: nat) {
    && n <= |turn.events|
    && Inv(w) && Inv(u) && EpollReports(w, turn)
    && Reaches(w, Batch(turn, n), u)
    && BatchAhead(w, u, turn, n)
  }

  lemma BatchAccept(w: World, u: World, turn: EpollTurn, n: nat)
    requires BatchAt(w, u, turn, n)
    requires n < |turn.events| && turn.events[n].fd == turn.listener && turn.answers.AcceptsWithin(|u.table|)
    ensures Possible(u, AcceptEvent(turn.answers)[0])
    ensures BatchAt(w, Apply(u, AcceptEvent(turn.answers)[0]), turn, n + 1)
  {
    hide Apply, Elsewhere, Reaches;
    var e := AcceptEvent(turn.answers)[0];
    AcceptIsPossible(w, Batch(turn, n), u, turn.listener, turn.answers);
    StepKeepsInv(u, e);
    ReachesOneMore(w, Batch(turn, n), u, e);
    assert Apply(u, e).failed == u.failed;
    BatchAheadAfterAccept(w, u, Apply(u, e), turn, n);
  }

  lemma BatchRecv(w: World, u: World, turn: EpollTurn, n: nat)
    requires BatchAt(w, u, turn, n)
    requires n < |turn.events| && turn.events[n].fd != turn.listener && turn.events[n].epollin
    ensures CanRecv(u, turn.answers, turn.events[n].fd)
    ensures BatchAt(w, Apply(u, Readable(turn.events[n].fd, turn.answers.recvs[turn.events[n].fd])), turn, n + 1)
  {
    hide Apply, Elsewhere, Reaches;
    var fd := turn.events[n].fd;
    var e := Readable(fd, turn.answers.recvs[fd]);
    StillPossible(w, u, turn.answers, fd);
    StepKeepsInv(u, e);
    RecvEffect(u, fd, turn.answers.recvs[fd]);
    ReachesOneMore(w, Batch(turn, n), u, e);
    BatchAheadAfter(w, u, Apply(u, e), turn, n);
  }

  lemma BatchSend(w: World, u: World, turn: EpollTurn, n: nat)
    requires BatchAt(w, u, turn, n)
    requires n < |turn.events| && turn.events[n].fd != turn.listener
    requires !turn.events[n].epollin && turn.events[n].epollout
    ensures CanSend(u, turn.answers, turn.events[n].fd)
    ensures BatchAt(w, Apply(u, Writable(turn.events[n].fd, turn.answers.sends[turn.events[n].fd])), turn, n + 1)
  {
    hide Apply, Elsewhere, Reaches;
    var fd := turn.events[n].fd;
    var e := Writable(fd, turn.answers.sends[fd]);
    StillPossible(w, u, turn.answers, fd);
    StepKeepsInv(u, e);
    SendEffect(u, fd, turn.answers.sends[fd]);
    ReachesOneMore(w, Batch(turn, n), u, e);
    BatchAheadAfter(w, u, Apply(u, e), turn, n);
  }

  lemma BatchUnchanged(turn: EpollTurn, n: nat)
    requires n < |turn.events| && AtEvent(turn, turn.events[n]) == []
    ensures Batch(turn, n + 1) == Batch(turn, n)
  {
    assert Batch(turn, n) + [] == Batch(turn, n);
  }

  lemma BatchSkip(w: World, u: World, turn: EpollTurn, n: nat)
    requires BatchAt(w, u, turn, n)
    requires n < |turn.events| && AtEvent(turn, turn.events[n]) == []
    ensures BatchAt(w, u, turn, n + 1)
  {
    hide Inv, EpollReports, Reaches, Batch;
    BatchUnchanged(turn, n);
  }

  // The batch gets to the listener's entry, whatever comes before it.
  lemma {:induction false} BatchGetsTo(w: World, turn: EpollTurn, n: nat) returns (u: World)
    requires Inv(w) && EpollReports(w, turn) && n <= |turn.events|
    requires forall k :: 0 <= k < n ==> turn.events[k].fd != turn.listener
    ensures BatchAt(w, u, turn, n)
  {
    hide EpollReports, Reaches, Batch, BatchAhead, Apply;
    if n == 0 {
      u := w;
      BatchAheadAtStart(w, turn);
    } else {
      var v := BatchGetsTo(w, turn, n - 1);
      var e := turn.events[n - 1];
      if e.epollin {
        BatchRecv(w, v, turn, n - 1);
        u := Apply(v, Readable(e.fd, turn.answers.recvs[e.fd]));
      } else if e.epollout {
        BatchSend(w, v, turn, n - 1);
        u := Apply(v, Writable(e.fd, turn.answers.sends[e.fd]));
      } else {
        BatchSkip(w, v, turn, n - 1);
        u := v;
      }
    }
  }

  // Whether an entry asks for e; EPOLLOUT is looked at only without EPOLLIN.
  predicate AsksFor(turn: EpollTurn, entry: EpollEvent, e: Event) {
    match e
    case Accept(fd, input) => entry.fd == turn.listener && turn.answers.accepted == Some((fd, input))
    case Readable(fd, answer) =>
      && fd == entry.fd != turn.listener && entry.epollin
      && fd in turn.answers.recvs && turn.answers.recvs[fd] == answer
    case Writable(fd, answer) =>
      && fd == entry.fd != turn.listener && !entry.epollin && entry.epollout
      && fd in turn.answers.sends && turn.answers.sends[fd] == answer
  }

  lemma AtEventMeans(turn: EpollTurn, entry: EpollEvent, e: Event)
    ensures |AtEvent(turn, entry)| <= 1
    ensures AtEvent(turn, entry) == [e] <==> AsksFor(turn, entry, e)
  {
    assert AtEvent(turn, entry) == [e] ==> AtEvent(turn, entry)[0] == e;
  }

  function Asking(turn: EpollTurn, n: nat, e: Event): nat
    requires n <= |turn.events|
  {
    if n == 0 then 0 else Asking(turn, n - 1, e) + if AsksFor(turn, turn.events[n - 1], e) then 1 else 0
  }

  // A batch dispatches what its entries ask for, once each, and nothing else, in their
  // order: the batch of the first entries is the start of the batch of more of them.
  lemma {:induction false} BatchIsExact(turn: EpollTurn, n: nat, e: Event)
    requires n <= |turn.events|
    ensures multiset(Batch(turn, n))[e] == Asking(turn, n, e)
    ensures n > 0 ==> Batch(turn, n - 1) <= Batch(turn, n)
  {
    if n > 0 {
      BatchIsExact(turn, n - 1, e);
      AtEventMeans(turn, turn.events[n - 1], e);
      var before, more := Batch(turn, n - 1), AtEvent(turn, turn.events[n - 1]);
      assert multiset(before + more) == multiset(before) + multiset(more);
      OneAtMost(more, e);
    }
  }

  lemma {:induction false} InBatch(turn: EpollTurn, n: nat, e: Event) returns (k: nat)
    requires n <= |turn.events| && e in Batch(turn, n)
    ensures k < n && AtEvent(turn, turn.events[k]) == [e]
  {
    if e in AtEvent(turn, turn.events[n - 1]) {
      k := n - 1;
    } else {
      k := InBatch(turn, n - 1, e);
    }
  }

  // As for select: a descriptor that was open when epoll_wait returned and that accept
  // returns has had its entry before the listener's, with the end of its input, and no
  // later entry does anything to it.
  lemma ReusedHasHadItsEntry(w: World, turn: EpollTurn, n: nat)
    requires Inv(w) && EpollReports(w, turn) && turn.answers.accepted.Some?
    requires n < |turn.events| && turn.events[n].fd == turn.listener
    ensures var newfd := turn.answers.accepted.value.0;
            && (newfd in w.conns ==>
                  exists k :: 0 <= k < n && AtEvent(turn, turn.events[k]) == [Readable(newfd, Eof)])
            && forall k :: n <= k < |turn.events| && turn.events[k].fd == newfd ==> AtEvent(turn, turn.events[k]) == []
  {
    var newfd := turn.answers.accepted.value.0;
    var u := BatchGetsTo(w, turn, n);
    if newfd in w.conns {
      GoneMeansEof(w, Batch(turn, n), u, newfd);
      var k := InBatch(turn, n, Readable(newfd, Eof));
      assert AtEvent(turn, turn.events[k])[0] == Readable(newfd, Eof);
    }
  }

  // The descriptor sets hold the interests of the world, and the listener for reading.
  ghost predicate Registered(w: World, listener: nat, readfds: set<nat>, writefds: set<nat>, fdsetMax: nat) {
    && readfds == w.reading + {listener} && writefds == w.writing
    && listener !in w.conns
    && forall fd :: fd in readfds || fd in writefds ==> fd <= fdsetMax
  }

  function WithInterest(fds: set<nat>, fd: nat, wanted: bool): set<nat> {
    if wanted then fds + {fd} else fds - {fd}
  }

  lemma EffectKeepsRegistered(
      w: World, v: World, fd: nat, h: Handled,
      listener: nat, readfds: set<nat>, writefds: set<nat>, fdsetMax: nat)
    requires Effect(w, v, fd, h) && fd in w.conns && (fd in w.reading || fd in w.writing)
    requires Registered(w, listener, readfds, writefds, fdsetMax)
    ensures Registered(v, listener, WithInterest(readfds, fd, h.status.wantRead),
                       WithInterest(writefds, fd, h.status.wantWrite), fdsetMax)
  {
  }

  lemma AcceptKeepsRegistered(
      w: World, fd: nat, input: seq<Byte>,
      listener: nat, readfds: set<nat>, writefds: set<nat>, fdsetMax: nat)
    requires Inv(w) && Possible(w, Accept(fd, input)) && fd != listener
    requires Registered(w, listener, readfds, writefds, fdsetMax)
    ensures Inv(Apply(w, Accept(fd, input)))
    ensures Apply(w, Accept(fd, input)).table == w.table[fd := Connected(w.table[fd])]
    ensures Registered(Apply(w, Accept(fd, input)), listener, WithInterest(readfds, fd, false),
                       WithInterest(writefds, fd, true), if fd > fdsetMax then fd else fdsetMax)
  {
    StepKeepsInv(w, Accept(fd, input));
  }

  class EventServer {
    const listener: nat
    const peers: seq<Peer>
    var readfdSet: set<nat>
    var writefdSet: set<nat>
    var fdsetMax: nat
    ghost var world: World

    ghost predicate Separate() {
      && (forall i :: 0 <= i < |peers| ==> peers[i].Valid())
      && (forall i, j :: 0 <= i < |peers| && 0 <= j < |peers| && i != j ==>
            peers[i] != peers[j] && peers[i].sendbuf != peers[j].sendbuf)
    }

    ghost predicate Holds(table: seq<PeerState>)
      reads peers, set p | p in peers :: p.sendbuf
    {
      |table| == |peers| && forall i :: 0 <= i < |peers| ==> peers[i].View() == table[i]
    }

    ghost predicate Valid()
      reads this, peers, set p | p in peers :: p.sendbuf
    {
      && Separate() && Holds(world.table)
      && Registered(world, listener, readfdSet, writefdSet, fdsetMax)
      && Inv(world)
    }

    constructor (listener: nat, maxFds: nat)
      ensures Valid() && world == Start(maxFds)
      ensures this.listener == listener && |peers| == maxFds && fresh(this)
    {
      var table: seq<Peer> := [];
      for i := 0 to maxFds
        invariant |table| == i
        invariant forall k :: 0 <= k < i ==> table[k].Valid() && fresh(table[k]) && fresh(table[k].sendbuf)
        invariant forall k, l :: 0 <= k < i && 0 <= l < i && k != l ==>
                    table[k] != table[l] && table[k].sendbuf != table[l].sendbuf
        invariant forall k :: 0 <= k < i ==>
                    table[k].View() == PeerState(INITIAL_ACK, seq(SENDBUF_SIZE, _ => 0), 0, 0)
      {
        var peer := new Peer();
        table := table + [peer];
      }
      this.listener := listener;
      peers := table;
      readfdSet, writefdSet, fdsetMax := {listener}, {}, listener;
      world := Start(maxFds);
    }

    method SetInterest(fd: nat, status: Status)
      modifies this`readfdSet, this`writefdSet
      ensures readfdSet == WithInterest(old(readfdSet), fd, status.wantRead)
      ensures writefdSet == WithInterest(old(writefdSet), fd, status.wantWrite)
    {
      if status.wantRead {
        readfdSet := readfdSet + {fd};
      } else {
        readfdSet := readfdSet - {fd};
      }
      if status.wantWrite {
        writefdSet := writefdSet + {fd};
      } else {
        writefdSet := writefdSet - {fd};
      }
    }

    method OnAccept(fd: nat, ghost input: seq<Byte>)
      requires Valid() && Possible(world, Accept(fd, input)) && fd != listener
      modifies this`readfdSet, this`writefdSet, this`fdsetMax, this`world, peers[fd], peers[fd].sendbuf
      ensures Valid() && world == Apply(old(world), Accept(fd, input))
      ensures fdsetMax >= old(fdsetMax)
    {
      AcceptKeepsRegistered(world, fd, input, listener, readfdSet, writefdSet, fdsetMax);
      if fd > fdsetMax {
        fdsetMax := fd;
      }
      ghost var table := world.table[fd := Connected(world.table[fd])];
      var status := peers[fd].OnPeerConnected();
      SetInterest(fd, status);
      assert Holds(table);
      world := Apply(world, Accept(fd, input));
    }

    // Stores what a handler made of descriptor fd, given what that does to the world.
    method Register(fd: nat, status: Status, ghost next: World, ghost h: Handled)
      requires Separate() && Holds(next.table) && Inv(next)
      requires Registered(world, listener, readfdSet, writefdSet, fdsetMax)
      requires Effect(world, next, fd, h) && h.status == status
      requires fd in world.conns && (fd in world.reading || fd in world.writing)
      modifies this`readfdSet, this`writefdSet, this`world
      ensures Valid() && world == next
    {
      EffectKeepsRegistered(world, next, fd, h, listener, readfdSet, writefdSet, fdsetMax);
      SetInterest(fd, status);
      world := next;
    }

    method OnReadable(fd: nat, answer: RecvAnswer)
      requires Valid() && Possible(world, Readable(fd, answer))
      modifies this`readfdSet, this`writefdSet, this`world, peers[fd], peers[fd].sendbuf
      ensures Valid() && world == Apply(old(world), Readable(fd, answer))
    {
      hide Inv, Registered, Apply, ReadyRecv;
      ghost var next, h := Apply(world, Readable(fd, answer)), ReadyRecv(world.table[fd], answer);
      RecvEffect(world, fd, answer);
      var ok, status := peers[fd].OnPeerReadyRecv(answer);
      assert Holds(next.table);
      Register(fd, status, next, h);
    }

    method OnWritable(fd: nat, answer: SendAnswer)
      requires Valid() && Possible(world, Writable(fd, answer))
      modifies this`readfdSet, this`writefdSet, this`world, peers[fd], peers[fd].sendbuf
      ensures Valid() && world == Apply(old(world), Writable(fd, answer))
    {
      hide Inv, Registered, Apply, ReadySend;
      ghost var next, h := Apply(world, Writable(fd, answer)), ReadySend(world.table[fd], answer);
      SendEffect(world, fd, answer);
      var status := peers[fd].OnPeerReadySend(answer);
      assert Holds(next.table);
      Register(fd, status, next, h);
    }

    // The body of the loop of select_server.c's main. `stopped` when accept returns a
    // descriptor beyond the table, where an assertion or a check ends the program.
    method SelectPass(turn: SelectTurn) returns (stopped: bool)
      requires Valid() && turn.listener == listener && SelectReports(world, turn)
      modifies this`readfdSet, this`writefdSet, this`fdsetMax, this`world, peers, set p | p in peers :: p.sendbuf
      ensures Valid()
      ensures stopped <==> listener in turn.readable
                           && turn.answers.accepted.Some? && turn.answers.accepted.value.0 >= |peers|
      ensures Reaches(old(world), Schedule(turn, if stopped then listener else old(fdsetMax) + 1), world)
    {
      hide Inv, Apply, Schedule, Reaches, Ahead;
      var nready := |turn.readable| + |turn.writable|;
      var fd := 0;
      ghost var w, top := world, fdsetMax;
      assert Remaining(turn.readable, 0) == turn.readable && Remaining(turn.writable, 0) == turn.writable;
      AheadAtStart(w, turn);
      ScheduleFromNothing(w, turn);
      while fd <= fdsetMax && nready > 0
        invariant Valid() && fdsetMax >= top
        invariant ScanAt(w, world, turn, fd)
        invariant nready == |Remaining(turn.readable, fd)| + |Remaining(turn.writable, fd)|
        invariant listener in turn.readable && turn.answers.AcceptsBeyond(|peers|) ==> fd <= listener
        decreases top + 1 - fd
      {
        NoneBeyond(turn.readable, turn.writable, top, fd);
        RemainingStep(turn.readable, fd);
        RemainingStep(turn.writable, fd);
        var handled;
        stopped, handled := ScanDescriptor(turn, fd, w);
        if stopped {
          return;
        }
        nready := nready - handled;
        fd := fd + 1;
      }
      NoneAhead(turn.readable, turn.writable, top, fd);
      if fd <= top + 1 {
        ScheduleStable(turn, fd, top + 1);
      } else {
        ScheduleStable(turn, top + 1, fd);
      }
      stopped := false;
    }

    // The body of the scan, for one descriptor; `handled` is how far nready goes down.
    method ScanDescriptor(turn: SelectTurn, fd: nat, ghost w: World) returns (stopped: bool, handled: nat)
      requires Valid() && turn.listener == listener && ScanAt(w, world, turn, fd)
      modifies this`readfdSet, this`writefdSet, this`fdsetMax, this`world, peers, set p | p in peers :: p.sendbuf
      ensures Valid() && fdsetMax >= old(fdsetMax)
      ensures stopped <==> fd == listener && fd in turn.readable && turn.answers.AcceptsBeyond(|peers|)
      ensures stopped ==> world == old(world)
      ensures !stopped ==>
                && ScanAt(w, world, turn, fd + 1)
                && handled == (if fd in turn.readable then 1 else 0) + (if fd in turn.writable then 1 else 0)
    {
      hide Inv, Registered, Apply, ScanAt;
      stopped, handled := false, 0;
      if fd in turn.readable {
        handled := handled + 1;
        stopped := ScanReadable(turn, fd, w);
      } else if fd !in turn.writable {
        ScanSkip(w, world, turn, fd);
      }
      if fd in turn.writable {
        handled := handled + 1;
        ScanSend(w, world, turn, fd);
        OnWritable(fd, turn.answers.sends[fd]);
      }
    }

    // The branch for a descriptor that is ready for reading.
    method ScanReadable(turn: SelectTurn, fd: nat, ghost w: World) returns (stopped: bool)
      requires Valid() && turn.listener == listener && ScanAt(w, world, turn, fd)
      requires fd in turn.readable
      modifies this`readfdSet, this`writefdSet, this`fdsetMax, this`world, peers, set p | p in peers :: p.sendbuf
      ensures Valid() && fdsetMax >= old(fdsetMax)
      ensures fd !in turn.writable
      ensures stopped <==> fd == listener && turn.answers.AcceptsBeyond(|peers|)
      ensures if stopped then world == old(world)
              else ScanAt(w, world, turn, fd + 1)
    {
      hide Inv, Registered, Apply, ScanAt;
      ScanFacts(w, world, turn, fd);
      stopped := false;
      if fd != listener {
        ScanRecv(w, world, turn, fd);
        OnReadable(fd, turn.answers.recvs[fd]);
      } else if turn.answers.accepted.None? {
        ScanSkip(w, world, turn, fd);
      } else if turn.answers.AcceptsBeyond(|peers|) {
        stopped := true;
      } else {
        ScanAccept(w, world, turn);
        OnAccept(turn.answers.accepted.value.0, turn.answers.accepted.value.1);
      }
    }

    // The body of the loop of epoll_server.c's main; readfdSet and writefdSet stand for
    // the interests that epoll_ctl registers.
    method EpollBatch(turn: EpollTurn) returns (stopped: bool, count: nat)
      requires Valid() && turn.listener == listener && EpollReports(world, turn)
      modifies this`readfdSet, this`writefdSet, this`fdsetMax, this`world, peers, set p | p in peers :: p.sendbuf
      ensures Valid() && count <= |turn.events|
      ensures Reaches(old(world), Batch(turn, count), world)
      ensures !stopped ==> count == |turn.events|
      ensures stopped <==> turn.answers.accepted.Some? && turn.answers.accepted.value.0 >= |peers|
                           && exists l :: 0 <= l < |turn.events| && turn.events[l].fd == listener
      ensures stopped ==> count < |turn.events| && turn.events[count].fd == listener
    {
      hide Inv, Apply, Batch, Reaches, BatchAhead;
      ghost var w := world;
      BatchAheadAtStart(w, turn);
      for i := 0 to |turn.events|
        invariant Valid() && BatchAt(w, world, turn, i)
        invariant turn.answers.AcceptsBeyond(|peers|) ==>
                    forall l :: 0 <= l < i ==> turn.events[l].fd != listener
      {
        stopped := DispatchEvent(turn, i, w);
        if stopped {
          return true, i;
        }
      }
      stopped, count := false, |turn.events|;
    }

    // The branches for one entry of the batch.
    method DispatchEvent(turn: EpollTurn, i: nat, ghost w: World) returns (stopped: bool)
      requires i < |turn.events| && Valid() && turn.listener == listener && BatchAt(w, world, turn, i)
      modifies this`readfdSet, this`writefdSet, this`fdsetMax, this`world, peers, set p | p in peers :: p.sendbuf
      ensures Valid()
      ensures stopped <==> turn.events[i].fd == listener && turn.answers.AcceptsBeyond(|peers|)
      ensures if stopped then world == old(world) else BatchAt(w, world, turn, i + 1)
    {
      var e, fd := turn.events[i], turn.events[i].fd;
      assert fd == listener ==> AcceptsUnused(w, Batch(turn, i), listener, turn.answers);
      hide Inv, Registered, Apply, BatchAt, Possible;
      stopped := false;
      if fd == listener {
        if turn.answers.accepted.None? {
          BatchSkip(w, world, turn, i);
        } else if turn.answers.AcceptsBeyond(|peers|) {
          stopped := true;
        } else {
          BatchAccept(w, world, turn, i);
          OnAccept(turn.answers.accepted.value.0, turn.answers.accepted.value.1);
        }
      } else if e.epollin {
        BatchRecv(w, world, turn, i);
        OnReadable(fd, turn.answers.recvs[fd]);
      } else if e.epollout {
        BatchSend(w, world, turn, i);
        OnWritable(fd, turn.answers.sends[fd]);
      } else {
        BatchSkip(w, world, turn, i);
      }
    }
  }

  lemma NoneBeyond(readable: set<nat>, writable: set<nat>, top: nat, fd: nat)
    requires forall x :: x in readable || x in writable ==> x <= top
    requires |Remaining(readable, fd)| + |Remaining(writable, fd)| > 0
    ensures fd <= top
  {
    var x :| x in Remaining(readable, fd) || x in Remaining(writable, fd);
  }

  lemma NoneAhead(readable: set<nat>, writable: set<nat>, top: nat, fd: nat)
    requires forall x :: x in readable || x in writable ==> x <= top
    requires fd > top || |Remaining(readable, fd)| + |Remaining(writable, fd)| == 0
    ensures forall x :: fd <= x ==> x !in readable && x !in writable
  {
    if fd <= top {
      assert Remaining(readable, fd) == {} && Remaining(writable, fd) == {};
      assert forall x :: fd <= x && x in readable ==> x in Remaining(readable, fd);
      assert forall x :: fd <= x && x in writable ==> x in Remaining(writable, fd);
    }
  }
}

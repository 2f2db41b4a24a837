// The threads of src/concurrency/MPMC.c as an interleaved step system: one mutex, one
// condition variable per side, one signal per operation. Any number of producers add
// `rounds` tasks each and any number of consumers take tasks for ever.
module Monitors {
  import opened Counting
  import opened Rings
  import opened Fifo
  import opened Options

  // The statement a thread is about to execute. Sleep is inside pthread_cond_wait with
  // the mutex released, Woken is inside it and about to take the mutex again.
  datatype ProducerPc = PLock | PTest | PSleep | PWoken | PAdd | PSignal | PUnlock | PDone
  datatype ConsumerPc = CLock | CTest | CSleep | CWoken | CPop | CSignal | CUnlock

  // `i` and `s` are the source's locals; `first` remembers the initial value of `s`.
  datatype Producer = Producer(pc: ProducerPc, i: nat, s: int, first: int)
  datatype Consumer = Consumer(pc: ConsumerPc)

  datatype Owner = Free | ByConsumer(i: nat) | ByProducer(j: nat)

  // `wild` is set by an access outside the task array, after which nothing is known.
  datatype State = State(
    mutex: Owner, ring: Ring, producers: seq<Producer>, consumers: seq<Consumer>,
    rounds: nat, log: seq<Event>, wild: bool)

  // `wake` is the thread that a pthread_cond_signal picks, if the step is one.
  datatype Action =
    | Produce(j: nat, wake: Option<nat>)
    | Consume(i: nat, wake: Option<nat>)
    | SpuriousProducer(j: nat)
    | SpuriousConsumer(i: nat)
  {
    predicate Spurious() { SpuriousProducer? || SpuriousConsumer? }
  }

  // `firsts` are the numbers the producers' rand() % 10 returned.
  function Start(firsts: seq<int>, consumers: nat, rounds: nat, size: nat, wraps: bool): State
    requires size >= 2
  {
    State(Free, EmptyRing(size, wraps),
          seq(|firsts|, j requires 0 <= j < |firsts| =>
            Producer(if rounds == 0 then PDone else PLock, 0, firsts[j], firsts[j])),
          seq(consumers, _ => Consumer(CLock)),
          rounds, [], false)
  }

  // A signal wakes one sleeper of the other side, any one, or nobody if there is none.
  predicate WakesConsumer(s: State, wake: Option<nat>) {
    match wake
    case None => forall i :: 0 <= i < |s.consumers| ==> !s.consumers[i].pc.CSleep?
    case Some(i) => i < |s.consumers| && s.consumers[i].pc.CSleep?
  }

  predicate WakesProducer(s: State, wake: Option<nat>) {
    match wake
    case None => forall j :: 0 <= j < |s.producers| ==> !s.producers[j].pc.PSleep?
    case Some(j) => j < |s.producers| && s.producers[j].pc.PSleep?
  }

  predicate Enabled(s: State, a: Action) {
    && !s.wild
    && match a
       case Produce(j, wake) =>
         j < |s.producers| &&
         (match s.producers[j].pc
          case PLock => s.mutex == Free
          case PWoken => s.mutex == Free
          case PSignal => WakesConsumer(s, wake)
          case PSleep => false
          case PDone => false
          case _ => true)
       case Consume(i, wake) =>
         i < |s.consumers| &&
         (match s.consumers[i].pc
          case CLock => s.mutex == Free
          case CWoken => s.mutex == Free
          case CSignal => WakesProducer(s, wake)
          case CSleep => false
          case _ => true)
       case SpuriousProducer(j) => j < |s.producers| && s.producers[j].pc.PSleep?
       case SpuriousConsumer(i) => i < |s.consumers| && s.consumers[i].pc.CSleep?
  }

  function Do(s: State, a: Action): State
    requires Enabled(s, a) && |s.ring.slots| > 0
  {
    match a
    case Produce(j, wake) => DoProducer(s, j, wake)
    case Consume(i, wake) => DoConsumer(s, i, wake)
    case SpuriousProducer(j) => s.(producers := s.producers[j := s.producers[j].(pc := PWoken)])
    case SpuriousConsumer(i) => s.(consumers := s.consumers[i := Consumer(CWoken)])
  }

  function DoProducer(s: State, j: nat, wake: Option<nat>): State
    requires Enabled(s, Produce(j, wake)) && |s.ring.slots| > 0
  {
    var p := s.producers[j];
    match p.pc
    case PLock => s.(mutex := ByProducer(j), producers := s.producers[j := p.(pc := PTest)])
    case PWoken => s.(mutex := ByProducer(j), producers := s.producers[j := p.(pc := PTest)])
    case PTest =>
      if s.ring.IsFull()
      then s.(mutex := Free, producers := s.producers[j := p.(pc := PSleep)])
      else s.(producers := s.producers[j := p.(pc := PAdd)])
    case PAdd =>
      (match s.ring.Add(p.s)
       case Stored(ring) =>
         s.(ring := ring, log := s.log + [Put(j, p.s)], producers := s.producers[j := p.(pc := PSignal)])
       case Refused => s.(producers := s.producers[j := p.(pc := PUnlock)])
       case WriteOutOfBounds => s.(wild := true))
    case PSignal =>
      s.(producers := s.producers[j := p.(pc := PUnlock)],
         consumers := if wake.Some? then s.consumers[wake.value := Consumer(CWoken)] else s.consumers)
    case PUnlock =>
      var next := Producer(if p.i + 1 < s.rounds then PLock else PDone, p.i + 1, p.s + 1, p.first);
      s.(mutex := Free, producers := s.producers[j := next])
  }

  function DoConsumer(s: State, i: nat, wake: Option<nat>): State
    requires Enabled(s, Consume(i, wake)) && |s.ring.slots| > 0
  {
    match s.consumers[i].pc
    case CLock => s.(mutex := ByConsumer(i), consumers := s.consumers[i := Consumer(CTest)])
    case CWoken => s.(mutex := ByConsumer(i), consumers := s.consumers[i := Consumer(CTest)])
    case CTest =>
      if s.ring.IsEmpty()
      then s.(mutex := Free, consumers := s.consumers[i := Consumer(CSleep)])
      else s.(consumers := s.consumers[i := Consumer(CPop)])
    case CPop =>
      (match s.ring.Pop()
       case Taken(ring, item) =>
         s.(ring := ring, log := s.log + [Get(i, item)], consumers := s.consumers[i := Consumer(CSignal)])
       case Nothing => s.(consumers := s.consumers[i := Consumer(CUnlock)])
       case ReadOutOfBounds => s.(wild := true))
    case CSignal =>
      s.(consumers := s.consumers[i := Consumer(CUnlock)],
         producers := if wake.Some? then s.producers[wake.value := s.producers[wake.value].(pc := PWoken)]
                      else s.producers)
    case CUnlock => s.(mutex := Free, consumers := s.consumers[i := Consumer(CLock)])
  }

  ghost predicate Reaches(s: State, acts: seq<Action>, t: State)
    decreases |acts|
  {
    if acts == [] then s == t
    else Enabled(s, acts[0]) && |s.ring.slots| > 0 && Reaches(Do(s, acts[0]), acts[1..], t)
  }

  // No thread has a next step, unless the system wakes one for no reason.
  ghost predicate Stuck(s: State) {
    forall a: Action :: Enabled(s, a) ==> a.Spurious()
  }

  // ---- What every reachable state keeps ----

  function Asleep(c: Consumer): nat { if c.pc.CSleep? then 1 else 0 }
  function AboutToPop(c: Consumer): nat { if c.pc.CWoken? || c.pc.CTest? || c.pc.CPop? then 1 else 0 }
  function OwesProducerSignal(c: Consumer): nat { if c.pc.CSignal? then 1 else 0 }

  function AsleepP(p: Producer): nat { if p.pc.PSleep? then 1 else 0 }
  function AboutToAdd(p: Producer): nat { if p.pc.PWoken? || p.pc.PTest? || p.pc.PAdd? then 1 else 0 }
  function OwesConsumerSignal(p: Producer): nat { if p.pc.PSignal? then 1 else 0 }
  function Added(p: Producer): nat { p.i + if p.pc.PSignal? || p.pc.PUnlock? then 1 else 0 }

  // While a consumer sleeps, every queued item has a consumer on its way to it or a
  // signal still owed; while a producer sleeps, every free slot has a producer likewise.
  ghost predicate NoLostWakeup(s: State)
    requires s.ring.Valid()
  {
    && (SumBy(s.consumers, Asleep) > 0 ==>
          |s.ring.Contents()| <= SumBy(s.consumers, AboutToPop) + SumBy(s.producers, OwesConsumerSignal))
    && (SumBy(s.producers, AsleepP) > 0 ==>
          s.ring.Capacity() - |s.ring.Contents()|
          <= SumBy(s.producers, AboutToAdd) + SumBy(s.consumers, OwesProducerSignal))
  }

  predicate HoldsP(pc: ProducerPc) { pc.PTest? || pc.PAdd? || pc.PSignal? || pc.PUnlock? }
  predicate HoldsC(pc: ConsumerPc) { pc.CTest? || pc.CPop? || pc.CSignal? || pc.CUnlock? }

  // Exactly the owner of the mutex is between lock and unlock, and what it tested holds.
  ghost predicate MutexHeld(s: State)
    requires s.ring.Valid()
  {
    && (forall i :: 0 <= i < |s.consumers| ==> (HoldsC(s.consumers[i].pc) <==> s.mutex == ByConsumer(i)))
    && (forall j :: 0 <= j < |s.producers| ==> (HoldsP(s.producers[j].pc) <==> s.mutex == ByProducer(j)))
    && (s.mutex.ByConsumer? ==>
          s.mutex.i < |s.consumers| && (s.consumers[s.mutex.i].pc.CPop? ==> !s.ring.IsEmpty()))
    && (s.mutex.ByProducer? ==>
          s.mutex.j < |s.producers| && (s.producers[s.mutex.j].pc.PAdd? ==> !s.ring.IsFull()))
  }

  function Consecutive(first: int, n: nat): seq<int> {
    seq(n, k => first + k)
  }

  ghost predicate ProducerInOrder(s: State, j: nat)
    requires j < |s.producers|
  {
    var p := s.producers[j];
    && p.i <= s.rounds && (p.pc.PDone? <==> p.i == s.rounds)
    && p.s == p.first + p.i
    && ItemsBy(Puts(s.log), j) == Consecutive(p.first, Added(p))
  }

  ghost predicate InOrder(s: State) {
    && (forall j :: 0 <= j < |s.producers| ==> ProducerInOrder(s, j))
    && |Puts(s.log)| == SumBy(s.producers, Added)
  }

  ghost predicate Queued(s: State)
    requires s.ring.Valid()
  {
    Replay(s.ring.Capacity(), s.log) == Some(s.ring.Contents())
  }

  ghost predicate Inv(s: State) {
    && s.ring.Valid() && s.ring.wraps && !s.wild
    && MutexHeld(s)
    && NoLostWakeup(s)
    && InOrder(s)
    && Queued(s)
  }

  lemma ProducerSums(ps: seq<Producer>, j: nat, p: Producer)
    requires j < |ps|
    ensures SumBy(ps[j := p], AsleepP) + AsleepP(ps[j]) == SumBy(ps, AsleepP) + AsleepP(p)
    ensures SumBy(ps[j := p], AboutToAdd) + AboutToAdd(ps[j]) == SumBy(ps, AboutToAdd) + AboutToAdd(p)
    ensures SumBy(ps[j := p], OwesConsumerSignal) + OwesConsumerSignal(ps[j])
            == SumBy(ps, OwesConsumerSignal) + OwesConsumerSignal(p)
    ensures SumBy(ps[j := p], Added) + Added(ps[j]) == SumBy(ps, Added) + Added(p)
  {
    SumUpdate(ps, j, p, AsleepP);
    SumUpdate(ps, j, p, AboutToAdd);
    SumUpdate(ps, j, p, OwesConsumerSignal);
    SumUpdate(ps, j, p, Added);
  }

  lemma ConsumerSums(cs: seq<Consumer>, i: nat, c: Consumer)
    requires i < |cs|
    ensures SumBy(cs[i := c], Asleep) + Asleep(cs[i]) == SumBy(cs, Asleep) + Asleep(c)
    ensures SumBy(cs[i := c], AboutToPop) + AboutToPop(cs[i]) == SumBy(cs, AboutToPop) + AboutToPop(c)
    ensures SumBy(cs[i := c], OwesProducerSignal) + OwesProducerSignal(cs[i])
            == SumBy(cs, OwesProducerSignal) + OwesProducerSignal(c)
  {
    SumUpdate(cs, i, c, Asleep);
    SumUpdate(cs, i, c, AboutToPop);
    SumUpdate(cs, i, c, OwesProducerSignal);
  }

  lemma StartInv(firsts: seq<int>, consumers: nat, rounds: nat, size: nat)
    requires size >= 2
    ensures Inv(Start(firsts, consumers, rounds, size, true))
  {
    hide SumBy;
    var s := Start(firsts, consumers, rounds, size, true);
    SumConstant(s.consumers, Asleep, 0);
    SumConstant(s.producers, AsleepP, 0);
    SumConstant(s.producers, Added, 0);
    forall j | 0 <= j < |s.producers| ensures ProducerInOrder(s, j) {
    }
  }

  // The same thread positions, queue and log, up to producer j's own move.
  lemma OrderKept(s: State, t: State, j: nat)
    requires InOrder(s) && j < |s.producers| && t.rounds == s.rounds && t.log == s.log
    requires |t.producers| == |s.producers| && t.producers == s.producers[j := t.producers[j]]
    requires Added(t.producers[j]) == Added(s.producers[j]) && t.producers[j].first == s.producers[j].first
    requires t.producers[j].i <= s.rounds && t.producers[j].s == t.producers[j].first + t.producers[j].i
    requires t.producers[j].pc.PDone? <==> t.producers[j].i == s.rounds
    ensures InOrder(t)
  {
    ProducerSums(s.producers, j, t.producers[j]);
    forall k | 0 <= k < |t.producers|
      ensures ProducerInOrder(t, k)
    {
      assert ProducerInOrder(s, k);
    }
  }

  lemma ProducerAdds(s: State, j: nat, wake: Option<nat>)
    requires Inv(s) && Enabled(s, Produce(j, wake)) && s.producers[j].pc.PAdd?
    ensures s.ring.Add(s.producers[j].s).Stored?
    ensures Inv(DoProducer(s, j, wake)) && |DoProducer(s, j, wake).ring.slots| == |s.ring.slots|
  {
    hide Ring.Add, Ring.Pop, Ring.Contents, Ring.Valid, Ring.IsFull, Ring.IsEmpty, Replay, Puts, Gets;
    var t, p := DoProducer(s, j, wake), s.producers[j];
    TestsAreExact(s.ring);
    AddAppends(s.ring, p.s);
    ProducerSums(s.producers, j, t.producers[j]);
    var e := Put(j, p.s);
    LogAppend(s.ring.Capacity(), s.log, e);
    assert ProducerInOrder(s, j);
    assert Puts(t.log)[..|Puts(s.log)|] == Puts(s.log);
    assert Consecutive(p.first, Added(p) + 1) == Consecutive(p.first, Added(p)) + [p.s];
    forall k | 0 <= k < |t.producers|
      ensures ProducerInOrder(t, k)
    {
      assert ProducerInOrder(s, k);
    }
    assert MutexHeld(t);
  }

  lemma ProducerMoves(s: State, j: nat, wake: Option<nat>)
    requires Inv(s) && Enabled(s, Produce(j, wake))
    requires !s.producers[j].pc.PAdd? && !s.producers[j].pc.PSignal?
    ensures Inv(DoProducer(s, j, wake))
  {
    var t := DoProducer(s, j, wake);
    TestsAreExact(s.ring);
    assert ProducerInOrder(s, j);
    ProducerSums(s.producers, j, t.producers[j]);
    OrderKept(s, t, j);
    assert MutexHeld(t);
  }

  lemma ProducerSignals(s: State, j: nat, wake: Option<nat>)
    requires Inv(s) && Enabled(s, Produce(j, wake)) && s.producers[j].pc.PSignal?
    ensures Inv(DoProducer(s, j, wake))
  {
    var t := DoProducer(s, j, wake);
    assert ProducerInOrder(s, j);
    ProducerSums(s.producers, j, t.producers[j]);
    OrderKept(s, t, j);
    if wake.Some? {
      ConsumerSums(s.consumers, wake.value, Consumer(CWoken));
    } else {
      SumConstant(s.consumers, Asleep, 0);
    }
    assert MutexHeld(t);
  }

  lemma ConsumerPops(s: State, i: nat, wake: Option<nat>)
    requires Inv(s) && Enabled(s, Consume(i, wake)) && s.consumers[i].pc.CPop?
    ensures s.ring.Pop().Taken?
    ensures Inv(DoConsumer(s, i, wake)) && |DoConsumer(s, i, wake).ring.slots| == |s.ring.slots|
  {
    hide Ring.Add, Ring.Pop, Ring.Contents, Ring.Valid, Ring.IsFull, Ring.IsEmpty, Replay, Puts, Gets;
    var t := DoConsumer(s, i, wake);
    TestsAreExact(s.ring);
    PopTakesOldest(s.ring);
    ConsumerSums(s.consumers, i, t.consumers[i]);
    var item := s.ring.Pop().item;
    assert s.ring.Contents()[0] == item && s.ring.Contents()[1..] == t.ring.Contents();
    LogAppend(s.ring.Capacity(), s.log, Get(i, item));
    forall k | 0 <= k < |t.producers|
      ensures ProducerInOrder(t, k)
    {
      assert ProducerInOrder(s, k);
    }
    assert MutexHeld(t);
  }

  lemma ConsumerMoves(s: State, i: nat, wake: Option<nat>)
    requires Inv(s) && Enabled(s, Consume(i, wake))
    requires !s.consumers[i].pc.CPop? && !s.consumers[i].pc.CSignal?
    ensures Inv(DoConsumer(s, i, wake))
  {
    var t := DoConsumer(s, i, wake);
    TestsAreExact(s.ring);
    ConsumerSums(s.consumers, i, t.consumers[i]);
    forall k | 0 <= k < |t.producers|
      ensures ProducerInOrder(t, k)
    {
      assert ProducerInOrder(s, k);
    }
    assert MutexHeld(t);
  }

  lemma ConsumerSignals(s: State, i: nat, wake: Option<nat>)
    requires Inv(s) && Enabled(s, Consume(i, wake)) && s.consumers[i].pc.CSignal?
    ensures Inv(DoConsumer(s, i, wake))
  {
    var t := DoConsumer(s, i, wake);
    ConsumerSums(s.consumers, i, t.consumers[i]);
    if wake.Some? {
      assert ProducerInOrder(s, wake.value);
      ProducerSums(s.producers, wake.value, t.producers[wake.value]);
      OrderKept(s, t, wake.value);
    } else {
      SumConstant(s.producers, AsleepP, 0);
      forall k | 0 <= k < |t.producers|
        ensures ProducerInOrder(t, k)
      {
        assert ProducerInOrder(s, k);
      }
    }
    assert MutexHeld(t);
  }

  lemma SpuriousWakeupKeepsInv(s: State, a: Action)
    requires Inv(s) && Enabled(s, a) && a.Spurious()
    ensures Inv(Do(s, a))
  {
    var t := Do(s, a);
    match a
    case SpuriousProducer(j) =>
      assert ProducerInOrder(s, j);
      ProducerSums(s.producers, j, t.producers[j]);
      OrderKept(s, t, j);
    case SpuriousConsumer(i) =>
      ConsumerSums(s.consumers, i, t.consumers[i]);
      forall k | 0 <= k < |t.producers|
        ensures ProducerInOrder(t, k)
      {
        assert ProducerInOrder(s, k);
      }
  }

  ghost predicate SameShape(s: State, t: State) {
    && |t.consumers| == |s.consumers| && |t.producers| == |s.producers|
    && t.rounds == s.rounds && |t.ring.slots| == |s.ring.slots|
    && forall j :: 0 <= j < |s.producers| ==> t.producers[j].first == s.producers[j].first
  }

  lemma StepKeepsInv(s: State, a: Action)
    requires Inv(s) && Enabled(s, a)
    ensures Inv(Do(s, a)) && SameShape(s, Do(s, a))
  {
    hide Inv, Ring.Contents;
    match a
    case Produce(j, wake) =>
      if s.producers[j].pc.PAdd? {
        ProducerAdds(s, j, wake);
      } else if s.producers[j].pc.PSignal? {
        ProducerSignals(s, j, wake);
      } else {
        ProducerMoves(s, j, wake);
      }
    case Consume(i, wake) =>
      if s.consumers[i].pc.CPop? {
        ConsumerPops(s, i, wake);
      } else if s.consumers[i].pc.CSignal? {
        ConsumerSignals(s, i, wake);
      } else {
        ConsumerMoves(s, i, wake);
      }
    case _ => SpuriousWakeupKeepsInv(s, a);
  }

  // ---- Termination ----

  function ProducerWork(p: Producer): nat {
    match p.pc
    case PLock => 2 case PTest => 1 case PSleep => 0 case PWoken => 2
    case PAdd => 0 case PSignal => 6 case PUnlock => 3 case PDone => 0
  }

  function ConsumerWork(c: Consumer): nat {
    match c.pc
    case CLock => 2 case CTest => 1 case CSleep => 0 case CWoken => 2
    case CPop => 0 case CSignal => 6 case CUnlock => 3
  }

  // An item still to be added stands for 14 steps, a queued one for 7.
  function StepsLeft(s: State): int
    requires s.ring.Valid()
  {
    14 * (s.rounds * |s.producers| - SumBy(s.producers, Added)) + 7 * |s.ring.Contents()|
    + SumBy(s.producers, ProducerWork) + SumBy(s.consumers, ConsumerWork)
  }

  lemma ProducerProgress(s: State, j: nat, wake: Option<nat>)
    requires Inv(s) && Enabled(s, Produce(j, wake))
    requires DoProducer(s, j, wake).ring.Valid()
    ensures StepsLeft(DoProducer(s, j, wake)) < StepsLeft(s)
  {
    hide Ring.Add, Ring.Contents, Ring.IsFull, NoLostWakeup, InOrder, Queued;
    var t := DoProducer(s, j, wake);
    SumUpdate(s.producers, j, t.producers[j], Added);
    SumUpdate(s.producers, j, t.producers[j], ProducerWork);
    if s.producers[j].pc.PAdd? {
      TestsAreExact(s.ring);
      AddAppends(s.ring, s.producers[j].s);
    } else if s.producers[j].pc.PSignal? && wake.Some? {
      SumUpdate(s.consumers, wake.value, Consumer(CWoken), ConsumerWork);
    }
  }

  lemma ConsumerProgress(s: State, i: nat, wake: Option<nat>)
    requires Inv(s) && Enabled(s, Consume(i, wake))
    requires DoConsumer(s, i, wake).ring.Valid()
    ensures StepsLeft(DoConsumer(s, i, wake)) < StepsLeft(s)
  {
    hide Ring.Pop, Ring.Contents, Ring.IsEmpty, NoLostWakeup, InOrder, Queued;
    var t := DoConsumer(s, i, wake);
    SumUpdate(s.consumers, i, t.consumers[i], ConsumerWork);
    if s.consumers[i].pc.CPop? {
      TestsAreExact(s.ring);
      PopTakesOldest(s.ring);
    } else if s.consumers[i].pc.CSignal? && wake.Some? {
      SumUpdate(s.producers, wake.value, t.producers[wake.value], Added);
      SumUpdate(s.producers, wake.value, t.producers[wake.value], ProducerWork);
    }
  }

  lemma SpuriousCosts(s: State, a: Action)
    requires Inv(s) && Enabled(s, a) && a.Spurious()
    ensures StepsLeft(Do(s, a)) == StepsLeft(s) + 2
  {
    var t := Do(s, a);
    match a
    case SpuriousProducer(j) =>
      SumUpdate(s.producers, j, t.producers[j], Added);
      SumUpdate(s.producers, j, t.producers[j], ProducerWork);
    case SpuriousConsumer(i) =>
      SumUpdate(s.consumers, i, t.consumers[i], ConsumerWork);
  }

  function SpuriousCount(acts: seq<Action>): (n: nat)
    ensures n <= |acts|
    ensures (forall k :: 0 <= k < |acts| ==> !acts[k].Spurious()) ==> n == 0
  {
    if acts == [] then 0 else (if acts[0].Spurious() then 1 else 0) + SpuriousCount(acts[1..])
  }

  lemma {:induction false} RunTakesItsLength(s: State, acts: seq<Action>, t: State)
    requires Inv(s) && Reaches(s, acts, t)
    ensures Inv(t) && SameShape(s, t)
    ensures StepsLeft(t) <= StepsLeft(s) - |acts| + 3 * SpuriousCount(acts)
    decreases |acts|
  {
    if acts != [] {
      StepKeepsInv(s, acts[0]);
      match acts[0] {
        case Produce(j, wake) => ProducerProgress(s, j, wake);
        case Consume(i, wake) => ConsumerProgress(s, i, wake);
        case _ => SpuriousCosts(s, acts[0]);
      }
      RunTakesItsLength(Do(s, acts[0]), acts[1..], t);
    }
  }

  lemma StartStepsLeft(firsts: seq<int>, consumers: nat, rounds: nat, size: nat)
    requires size >= 2
    ensures StepsLeft(Start(firsts, consumers, rounds, size, true))
            <= 14 * (rounds * |firsts|) + 2 * (|firsts| + consumers)
  {
    var s := Start(firsts, consumers, rounds, size, true);
    SumConstant(s.producers, Added, 0);
    SumAtMost(s.producers, ProducerWork, 2);
    SumConstant(s.consumers, ConsumerWork, 2);
  }

  lemma StepsLeftNonNegative(s: State)
    requires Inv(s)
    ensures StepsLeft(s) >= 0
  {
    forall j | 0 <= j < |s.producers|
      ensures Added(s.producers[j]) <= s.rounds
    {
      assert ProducerInOrder(s, j);
    }
    SumAtMost(s.producers, Added, s.rounds);
  }

  lemma RunFromStart(firsts: seq<int>, consumers: nat, rounds: nat, size: nat, acts: seq<Action>, t: State)
    requires size >= 2 && Reaches(Start(firsts, consumers, rounds, size, true), acts, t)
    ensures Inv(t) && SameShape(Start(firsts, consumers, rounds, size, true), t)
    ensures StepsLeft(t) <= 14 * (rounds * |firsts|) + 2 * (|firsts| + consumers) - |acts| + 3 * SpuriousCount(acts)
  {
    StartInv(firsts, consumers, rounds, size);
    StartStepsLeft(firsts, consumers, rounds, size);
    RunTakesItsLength(Start(firsts, consumers, rounds, size, true), acts, t);
  }

  // What consumer i takes: the oldest task, at every step it takes at CPop.
  function TakenAlong(s: State, acts: seq<Action>, i: nat): seq<int>
    decreases |acts|
  {
    if acts == [] || !Enabled(s, acts[0]) || |s.ring.slots| == 0 then []
    else TakenAt(s, acts[0], i) + TakenAlong(Do(s, acts[0]), acts[1..], i)
  }

  function TakenAt(s: State, a: Action, i: nat): seq<int>
    requires Enabled(s, a)
  {
    if a.Consume? && a.i == i && s.consumers[i].pc.CPop? && s.ring.Valid() && s.ring.Contents() != []
    then [s.ring.Contents()[0]] else []
  }

  lemma StepTakesOldest(s: State, a: Action, i: nat)
    requires Inv(s) && Enabled(s, a)
    ensures ItemsBy(Gets(Do(s, a).log), i) == ItemsBy(Gets(s.log), i) + TakenAt(s, a, i)
  {
    hide Ring.Add, Ring.Pop, Ring.Contents, Replay, Puts, Gets, ItemsBy, SumBy;
    match a
    case Consume(k, wake) =>
      if s.consumers[k].pc.CPop? {
        PopTakesOldest(s.ring);
        ConsumerPops(s, k, wake);
        var e := Get(k, s.ring.Pop().item);
        LogAppend(0, s.log, e);
        ItemsByAppend(Gets(s.log), e, i);
      }
    case Produce(j, wake) =>
      if s.producers[j].pc.PAdd? {
        ProducerAdds(s, j, wake);
        LogAppend(0, s.log, Put(j, s.producers[j].s));
      }
    case _ =>
  }

  lemma {:induction false} RunTakesOldest(s: State, acts: seq<Action>, t: State, i: nat)
    requires Inv(s) && Reaches(s, acts, t)
    ensures ItemsBy(Gets(t.log), i) == ItemsBy(Gets(s.log), i) + TakenAlong(s, acts, i)
    decreases |acts|
  {
    hide Inv, Do, TakenAt, ItemsBy, Gets;
    if acts != [] {
      StepKeepsInv(s, acts[0]);
      StepTakesOldest(s, acts[0], i);
      RunTakesOldest(Do(s, acts[0]), acts[1..], t, i);
    }
  }

  // ---- Main results for the ring with wrapped indices ----

  // Every run is an atomic bounded queue without lost wakeups, even with spurious ones.
  lemma EveryRunIsSafe(firsts: seq<int>, consumers: nat, rounds: nat, size: nat, acts: seq<Action>, t: State)
    requires size >= 2 && Reaches(Start(firsts, consumers, rounds, size, true), acts, t)
    ensures !t.wild && t.ring.Valid() && MutexHeld(t) && NoLostWakeup(t)
    ensures Replay(size - 1, t.log) == Some(t.ring.Contents())
    ensures Items(Gets(t.log)) + t.ring.Contents() == Items(Puts(t.log))
  {
    RunFromStart(firsts, consumers, rounds, size, acts, t);
    Conservation(t.ring.Capacity(), t.log);
  }

  // Every run is finite: only spurious wakeups can make it longer, by at most three steps
  // each.
  lemma EveryRunIsBounded(firsts: seq<int>, consumers: nat, rounds: nat, size: nat, acts: seq<Action>, t: State)
    requires size >= 2 && Reaches(Start(firsts, consumers, rounds, size, true), acts, t)
    ensures |acts| <= 14 * (rounds * |firsts|) + 2 * (|firsts| + consumers) + 3 * SpuriousCount(acts)
  {
    RunFromStart(firsts, consumers, rounds, size, acts, t);
    StepsLeftNonNegative(t);
  }

  // Popped tasks in pop order, each with the producer that added it.
  function PoppedBy(s: State, j: nat): seq<int>
    requires |Gets(s.log)| <= |Puts(s.log)|
  {
    ItemsBy(Puts(s.log)[..|Gets(s.log)|], j)
  }

  // What consumers got from one producer is the start of s, s+1, s+2, ... without gap,
  // duplicate or change of order.
  lemma PerProducerOrder(firsts: seq<int>, consumers: nat, rounds: nat, size: nat, acts: seq<Action>, t: State, j: nat)
    requires size >= 2 && Reaches(Start(firsts, consumers, rounds, size, true), acts, t) && j < |firsts|
    ensures |Gets(t.log)| <= |Puts(t.log)|
    ensures Items(Gets(t.log)) == Items(Puts(t.log)[..|Gets(t.log)|])
    ensures PoppedBy(t, j) <= Consecutive(firsts[j], rounds)
  {
    RunFromStart(firsts, consumers, rounds, size, acts, t);
    Conservation(t.ring.Capacity(), t.log);
    var n := |Gets(t.log)|;
    assert |Items(Gets(t.log)) + t.ring.Contents()| == n + |t.ring.Contents()|;
    assert Items(Gets(t.log)) == Items(Puts(t.log))[..n];
    ItemsByPrefix(Puts(t.log), n, j);
    assert ProducerInOrder(t, j);
  }

  // What consumer i got are the tasks that were the oldest when it popped.
  lemma EveryPopTakesTheOldest(
      firsts: seq<int>, consumers: nat, rounds: nat, size: nat, acts: seq<Action>, t: State, i: nat)
    requires size >= 2 && Reaches(Start(firsts, consumers, rounds, size, true), acts, t)
    ensures ItemsBy(Gets(t.log), i) == TakenAlong(Start(firsts, consumers, rounds, size, true), acts, i)
  {
    var s := Start(firsts, consumers, rounds, size, true);
    StartInv(firsts, consumers, rounds, size);
    RunTakesOldest(s, acts, t, i);
    assert [] + TakenAlong(s, acts, i) == TakenAlong(s, acts, i);
  }

  lemma SomeSleeper(s: State) returns (consumer: Option<nat>, producer: Option<nat>)
    ensures WakesConsumer(s, consumer) && WakesProducer(s, producer)
  {
    consumer, producer := None, None;
    if i: nat :| i < |s.consumers| && s.consumers[i].pc.CSleep? {
      consumer := Some(i);
    }
    if j: nat :| j < |s.producers| && s.producers[j].pc.PSleep? {
      producer := Some(j);
    }
  }

  lemma HolderCanStep(s: State)
    requires s.ring.Valid() && MutexHeld(s) && s.mutex != Free && !s.wild
    ensures !Stuck(s)
  {
    var consumer, producer := SomeSleeper(s);
    var holder := if s.mutex.ByConsumer? then Consume(s.mutex.i, producer) else Produce(s.mutex.j, consumer);
    assert Enabled(s, holder) && !holder.Spurious();
  }

  lemma StuckMeansAsleep(s: State)
    requires s.ring.Valid() && MutexHeld(s) && Stuck(s) && !s.wild
    ensures forall i :: 0 <= i < |s.consumers| ==> s.consumers[i].pc.CSleep?
    ensures forall j :: 0 <= j < |s.producers| ==> s.producers[j].pc.PSleep? || s.producers[j].pc.PDone?
  {
    if s.mutex != Free {
      HolderCanStep(s);
    }
    forall i | 0 <= i < |s.consumers|
      ensures s.consumers[i].pc.CSleep?
    {
      assert !Enabled(s, Consume(i, None)) by { assert !Consume(i, None).Spurious(); }
    }
    forall j | 0 <= j < |s.producers|
      ensures s.producers[j].pc.PSleep? || s.producers[j].pc.PDone?
    {
      assert !Enabled(s, Produce(j, None)) by { assert !Produce(j, None).Spurious(); }
    }
  }

  // No deadlock while work remains: a state without a next step has every producer done,
  // every item taken and every consumer asleep on the empty queue.
  lemma StuckMeansFinished(s: State)
    requires Inv(s) && Stuck(s) && s.consumers != []
    ensures forall j :: 0 <= j < |s.producers| ==> s.producers[j].pc.PDone?
    ensures forall i :: 0 <= i < |s.consumers| ==> s.consumers[i].pc.CSleep?
    ensures s.ring.Contents() == []
    ensures |Gets(s.log)| == |Puts(s.log)| == s.rounds * |s.producers|
  {
    StuckMeansAsleep(s);
    SumConstant(s.consumers, Asleep, 1);
    SumConstant(s.consumers, AboutToPop, 0);
    SumConstant(s.consumers, OwesProducerSignal, 0);
    SumConstant(s.producers, OwesConsumerSignal, 0);
    SumConstant(s.producers, AboutToAdd, 0);
    assert |s.ring.Contents()| == 0;
    forall j | 0 <= j < |s.producers|
      ensures s.producers[j].pc.PDone? && Added(s.producers[j]) == s.rounds
    {
      SumAtLeast(s.producers, j, AsleepP);
      assert ProducerInOrder(s, j);
    }
    SumConstant(s.producers, Added, s.rounds);
    Conservation(s.ring.Capacity(), s.log);
    assert |Items(Gets(s.log)) + s.ring.Contents()| == |Gets(s.log)|;
  }

  // Exact end state of every run that cannot go on: all added tasks were consumed, and
  // those of producer j came out as s, s+1, ..., s+rounds-1.
  lemma EveryMaximalRun(firsts: seq<int>, consumers: nat, rounds: nat, size: nat, acts: seq<Action>, t: State)
    requires size >= 2 && consumers >= 1 && Reaches(Start(firsts, consumers, rounds, size, true), acts, t)
    requires Stuck(t)
    ensures forall j :: 0 <= j < |t.producers| ==> t.producers[j].pc.PDone?
    ensures forall i :: 0 <= i < |t.consumers| ==> t.consumers[i].pc.CSleep?
    ensures |Gets(t.log)| == |Puts(t.log)| == rounds * |firsts|
    ensures forall j :: 0 <= j < |firsts| ==> PoppedBy(t, j) == Consecutive(firsts[j], rounds)
  {
    RunFromStart(firsts, consumers, rounds, size, acts, t);
    StuckMeansFinished(t);
    assert Puts(t.log)[..|Puts(t.log)|] == Puts(t.log);
    forall j | 0 <= j < |firsts|
      ensures PoppedBy(t, j) == Consecutive(firsts[j], rounds)
    {
      assert ProducerInOrder(t, j);
    }
  }

  // ---- The indices as src/concurrency/MPMC.c writes them ----

  function WithWrappedIndices(s: State): State
    requires |s.ring.slots| > 0
  {
    s.(ring := s.ring.Wrapped())
  }

  // `tail` counts every add since the start.
  ghost predicate Growing(s: State) {
    && s.ring.Valid() && !s.ring.wraps && !s.wild
    && s.ring.tail == |Puts(s.log)|
  }

  ghost predicate OverrunsNext(s: State, a: Action)
    requires Enabled(s, a) && |s.ring.slots| > 0
  {
    a.Produce? && s.producers[a.j].pc.PAdd? && s.ring.tail == |s.ring.slots| && !s.ring.IsFull()
  }

  // t is what the step makes of s: past the end of the array, or the wrapped program's
  // state t2 with its indices unwrapped.
  ghost predicate Matches(s: State, overruns: bool, t: State, t2: State)
    requires |s.ring.slots| > 0
  {
    && (t.wild <==> overruns)
    && (!t.wild ==> Growing(t) && |t.ring.slots| == |s.ring.slots| && WithWrappedIndices(t) == t2)
  }

  lemma ProducerMatchesWrapped(s: State, j: nat, wake: Option<nat>)
    requires Growing(s) && Enabled(s, Produce(j, wake))
    ensures Enabled(WithWrappedIndices(s), Produce(j, wake))
    ensures Matches(s, OverrunsNext(s, Produce(j, wake)), DoProducer(s, j, wake),
                    DoProducer(WithWrappedIndices(s), j, wake))
  {
    hide Ring.Contents, Ring.Add, Ring.IsFull, Replay, Puts, Gets;
    GrowingMatchesWrapped(s.ring);
    GrowingAdd(s.ring, s.producers[j].s);
    LogAppend(0, s.log, Put(j, s.producers[j].s));
  }

  lemma ConsumerMatchesWrapped(s: State, i: nat, wake: Option<nat>)
    requires Growing(s) && Enabled(s, Consume(i, wake))
    ensures Enabled(WithWrappedIndices(s), Consume(i, wake))
    ensures Matches(s, false, DoConsumer(s, i, wake), DoConsumer(WithWrappedIndices(s), i, wake))
  {
    GrowingMatchesWrapped(s.ring);
    GrowingPop(s.ring);
    if s.ring.Pop().Taken? {
      LogAppend(0, s.log, Get(i, s.ring.Pop().item));
    }
  }

  // A step either matches the same step of the wrapped program or is the one that writes
  // past the end of the array.
  lemma StepMatchesWrapped(s: State, a: Action)
    requires Growing(s) && Enabled(s, a)
    ensures Enabled(WithWrappedIndices(s), a)
    ensures Matches(s, OverrunsNext(s, a), Do(s, a), Do(WithWrappedIndices(s), a))
  {
    match a
    case Produce(j, wake) => ProducerMatchesWrapped(s, j, wake);
    case Consume(i, wake) => ConsumerMatchesWrapped(s, i, wake);
    case _ =>
  }

  // The state just before a run's overrun: nothing has gone wrong yet, and the next add
  // finds `tail` at the end of the array.
  ghost predicate OverrunFrom(s: State, before: seq<Action>, u: State) {
    && Reaches(s, before, u) && Growing(u) && |u.ring.slots| == |s.ring.slots|
    && u.ring.tail == |u.ring.slots|
    && exists j :: 0 <= j < |u.producers| && u.producers[j].pc.PAdd?
  }

  lemma {:induction false} RunMatchesWrapped(s: State, acts: seq<Action>, t: State) returns (u: State)
    requires Growing(s) && Reaches(s, acts, t)
    ensures !t.wild ==> Growing(t) && |t.ring.slots| == |s.ring.slots|
                        && Reaches(WithWrappedIndices(s), acts, WithWrappedIndices(t))
    ensures t.wild ==> acts != [] && OverrunFrom(s, acts[..|acts| - 1], u)
    decreases |acts|
  {
    u := s;
    if acts != [] {
      var a, next := acts[0], Do(s, acts[0]);
      StepMatchesWrapped(s, a);
      if next.wild {
        assert acts[1..] == [];
        assert acts[..|acts| - 1] == [];
        assert s.producers[a.j].pc.PAdd?;
      } else {
        u := RunMatchesWrapped(next, acts[1..], t);
        if t.wild {
          var before := acts[..|acts| - 1];
          assert before[0] == a && before[1..] == acts[1..][..|acts[1..]| - 1];
          assert Reaches(s, before, u);
        }
      }
    }
  }

  lemma RunFromStartAsWritten(firsts: seq<int>, consumers: nat, rounds: nat, size: nat, acts: seq<Action>, t: State)
    requires size >= 2 && Reaches(Start(firsts, consumers, rounds, size, false), acts, t) && !t.wild
    ensures Growing(t) && |t.ring.slots| == size && Inv(WithWrappedIndices(t))
    ensures Reaches(Start(firsts, consumers, rounds, size, true), acts, WithWrappedIndices(t))
    ensures |t.producers| == |firsts| && |t.consumers| == consumers && t.rounds == rounds
  {
    var s := Start(firsts, consumers, rounds, size, false);
    var _ := RunMatchesWrapped(s, acts, t);
    WrappedIndex(s.ring);
    assert WithWrappedIndices(s) == Start(firsts, consumers, rounds, size, true);
    RunFromStart(firsts, consumers, rounds, size, acts, WithWrappedIndices(t));
  }

  // As written, the program never leaves its array if it adds at most `size` tasks in
  // all; until a run leaves it, the run is one of the wrapped program.
  lemma AsWrittenSafeIfSmall(firsts: seq<int>, consumers: nat, rounds: nat, size: nat, acts: seq<Action>, t: State)
    requires size >= 2 && Reaches(Start(firsts, consumers, rounds, size, false), acts, t)
    requires rounds * |firsts| <= size
    ensures !t.wild && |t.ring.slots| == size
    ensures Reaches(Start(firsts, consumers, rounds, size, true), acts, WithWrappedIndices(t))
  {
    if t.wild {
      var s := Start(firsts, consumers, rounds, size, false);
      var u := RunMatchesWrapped(s, acts, t);
      RunFromStartAsWritten(firsts, consumers, rounds, size, acts[..|acts| - 1], u);
      var j: nat :| j < |u.producers| && u.producers[j].pc.PAdd?;
      NotAllAdded(WithWrappedIndices(u), j);
    } else {
      RunFromStartAsWritten(firsts, consumers, rounds, size, acts, t);
    }
  }

  lemma NotAllAdded(s: State, j: nat)
    requires InOrder(s) && j < |s.producers| && s.producers[j].pc.PAdd?
    ensures |Puts(s.log)| < s.rounds * |s.producers|
  {
    var p := s.producers[j];
    var finished := s.producers[j := p.(i := p.i + 1)];
    SumUpdate(s.producers, j, finished[j], Added);
    forall k | 0 <= k < |finished|
      ensures Added(finished[k]) <= s.rounds
    {
      assert ProducerInOrder(s, k);
    }
    SumAtMost(finished, Added, s.rounds);
  }

  // As written, runs are no longer than with wrapped indices: an overrun happens with an
  // item still to add.
  lemma AsWrittenIsBounded(firsts: seq<int>, consumers: nat, rounds: nat, size: nat, acts: seq<Action>, t: State)
    requires size >= 2 && Reaches(Start(firsts, consumers, rounds, size, false), acts, t)
    ensures |acts| <= 14 * (rounds * |firsts|) + 2 * (|firsts| + consumers) + 3 * SpuriousCount(acts)
  {
    if t.wild {
      var u := RunMatchesWrapped(Start(firsts, consumers, rounds, size, false), acts, t);
      var before := acts[..|acts| - 1];
      RunFromStartAsWritten(firsts, consumers, rounds, size, before, u);
      RunFromStart(firsts, consumers, rounds, size, before, WithWrappedIndices(u));
      var j: nat :| j < |u.producers| && u.producers[j].pc.PAdd?;
      NotAllAdded(WithWrappedIndices(u), j);
      SpuriousPrefix(acts, |acts| - 1);
    } else {
      RunFromStartAsWritten(firsts, consumers, rounds, size, acts, t);
      EveryRunIsBounded(firsts, consumers, rounds, size, acts, WithWrappedIndices(t));
    }
  }

  lemma {:induction false} SpuriousPrefix(acts: seq<Action>, n: nat)
    requires n <= |acts|
    ensures SpuriousCount(acts[..n]) <= SpuriousCount(acts)
  {
    if n > 0 {
      assert acts[..n][1..] == acts[1..][..n - 1];
      SpuriousPrefix(acts[1..], n - 1);
    }
  }

  lemma StepTakesNothing(s: State, a: Action)
    requires s.consumers == [] && Gets(s.log) == [] && |s.ring.slots| > 0 && Enabled(s, a)
    ensures Do(s, a).consumers == [] && Gets(Do(s, a).log) == []
  {
    hide Gets, Ring.Add, Ring.IsFull;
    match a
    case Produce(j, wake) =>
      LogAppend(0, s.log, Put(j, s.producers[j].s));
    case _ =>
  }

  lemma {:induction false} NothingTaken(s: State, acts: seq<Action>, t: State)
    requires s.consumers == [] && Gets(s.log) == [] && Reaches(s, acts, t)
    ensures t.consumers == [] && Gets(t.log) == []
    decreases |acts|
  {
    hide Do, Gets;
    if acts != [] {
      StepTakesNothing(s, acts[0]);
      NothingTaken(Do(s, acts[0]), acts[1..], t);
    }
  }

  lemma NothingTakenFitsIn(s: State)
    requires Inv(s) && Gets(s.log) == []
    ensures |Puts(s.log)| < |s.ring.slots|
  {
    TestsAreExact(s.ring);
    Conservation(s.ring.Capacity(), s.log);
    assert |Items(Puts(s.log))| == |Items(Gets(s.log)) + s.ring.Contents()|;
  }

  // Without a consumer the queue fills up before `tail` gets to the end of the array.
  lemma WithoutConsumersSafe(firsts: seq<int>, rounds: nat, size: nat, acts: seq<Action>, t: State)
    requires size >= 2 && Reaches(Start(firsts, 0, rounds, size, false), acts, t)
    ensures !t.wild
  {
    hide Inv;
    if t.wild {
      var s := Start(firsts, 0, rounds, size, false);
      var u := RunMatchesWrapped(s, acts, t);
      RunFromStartAsWritten(firsts, 0, rounds, size, acts[..|acts| - 1], u);
      NothingTaken(s, acts[..|acts| - 1], u);
      NothingTakenFitsIn(WithWrappedIndices(u));
    }
  }

  // And it cannot finish if it has more to add: a run that cannot go on has left the array
  // exactly if there are more than `size` tasks to add and a consumer to make room for
  // them. The constants of the program are 2 producers, 25 rounds, 4 consumers and size 5.
  lemma AsWrittenOverrunsIff(firsts: seq<int>, consumers: nat, rounds: nat, size: nat, acts: seq<Action>, t: State)
    requires size >= 2
    requires Reaches(Start(firsts, consumers, rounds, size, false), acts, t) && Stuck(t)
    ensures t.wild <==> rounds * |firsts| > size && consumers > 0
  {
    if consumers == 0 {
      WithoutConsumersSafe(firsts, rounds, size, acts, t);
    } else if rounds * |firsts| <= size {
      AsWrittenSafeIfSmall(firsts, consumers, rounds, size, acts, t);
    } else if !t.wild {
      RunFromStartAsWritten(firsts, consumers, rounds, size, acts, t);
      var w := WithWrappedIndices(t);
      forall a: Action | Enabled(w, a)
        ensures a.Spurious()
      {
        assert Enabled(t, a);
      }
      StuckMeansFinished(w);
    }
  }

  // Any state the program as written can be in runs on to one without a next step.
  lemma {:induction false} RunsToTheEnd(s: State) returns (acts: seq<Action>, t: State)
    requires Growing(s) && Inv(WithWrappedIndices(s))
    ensures Reaches(s, acts, t) && Stuck(t)
    decreases StepsLeft(WithWrappedIndices(s))
  {
    acts, t := [], s;
    if !Stuck(s) {
      var a :| Enabled(s, a) && !a.Spurious();
      var w, next := WithWrappedIndices(s), Do(s, a);
      StepMatchesWrapped(s, a);
      if next.wild {
        acts, t := [a], next;
      } else {
        StepsLeftNonNegative(w);
        StepKeepsInv(w, a);
        match a {
          case Produce(j, wake) => ProducerProgress(w, j, wake);
          case Consume(i, wake) => ConsumerProgress(w, i, wake);
        }
        acts, t := RunsToTheEnd(next);
        acts := [a] + acts;
      }
    }
  }

  // With the constants of the program the overrun does happen.
  lemma SourceConstantsOverrun(s0: int, s1: int)
    ensures exists acts, t :: Reaches(Start([s0, s1], 4, 25, 5, false), acts, t) && t.wild
  {
    var s := Start([s0, s1], 4, 25, 5, false);
    WrappedIndex(s.ring);
    assert WithWrappedIndices(s) == Start([s0, s1], 4, 25, 5, true);
    StartInv([s0, s1], 4, 25, 5);
    var acts, t := RunsToTheEnd(s);
    AsWrittenOverrunsIff([s0, s1], 4, 25, 5, acts, t);
  }
}

// The threads of src/concurrency/semaphore.c as an interleaved step system: a ring
// guarded by a mutex and two counting semaphores, any number of consumers of `rounds`
// rounds each, and any number of producers that loop forever.
module Semaphores {
  import opened Counting
  import opened Rings
  import opened Fifo
  import opened Options

  // The statement a consumer is about to execute.
  datatype ConsumerPc = CWait | CLock | CPop | CUnlock | CPost | CDone
  datatype Consumer = Consumer(pc: ConsumerPc, done: nat)

  datatype ProducerPc = PWait | PLock | PAdd | PUnlock | PPost
  datatype Producer = Producer(pc: ProducerPc, r: int)

  datatype Owner = Free | ByConsumer(i: nat) | ByProducer(j: nat)

  // `log` records the queue operations in the order they happened and `refused` how
  // often add_item or pop_item returned false.
  datatype State = State(
    sem1: nat, sem2: nat, mutex: Owner, ring: Ring,
    consumers: seq<Consumer>, producers: seq<Producer>,
    rounds: nat, log: seq<Event>, refused: nat)

  // A producer's action carries the number rand() would return.
  datatype Action = Consume(i: nat) | Produce(j: nat, random: int)

  function Start(consumers: nat, producers: nat, rounds: nat, size: nat): State
    requires size >= 2
  {
    State(0, size - 1, Free, EmptyRing(size, true),
          seq(consumers, _ => Consumer(if rounds == 0 then CDone else CWait, 0)),
          seq(producers, _ => Producer(PWait, 0)),
          rounds, [], 0)
  }

  predicate Enabled(s: State, a: Action) {
    match a
    case Consume(i) =>
      i < |s.consumers| &&
      (match s.consumers[i].pc
       case CWait => s.sem1 > 0
       case CLock => s.mutex == Free
       case CDone => false
       case _ => true)
    case Produce(j, _) =>
      j < |s.producers| &&
      (match s.producers[j].pc
       case PWait => s.sem2 > 0
       case PLock => s.mutex == Free
       case _ => true)
  }

  function Do(s: State, a: Action): State
    requires Enabled(s, a) && |s.ring.slots| > 0
  {
    match a
    case Consume(i) => DoConsumer(s, i)
    case Produce(j, random) => DoProducer(s, j, random)
  }

  function DoConsumer(s: State, i: nat): State
    requires Enabled(s, Consume(i)) && |s.ring.slots| > 0
  {
    var c := s.consumers[i];
    match c.pc
    case CWait => s.(sem1 := s.sem1 - 1, consumers := s.consumers[i := c.(pc := CLock)])
    case CLock => s.(mutex := ByConsumer(i), consumers := s.consumers[i := c.(pc := CPop)])
    case CPop =>
      var moved := s.consumers[i := c.(pc := CUnlock)];
      (match s.ring.Pop()
       case Taken(ring, item) => s.(ring := ring, log := s.log + [Get(i, item)], consumers := moved)
       case _ => s.(refused := s.refused + 1, consumers := moved))
    case CUnlock => s.(mutex := Free, consumers := s.consumers[i := c.(pc := CPost)])
    case CPost =>
      var next := Consumer(if c.done + 1 < s.rounds then CWait else CDone, c.done + 1);
      s.(sem2 := s.sem2 + 1, consumers := s.consumers[i := next])
  }

  function DoProducer(s: State, j: nat, random: int): State
    requires Enabled(s, Produce(j, random)) && |s.ring.slots| > 0
  {
    var p := s.producers[j];
    match p.pc
    case PWait => s.(sem2 := s.sem2 - 1, producers := s.producers[j := Producer(PLock, random)])
    case PLock => s.(mutex := ByProducer(j), producers := s.producers[j := p.(pc := PAdd)])
    case PAdd =>
      var moved := s.producers[j := p.(pc := PUnlock)];
      (match s.ring.Add(p.r)
       case Stored(ring) => s.(ring := ring, log := s.log + [Put(j, p.r)], producers := moved)
       case _ => s.(refused := s.refused + 1, producers := moved))
    case PUnlock => s.(mutex := Free, producers := s.producers[j := p.(pc := PPost)])
    case PPost => s.(sem1 := s.sem1 + 1, producers := s.producers[j := p.(pc := PWait)])
  }

  // `t` is what the run `acts` makes of `s`.
  ghost predicate Reaches(s: State, acts: seq<Action>, t: State)
    decreases |acts|
  {
    if acts == [] then s == t
    else Enabled(s, acts[0]) && |s.ring.slots| > 0 && Reaches(Do(s, acts[0]), acts[1..], t)
  }

  ghost predicate Stuck(s: State) {
    forall a :: !Enabled(s, a)
  }

  // ---- What every reachable state keeps ----

  function TookPermit(c: Consumer): nat { if c.pc.CLock? || c.pc.CPop? then 1 else 0 }
  function OwesSlot(c: Consumer): nat { if c.pc.CUnlock? || c.pc.CPost? then 1 else 0 }
  function ItemsTaken(c: Consumer): nat { c.done + OwesSlot(c) }
  function TookSlot(p: Producer): nat { if p.pc.PLock? || p.pc.PAdd? then 1 else 0 }
  function OwesItem(p: Producer): nat { if p.pc.PUnlock? || p.pc.PPost? then 1 else 0 }

  // semaphore1 and the permits in flight are exactly the queued items; semaphore2 and
  // the permits in flight the other way are exactly the free slots.
  ghost predicate Conserved(s: State)
    requires s.ring.Valid()
  {
    && s.sem1 + SumBy(s.consumers, TookPermit) + SumBy(s.producers, OwesItem) == |s.ring.Contents()|
    && s.sem2 + SumBy(s.producers, TookSlot) + SumBy(s.consumers, OwesSlot)
       == s.ring.Capacity() - |s.ring.Contents()|
  }

  ghost predicate MutexHeld(s: State) {
    && (forall i :: 0 <= i < |s.consumers| ==>
          ((s.consumers[i].pc.CPop? || s.consumers[i].pc.CUnlock?) <==> s.mutex == ByConsumer(i)))
    && (forall j :: 0 <= j < |s.producers| ==>
          ((s.producers[j].pc.PAdd? || s.producers[j].pc.PUnlock?) <==> s.mutex == ByProducer(j)))
    && (s.mutex.ByConsumer? ==> s.mutex.i < |s.consumers|)
    && (s.mutex.ByProducer? ==> s.mutex.j < |s.producers|)
  }

  ghost predicate RoundsCounted(s: State) {
    && (forall i :: 0 <= i < |s.consumers| ==>
          s.consumers[i].done <= s.rounds && (s.consumers[i].pc.CDone? <==> s.consumers[i].done == s.rounds))
    && |Gets(s.log)| == SumBy(s.consumers, ItemsTaken)
  }

  ghost predicate Inv(s: State) {
    && s.ring.Valid() && s.ring.wraps
    && Conserved(s)
    && MutexHeld(s)
    && RoundsCounted(s)
    && Replay(s.ring.Capacity(), s.log) == Some(s.ring.Contents())
    && s.refused == 0
  }

  lemma ConsumerSums(s: State, i: nat, c: Consumer)
    requires i < |s.consumers|
    ensures SumBy(s.consumers[i := c], TookPermit) + TookPermit(s.consumers[i])
            == SumBy(s.consumers, TookPermit) + TookPermit(c)
    ensures SumBy(s.consumers[i := c], OwesSlot) + OwesSlot(s.consumers[i])
            == SumBy(s.consumers, OwesSlot) + OwesSlot(c)
    ensures SumBy(s.consumers[i := c], ItemsTaken) + ItemsTaken(s.consumers[i])
            == SumBy(s.consumers, ItemsTaken) + ItemsTaken(c)
    ensures TookPermit(s.consumers[i]) <= SumBy(s.consumers, TookPermit)
  {
    SumUpdate(s.consumers, i, c, TookPermit);
    SumUpdate(s.consumers, i, c, OwesSlot);
    SumUpdate(s.consumers, i, c, ItemsTaken);
    SumAtLeast(s.consumers, i, TookPermit);
  }

  lemma ProducerSums(s: State, j: nat, p: Producer)
    requires j < |s.producers|
    ensures SumBy(s.producers[j := p], TookSlot) + TookSlot(s.producers[j])
            == SumBy(s.producers, TookSlot) + TookSlot(p)
    ensures SumBy(s.producers[j := p], OwesItem) + OwesItem(s.producers[j])
            == SumBy(s.producers, OwesItem) + OwesItem(p)
    ensures TookSlot(s.producers[j]) <= SumBy(s.producers, TookSlot)
  {
    SumUpdate(s.producers, j, p, TookSlot);
    SumUpdate(s.producers, j, p, OwesItem);
    SumAtLeast(s.producers, j, TookSlot);
  }

  lemma StartInv(consumers: nat, producers: nat, rounds: nat, size: nat)
    requires size >= 2
    ensures Inv(Start(consumers, producers, rounds, size))
  {
    hide SumBy;
    var s := Start(consumers, producers, rounds, size);
    SumConstant(s.consumers, TookPermit, 0);
    SumConstant(s.consumers, OwesSlot, 0);
    SumConstant(s.consumers, ItemsTaken, 0);
    SumConstant(s.producers, TookSlot, 0);
    SumConstant(s.producers, OwesItem, 0);
  }

  lemma ConsumerPops(s: State, i: nat)
    requires Inv(s) && Enabled(s, Consume(i)) && s.consumers[i].pc.CPop?
    ensures s.ring.Pop().Taken?
    ensures Inv(DoConsumer(s, i)) && |DoConsumer(s, i).ring.slots| == |s.ring.slots|
  {
    hide Ring.Add, Ring.Pop, Ring.Contents, Ring.Valid, Ring.IsFull, Ring.IsEmpty, Replay, Puts, Gets;
    var t := DoConsumer(s, i);
    ConsumerSums(s, i, t.consumers[i]);
    PopTakesOldest(s.ring);
    var item := s.ring.Pop().item;
    assert s.ring.Contents()[0] == item && s.ring.Contents()[1..] == t.ring.Contents();
    LogAppend(s.ring.Capacity(), s.log, Get(i, item));
  }

  lemma ConsumerMoves(s: State, i: nat)
    requires Inv(s) && Enabled(s, Consume(i)) && !s.consumers[i].pc.CPop?
    ensures Inv(DoConsumer(s, i)) && DoConsumer(s, i).ring == s.ring
  {
    hide SumBy, Ring.Pop, Ring.Contents, Ring.Valid, Replay, Gets;
    ConsumerSums(s, i, DoConsumer(s, i).consumers[i]);
  }

  lemma ConsumerKeepsInv(s: State, i: nat)
    requires Inv(s) && Enabled(s, Consume(i))
    ensures Inv(DoConsumer(s, i)) && |DoConsumer(s, i).ring.slots| == |s.ring.slots| >= 2
  {
    assert |s.ring.slots| >= 2;
    hide Inv;
    if s.consumers[i].pc.CPop? {
      ConsumerPops(s, i);
    } else {
      ConsumerMoves(s, i);
    }
  }

  lemma ProducerAdds(s: State, j: nat, random: int)
    requires Inv(s) && Enabled(s, Produce(j, random)) && s.producers[j].pc.PAdd?
    ensures s.ring.Add(s.producers[j].r).Stored?
    ensures Inv(DoProducer(s, j, random)) && |DoProducer(s, j, random).ring.slots| == |s.ring.slots|
  {
    hide Ring.Add, Ring.Pop, Ring.Contents, Ring.Valid, Ring.IsFull, Ring.IsEmpty, Replay, Puts, Gets;
    var t := DoProducer(s, j, random);
    ProducerSums(s, j, t.producers[j]);
    AddAppends(s.ring, s.producers[j].r);
    LogAppend(s.ring.Capacity(), s.log, Put(j, s.producers[j].r));
  }

  lemma ProducerMoves(s: State, j: nat, random: int)
    requires Inv(s) && Enabled(s, Produce(j, random)) && !s.producers[j].pc.PAdd?
    ensures Inv(DoProducer(s, j, random)) && DoProducer(s, j, random).ring == s.ring
  {
    hide SumBy, Ring.Add, Ring.Contents, Ring.Valid, Replay, Gets;
    ProducerSums(s, j, DoProducer(s, j, random).producers[j]);
  }

  lemma ProducerKeepsInv(s: State, j: nat, random: int)
    requires Inv(s) && Enabled(s, Produce(j, random))
    ensures Inv(DoProducer(s, j, random)) && |DoProducer(s, j, random).ring.slots| == |s.ring.slots| >= 2
  {
    assert |s.ring.slots| >= 2;
    hide Inv;
    if s.producers[j].pc.PAdd? {
      ProducerAdds(s, j, random);
    } else {
      ProducerMoves(s, j, random);
    }
  }

  // ---- The exact number of steps that are left ----

  function Position(c: Consumer): nat {
    match c.pc case CLock => 1 case CPop => 2 case CUnlock => 3 case CPost => 4 case _ => 0
  }

  // 0 for a producer that waits for its next slot.
  function StepsToWait(p: Producer): nat {
    match p.pc case PWait => 0 case PLock => 4 case PAdd => 3 case PUnlock => 2 case PPost => 1
  }

  function StepsDone(c: Consumer): nat { 5 * c.done + Position(c) }
  function RoundsDone(c: Consumer): nat { c.done }

  // Every consumer step, five producer steps for every slot that is or will be free, and
  // the producers' unfinished turns.
  function StepsLeft(s: State): int {
    5 * s.rounds * |s.consumers| - SumBy(s.consumers, StepsDone)
    + 5 * (s.sem2 + s.rounds * |s.consumers| - SumBy(s.consumers, RoundsDone))
    + SumBy(s.producers, StepsToWait)
  }

  ghost predicate SameShape(s: State, t: State) {
    && |t.consumers| == |s.consumers| && |t.producers| == |s.producers|
    && t.rounds == s.rounds && |t.ring.slots| == |s.ring.slots|
  }

  lemma ConsumerTakesOne(s: State, i: nat)
    requires |s.ring.slots| > 0 && Enabled(s, Consume(i))
    ensures StepsLeft(DoConsumer(s, i)) == StepsLeft(s) - 1
  {
    hide SumBy, Ring.Pop;
    var c := DoConsumer(s, i).consumers[i];
    SumUpdate(s.consumers, i, c, StepsDone);
    SumUpdate(s.consumers, i, c, RoundsDone);
  }

  lemma ProducerTakesOne(s: State, j: nat, random: int)
    requires |s.ring.slots| > 0 && Enabled(s, Produce(j, random))
    ensures StepsLeft(DoProducer(s, j, random)) == StepsLeft(s) - 1
  {
    hide SumBy, Ring.Add;
    SumUpdate(s.producers, j, DoProducer(s, j, random).producers[j], StepsToWait);
  }

  lemma StepTakesOne(s: State, a: Action)
    requires Inv(s) && Enabled(s, a)
    ensures Inv(Do(s, a)) && SameShape(s, Do(s, a))
    ensures StepsLeft(Do(s, a)) == StepsLeft(s) - 1
  {
    hide Inv, StepsLeft, Ring.Add, Ring.Pop;
    match a
    case Consume(i) =>
      ConsumerKeepsInv(s, i);
      ConsumerTakesOne(s, i);
    case Produce(j, random) =>
      ProducerKeepsInv(s, j, random);
      ProducerTakesOne(s, j, random);
  }

  lemma {:induction false} RunTakesItsLength(s: State, acts: seq<Action>, t: State)
    requires Inv(s) && Reaches(s, acts, t)
    ensures Inv(t) && SameShape(s, t)
    ensures StepsLeft(t) == StepsLeft(s) - |acts|
    decreases |acts|
  {
    if acts != [] {
      StepTakesOne(s, acts[0]);
      RunTakesItsLength(Do(s, acts[0]), acts[1..], t);
    }
  }

  lemma StartStepsLeft(consumers: nat, producers: nat, rounds: nat, size: nat)
    requires size >= 2
    ensures StepsLeft(Start(consumers, producers, rounds, size)) == 10 * rounds * consumers + 5 * (size - 1)
  {
    var s := Start(consumers, producers, rounds, size);
    SumConstant(s.consumers, StepsDone, 0);
    SumConstant(s.consumers, RoundsDone, 0);
    SumConstant(s.producers, StepsToWait, 0);
  }

  lemma StepsLeftNonNegative(s: State)
    requires Inv(s)
    ensures StepsLeft(s) >= 0
  {
    SumAtMost(s.consumers, StepsDone, 5 * s.rounds);
    SumAtMost(s.consumers, RoundsDone, s.rounds);
  }

  // ---- Which numbers are added, and who takes them ----

  // The numbers rand() returned to producer j, in a run of `acts` from s: one for every
  // step it took at PWait.
  function Drawn(s: State, acts: seq<Action>, j: nat): seq<int>
    decreases |acts|
  {
    if acts == [] || !Enabled(s, acts[0]) || |s.ring.slots| == 0 then []
    else DrawnAt(s, acts[0], j) + Drawn(Do(s, acts[0]), acts[1..], j)
  }

  function DrawnAt(s: State, a: Action, j: nat): seq<int>
    requires Enabled(s, a)
  {
    if a.Produce? && a.j == j && s.producers[j].pc.PWait? then [a.random] else []
  }

  // What consumer i takes: the oldest item, at every step it takes at CPop.
  function Popped(s: State, acts: seq<Action>, i: nat): seq<int>
    decreases |acts|
  {
    if acts == [] || !Enabled(s, acts[0]) || |s.ring.slots| == 0 then []
    else PoppedAt(s, acts[0], i) + Popped(Do(s, acts[0]), acts[1..], i)
  }

  function PoppedAt(s: State, a: Action, i: nat): seq<int>
    requires Enabled(s, a)
  {
    if a.Consume? && a.i == i && s.consumers[i].pc.CPop? && s.ring.Valid() && s.ring.Contents() != []
    then [s.ring.Contents()[0]] else []
  }

  // A number that is drawn but not yet added.
  function InHand(s: State, j: nat): seq<int> {
    if j < |s.producers| && (s.producers[j].pc.PLock? || s.producers[j].pc.PAdd?) then [s.producers[j].r] else []
  }

  lemma StepAddsDrawn(s: State, a: Action, j: nat)
    requires Inv(s) && Enabled(s, a)
    ensures ItemsBy(Puts(Do(s, a).log), j) + InHand(Do(s, a), j)
            == ItemsBy(Puts(s.log), j) + InHand(s, j) + DrawnAt(s, a, j)
  {
    hide Ring.Add, Ring.Pop, Ring.Contents, Replay, Puts, Gets, ItemsBy, SumBy;
    match a
    case Consume(i) =>
      if s.consumers[i].pc.CPop? {
        ConsumerPops(s, i);
        LogAppend(0, s.log, Get(i, s.ring.Pop().item));
      }
    case Produce(k, random) =>
      if s.producers[k].pc.PAdd? {
        ProducerAdds(s, k, random);
        var e := Put(k, s.producers[k].r);
        LogAppend(0, s.log, e);
        ItemsByAppend(Puts(s.log), e, j);
      }
  }

  lemma StepTakesOldest(s: State, a: Action, i: nat)
    requires Inv(s) && Enabled(s, a)
    ensures ItemsBy(Gets(Do(s, a).log), i) == ItemsBy(Gets(s.log), i) + PoppedAt(s, a, i)
  {
    hide Ring.Add, Ring.Pop, Ring.Contents, Replay, Puts, Gets, ItemsBy, SumBy;
    match a
    case Consume(k) =>
      if s.consumers[k].pc.CPop? {
        PopTakesOldest(s.ring);
        ConsumerPops(s, k);
        var e := Get(k, s.ring.Pop().item);
        LogAppend(0, s.log, e);
        ItemsByAppend(Gets(s.log), e, i);
      }
    case Produce(k, random) =>
      if s.producers[k].pc.PAdd? {
        ProducerAdds(s, k, random);
        LogAppend(0, s.log, Put(k, s.producers[k].r));
      }
  }

  lemma {:induction false} RunAddsDrawn(s: State, acts: seq<Action>, t: State, j: nat)
    requires Inv(s) && Reaches(s, acts, t)
    ensures ItemsBy(Puts(t.log), j) + InHand(t, j) == ItemsBy(Puts(s.log), j) + InHand(s, j) + Drawn(s, acts, j)
    decreases |acts|
  {
    hide Inv, Do, InHand, DrawnAt, ItemsBy, Puts;
    if acts != [] {
      StepTakesOne(s, acts[0]);
      StepAddsDrawn(s, acts[0], j);
      RunAddsDrawn(Do(s, acts[0]), acts[1..], t, j);
    }
  }

  lemma {:induction false} RunTakesOldest(s: State, acts: seq<Action>, t: State, i: nat)
    requires Inv(s) && Reaches(s, acts, t)
    ensures ItemsBy(Gets(t.log), i) == ItemsBy(Gets(s.log), i) + Popped(s, acts, i)
    decreases |acts|
  {
    hide Inv, Do, PoppedAt, ItemsBy, Gets;
    if acts != [] {
      StepTakesOne(s, acts[0]);
      StepTakesOldest(s, acts[0], i);
      RunTakesOldest(Do(s, acts[0]), acts[1..], t, i);
    }
  }

  // ---- Main results ----

  lemma RunFromStart(consumers: nat, producers: nat, rounds: nat, size: nat, acts: seq<Action>, t: State)
    requires size >= 2 && Reaches(Start(consumers, producers, rounds, size), acts, t)
    ensures Inv(t) && SameShape(Start(consumers, producers, rounds, size), t)
    ensures StepsLeft(t) == 10 * rounds * consumers + 5 * (size - 1) - |acts|
  {
    StartInv(consumers, producers, rounds, size);
    StartStepsLeft(consumers, producers, rounds, size);
    RunTakesItsLength(Start(consumers, producers, rounds, size), acts, t);
  }

  // Safety of every run: the wrapped ring behaves as an atomic bounded queue, the
  // semaphores count items and free slots, and add_item and pop_item never return false.
  lemma EveryRunIsSafe(consumers: nat, producers: nat, rounds: nat, size: nat, acts: seq<Action>, t: State)
    requires size >= 2 && Reaches(Start(consumers, producers, rounds, size), acts, t)
    ensures t.ring.Valid() && Conserved(t) && MutexHeld(t) && t.refused == 0
    ensures Replay(size - 1, t.log) == Some(t.ring.Contents())
    ensures Items(Gets(t.log)) + t.ring.Contents() == Items(Puts(t.log))
  {
    RunFromStart(consumers, producers, rounds, size, acts, t);
    Conservation(t.ring.Capacity(), t.log);
  }

  // What producer j has added is what rand() returned to it, in order, without a number
  // it has still in hand; and what consumer i has taken are the items that were the oldest
  // when it popped.
  lemma EveryNumberDrawnIsAdded(
      consumers: nat, producers: nat, rounds: nat, size: nat, acts: seq<Action>, t: State, j: nat)
    requires size >= 2 && Reaches(Start(consumers, producers, rounds, size), acts, t)
    ensures |t.producers| == producers
    ensures var drawn := Drawn(Start(consumers, producers, rounds, size), acts, j);
            if j < producers && (t.producers[j].pc.PLock? || t.producers[j].pc.PAdd?)
            then drawn != [] && ItemsBy(Puts(t.log), j) == drawn[..|drawn| - 1]
            else ItemsBy(Puts(t.log), j) == drawn
  {
    var s := Start(consumers, producers, rounds, size);
    RunFromStart(consumers, producers, rounds, size, acts, t);
    StartInv(consumers, producers, rounds, size);
    RunAddsDrawn(s, acts, t, j);
    var drawn := Drawn(s, acts, j);
    assert [] + [] + drawn == drawn;
    assert ItemsBy(Puts(t.log), j) + InHand(t, j) == drawn;
    assert ItemsBy(Puts(t.log), j) == drawn[..|ItemsBy(Puts(t.log), j)|];
  }

  lemma EveryPopTakesTheOldest(
      consumers: nat, producers: nat, rounds: nat, size: nat, acts: seq<Action>, t: State, i: nat)
    requires size >= 2 && Reaches(Start(consumers, producers, rounds, size), acts, t)
    ensures ItemsBy(Gets(t.log), i) == Popped(Start(consumers, producers, rounds, size), acts, i)
  {
    var s := Start(consumers, producers, rounds, size);
    StartInv(consumers, producers, rounds, size);
    RunTakesOldest(s, acts, t, i);
    assert [] + Popped(s, acts, i) == Popped(s, acts, i);
  }

  lemma HolderCanStep(s: State)
    requires MutexHeld(s) && s.mutex != Free
    ensures !Stuck(s)
  {
    var holder := if s.mutex.ByConsumer? then Consume(s.mutex.i) else Produce(s.mutex.j, 0);
    assert Enabled(s, holder);
  }

  // The mutex is never abandoned and nobody waits for it in vain.
  lemma StuckMeansWaiting(s: State)
    requires Inv(s) && Stuck(s) && s.producers != []
    ensures forall i :: 0 <= i < |s.consumers| ==> s.consumers[i].pc.CWait? || s.consumers[i].pc.CDone?
    ensures forall j :: 0 <= j < |s.producers| ==> s.producers[j].pc.PWait?
    ensures s.sem2 == 0
  {
    assert !Enabled(s, Produce(0, 0));
    if s.mutex != Free {
      HolderCanStep(s);
    }
    forall i | 0 <= i < |s.consumers|
      ensures s.consumers[i].pc.CWait? || s.consumers[i].pc.CDone?
    {
      assert !Enabled(s, Consume(i));
    }
    forall j | 0 <= j < |s.producers|
      ensures s.producers[j].pc.PWait?
    {
      assert !Enabled(s, Produce(j, 0));
    }
  }

  // No deadlock: a state without a next step has every consumer done and the ring full.
  lemma StuckMeansFinished(s: State)
    requires Inv(s) && Stuck(s) && s.producers != []
    ensures forall i :: 0 <= i < |s.consumers| ==> s.consumers[i].pc.CDone?
    ensures forall j :: 0 <= j < |s.producers| ==> s.producers[j].pc.PWait?
    ensures s.sem2 == 0 && |s.ring.Contents()| == s.ring.Capacity()
    ensures |Gets(s.log)| == s.rounds * |s.consumers|
    ensures |Puts(s.log)| == s.rounds * |s.consumers| + s.ring.Capacity()
    ensures StepsLeft(s) == 0
  {
    StuckMeansWaiting(s);
    SumConstant(s.consumers, TookPermit, 0);
    SumConstant(s.consumers, OwesSlot, 0);
    SumConstant(s.producers, TookSlot, 0);
    SumConstant(s.producers, OwesItem, 0);
    assert s.sem1 == s.ring.Capacity() > 0;
    forall i | 0 <= i < |s.consumers|
      ensures s.consumers[i].pc.CDone?
    {
      assert !Enabled(s, Consume(i));
    }
    SumConstant(s.consumers, ItemsTaken, s.rounds);
    SumConstant(s.consumers, StepsDone, 5 * s.rounds);
    SumConstant(s.consumers, RoundsDone, s.rounds);
    SumConstant(s.producers, StepsToWait, 0);
    Conservation(s.ring.Capacity(), s.log);
    assert |Items(Gets(s.log)) + s.ring.Contents()| == |Gets(s.log)| + |s.ring.Contents()|;
  }

  // Every run that cannot go on has the same length and the same end, whatever the
  // interleaving: all consumers done, all producers blocked on semaphore2, the ring full.
  lemma EveryMaximalRun(consumers: nat, producers: nat, rounds: nat, size: nat, acts: seq<Action>, t: State)
    requires size >= 2 && producers >= 1 && Reaches(Start(consumers, producers, rounds, size), acts, t)
    ensures |acts| <= 10 * rounds * consumers + 5 * (size - 1)
    ensures Stuck(t) <==> |acts| == 10 * rounds * consumers + 5 * (size - 1)
    ensures Stuck(t) ==>
              && (forall i :: 0 <= i < |t.consumers| ==> t.consumers[i].pc.CDone?)
              && (forall j :: 0 <= j < |t.producers| ==> t.producers[j].pc.PWait?)
              && t.sem2 == 0
              && t.ring.Valid() && |t.ring.Contents()| == size - 1
              && |Gets(t.log)| == rounds * consumers
              && |Puts(t.log)| == rounds * consumers + size - 1
  {
    RunFromStart(consumers, producers, rounds, size, acts, t);
    StepsLeftNonNegative(t);
    if Stuck(t) {
      StuckMeansFinished(t);
    } else {
      var a :| Enabled(t, a);
      StepTakesOne(t, a);
      StepsLeftNonNegative(Do(t, a));
    }
  }
}

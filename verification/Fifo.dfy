// The simple form that both queue programs must agree with: an atomic bounded first-in
// first-out queue, described by the log of its operations in the order they took effect.
module Fifo {
  import opened Options

  // `who` is the thread that performed the operation.
  datatype Event = Put(who: nat, item: int) | Get(who: nat, item: int)

  // The queue after the logged operations; None if one of them was not allowed.
  function Replay(capacity: nat, log: seq<Event>): (queue: Option<seq<int>>)
    ensures queue.Some? ==> |queue.value| <= capacity
  {
    if log == [] then Some([])
    else
      var before := Replay(capacity, log[..|log| - 1]);
      if before.None? then None
      else match log[|log| - 1]
        case Put(_, item) =>
          if |before.value| < capacity then Some(before.value + [item]) else None
        case Get(_, item) =>
          if before.value != [] && before.value[0] == item then Some(before.value[1..]) else None
  }

  function Puts(log: seq<Event>): seq<Event> {
    if log == [] then []
    else
      var last := log[|log| - 1];
      Puts(log[..|log| - 1]) + if last.Put? then [last] else []
  }

  function Gets(log: seq<Event>): seq<Event> {
    if log == [] then []
    else
      var last := log[|log| - 1];
      Gets(log[..|log| - 1]) + if last.Get? then [last] else []
  }

  function Items(events: seq<Event>): (items: seq<int>)
    ensures |items| == |events|
  {
    seq(|events|, i requires 0 <= i < |events| => events[i].item)
  }

  // The items of one thread, in order.
  function ItemsBy(events: seq<Event>, who: nat): seq<int> {
    if events == [] then []
    else
      var last := events[|events| - 1];
      ItemsBy(events[..|events| - 1], who) + if last.who == who then [last.item] else []
  }

  lemma LogAppend(capacity: nat, log: seq<Event>, e: Event)
    ensures Puts(log + [e]) == if e.Put? then Puts(log) + [e] else Puts(log)
    ensures Gets(log + [e]) == if e.Get? then Gets(log) + [e] else Gets(log)
    ensures Replay(capacity, log).Some? ==>
              var q := Replay(capacity, log).value;
              && (e.Put? && |q| < capacity ==> Replay(capacity, log + [e]) == Some(q + [e.item]))
              && (e.Get? && q != [] && q[0] == e.item ==> Replay(capacity, log + [e]) == Some(q[1..]))
  {
    assert (log + [e])[..|log|] == log;
  }

  // Nothing is lost, duplicated or reordered: what was taken out, followed by what is
  // still inside, is what was put in.
  lemma {:induction false} Conservation(capacity: nat, log: seq<Event>)
    requires Replay(capacity, log).Some?
    ensures Items(Gets(log)) + Replay(capacity, log).value == Items(Puts(log))
  {
    if log != [] {
      var front, last := log[..|log| - 1], log[|log| - 1];
      Conservation(capacity, front);
      var q := Replay(capacity, front).value;
      if last.Get? {
        assert q == [q[0]] + q[1..] && Puts(log) == Puts(front);
        assert Items(Gets(log)) == Items(Gets(front)) + [q[0]];
      } else {
        assert Gets(log) == Gets(front) && Items(Puts(log)) == Items(Puts(front)) + [last.item];
        assert Replay(capacity, log).value == q + [last.item];
      }
    }
  }

  lemma ItemsByAppend(events: seq<Event>, e: Event, who: nat)
    ensures ItemsBy(events + [e], who) == ItemsBy(events, who) + if e.who == who then [e.item] else []
  {
    assert (events + [e])[..|events|] == events;
  }

  lemma {:induction false} ItemsByPrefix(events: seq<Event>, n: nat, who: nat)
    requires n <= |events|
    ensures ItemsBy(events[..n], who) <= ItemsBy(events, who)
  {
    if n < |events| {
      assert events[..|events| - 1][..n] == events[..n];
      ItemsByPrefix(events[..|events| - 1], n, who);
    } else {
      assert events[..n] == events;
    }
  }
}

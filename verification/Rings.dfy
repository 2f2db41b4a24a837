// The ring buffer that both queue programs share, as a value and as the two classes the
// programs update in place.
module Rings {

  // `wraps` is true for src/concurrency/semaphore.c, whose indices go back to 0 at the
  // end, and false for src/concurrency/MPMC.c, whose indices only grow.
  datatype Ring = Ring(head: nat, tail: nat, slots: seq<int>, wraps: bool) {

    predicate IsFull()
      requires |slots| > 0
    {
      head == (tail + 1) % |slots|
    }

    predicate IsEmpty() {
      head == tail
    }

    function Next(i: nat): nat
      requires |slots| > 0
    {
      if wraps then (i + 1) % |slots| else i + 1
    }

    function Add(item: int): AddResult
      requires |slots| > 0
    {
      if IsFull() then Refused
      else if tail >= |slots| then WriteOutOfBounds
      else Stored(this.(slots := slots[tail := item], tail := Next(tail)))
    }

    function Pop(): PopResult
      requires |slots| > 0
    {
      if IsEmpty() then Nothing
      else if head >= |slots| then ReadOutOfBounds
      else Taken(this.(head := Next(head)), slots[head])
    }

    // For growing indices: what holds until the first write past the end.
    predicate Valid() {
      && |slots| >= 2
      && if wraps then head < |slots| && tail < |slots|
         else head <= tail <= |slots| && (head == 0 ==> tail < |slots|)
    }

    function Capacity(): nat
      requires |slots| > 0
    {
      |slots| - 1
    }

    // The queued items, oldest first.
    function Contents(): seq<int>
      requires Valid()
    {
      if head <= tail then slots[head..tail] else slots[head..] + slots[..tail]
    }

    // The same ring with its indices wrapped.
    function Wrapped(): Ring
      requires |slots| > 0
    {
      Ring(head % |slots|, tail % |slots|, slots, true)
    }
  }

  datatype AddResult = Stored(ring: Ring) | Refused | WriteOutOfBounds
  datatype PopResult = Taken(ring: Ring, item: int) | Nothing | ReadOutOfBounds

  function EmptyRing(size: nat, wraps: bool): (r: Ring)
    requires size >= 2
    ensures r.Valid() && r.Contents() == [] && |r.slots| == size
  {
    Ring(0, 0, seq(size, _ => 0), wraps)
  }

  lemma Successor(i: nat, size: nat)
    requires i <= size && size >= 2
    ensures i < size ==> i % size == i && (i + 1) % size == if i + 1 == size then 0 else i + 1
    ensures i == size ==> i % size == 0 && (i + 1) % size == 1
  {
    if i == size {
      assert (i + 1) % size == (1 + size) % size == 1;
    }
  }

  // The index tests say what they should about the items, and one slot stays unused.
  lemma TestsAreExact(r: Ring)
    requires r.Valid()
    ensures r.IsEmpty() <==> r.Contents() == []
    ensures r.IsFull() <==> |r.Contents()| == r.Capacity()
    ensures |r.Contents()| <= r.Capacity()
  {
    Successor(r.tail, |r.slots|);
  }

  // A wrapping ring is a bounded queue: it never touches memory outside its slots, it
  // refuses only when full or empty, and items leave in the order they came.
  lemma AddAppends(r: Ring, item: int)
    requires r.Valid() && r.wraps
    ensures match r.Add(item)
            case Stored(r') => |r.Contents()| < r.Capacity() && r'.Valid() && r'.wraps
                               && |r'.slots| == |r.slots| && r'.Contents() == r.Contents() + [item]
            case Refused => |r.Contents()| == r.Capacity()
            case WriteOutOfBounds => false
  {
    TestsAreExact(r);
    Successor(r.tail, |r.slots|);
    if !r.IsFull() {
      var r' := Ring(r.head, if r.tail + 1 == |r.slots| then 0 else r.tail + 1, r.slots[r.tail := item], true);
      assert r.Add(item) == Stored(r');
      if r.head <= r.tail && r'.tail == 0 {
        assert r'.Contents() == r.slots[r.head..r.tail] + [item];
      } else if r.head <= r.tail {
        assert r'.Contents() == r.slots[r.head..r.tail] + [item];
      } else {
        assert r'.slots[r.head..] == r.slots[r.head..];
        assert r'.slots[..r'.tail] == r.slots[..r.tail] + [item];
      }
    }
  }

  lemma PopTakesOldest(r: Ring)
    requires r.Valid() && r.wraps
    ensures match r.Pop()
            case Taken(r', out) => r'.Valid() && r'.wraps && |r'.slots| == |r.slots|
                                   && r.Contents() == [out] + r'.Contents()
            case Nothing => r.Contents() == []
            case ReadOutOfBounds => false
  {
    Successor(r.head, |r.slots|);
    if !r.IsEmpty() {
      var r' := r.(head := if r.head + 1 == |r.slots| then 0 else r.head + 1);
      assert r.Pop() == Taken(r', r.slots[r.head]);
      assert r.Contents() == [r.slots[r.head]] + r'.Contents();
    }
  }

  lemma WrappedIndex(r: Ring)
    requires r.Valid() && !r.wraps
    ensures r.Wrapped() == Ring(if r.head == |r.slots| then 0 else r.head,
                                if r.tail == |r.slots| then 0 else r.tail, r.slots, true)
  {
    Successor(r.head, |r.slots|);
    Successor(r.tail, |r.slots|);
  }

  // With growing indices the same holds of every operation but one: an add that finds
  // `tail` at the end of the array and the queue not full writes outside it.
  lemma GrowingMatchesWrapped(r: Ring)
    requires r.Valid() && !r.wraps
    ensures r.Wrapped().Valid() && r.Wrapped().Contents() == r.Contents()
    ensures r.Wrapped().IsFull() == r.IsFull() && r.Wrapped().IsEmpty() == r.IsEmpty()
  {
    WrappedIndex(r);
    Successor(r.tail, |r.slots|);
  }

  lemma GrowingAdd(r: Ring, item: int)
    requires r.Valid() && !r.wraps
    ensures r.Add(item).WriteOutOfBounds? <==> r.tail == |r.slots| && !r.IsFull()
    ensures r.Add(item).Stored? ==>
              r.Add(item).ring.Valid() && r.Wrapped().Add(item) == Stored(r.Add(item).ring.Wrapped())
    ensures r.Add(item).Stored? ==>
              !r.Add(item).ring.wraps && r.Add(item).ring.tail == r.tail + 1
              && |r.Add(item).ring.slots| == |r.slots|
    ensures r.Add(item).Refused? <==> r.Wrapped().Add(item) == Refused
  {
    GrowingMatchesWrapped(r);
    WrappedIndex(r);
    Successor(r.tail, |r.slots|);
    if r.Add(item).Stored? {
      var r' := r.Add(item).ring;
      assert r'.Valid();
      WrappedIndex(r');
    }
  }

  lemma GrowingPop(r: Ring)
    requires r.Valid() && !r.wraps
    ensures match r.Pop()
            case Taken(r', out) => r'.Valid() && r.Wrapped().Pop() == Taken(r'.Wrapped(), out)
            case Nothing => r.Wrapped().Pop() == Nothing
            case ReadOutOfBounds => false
  {
    GrowingMatchesWrapped(r);
    WrappedIndex(r);
    Successor(r.head, |r.slots|);
    if r.Pop().Taken? {
      var r' := r.Pop().ring;
      assert r'.Valid();
      WrappedIndex(r');
    }
  }

  // Buffer in src/concurrency/semaphore.c.
  class Buffer {
    var head: nat
    var tail: nat
    const size: nat
    const buf: array<int>

    ghost predicate Valid()
      reads this, buf
    {
      size == buf.Length && View().Valid()
    }

    ghost function View(): Ring
      reads this, buf
    {
      Ring(head, tail, buf[..], true)
    }

    constructor (size: nat)
      requires size >= 2
      ensures Valid() && this.size == size && fresh(buf) && View().Contents() == []
    {
      this.size := size;
      head, tail := 0, 0;
      buf := new int[size](_ => 0);
    }

    method IsFull() returns (full: bool)
      requires Valid()
      ensures full <==> |View().Contents()| == size - 1
    {
      TestsAreExact(View());
      full := head == (tail + 1) % size;
    }

    method IsEmpty() returns (empty: bool)
      requires Valid()
      ensures empty <==> View().Contents() == []
    {
      TestsAreExact(View());
      empty := head == tail;
    }

    method AddItem(i: int) returns (ok: bool)
      requires Valid()
      modifies this, buf
      ensures Valid()
      ensures ok <==> |old(View().Contents())| < size - 1
      ensures View().Contents() == if ok then old(View().Contents()) + [i] else old(View().Contents())
      ensures old(View()).Add(i) == if ok then Stored(View()) else Refused
      ensures !ok ==> View() == old(View())
    {
      ghost var was := View();
      AddAppends(was, i);
      var full := IsFull();
      if full {
        return false;
      }
      buf[tail] := i;
      tail := (tail + 1) % size;
      assert View() == was.Add(i).ring;
      ok := true;
    }

    // `r` keeps the caller's value when there is nothing to take.
    method PopItem(initial: int) returns (ok: bool, r: int)
      requires Valid()
      modifies this
      ensures Valid()
      ensures ok <==> old(View().Contents()) != []
      ensures ok ==> old(View().Contents()) == [r] + View().Contents()
      ensures old(View()).Pop() == if ok then Taken(View(), r) else Nothing
      ensures !ok ==> View() == old(View()) && r == initial
    {
      hide Ring.Contents;
      ghost var was := View();
      PopTakesOldest(was);
      var empty := IsEmpty();
      if empty {
        return false, initial;
      }
      r := buf[head];
      head := (head + 1) % size;
      assert View() == was.Pop().ring;
      ok := true;
    }
  }

  // TaskQueue in src/concurrency/MPMC.c, whose indices are never wrapped. A task is its
  // sequence number.
  class TaskQueue {
    const t: array<int>
    var head: nat
    var tail: nat
    const size: nat

    ghost predicate Valid()
      reads this, t
    {
      size == t.Length && View().Valid()
    }

    ghost function View(): Ring
      reads this, t
    {
      Ring(head, tail, t[..], false)
    }

    constructor (size: nat)
      requires size >= 2
      ensures Valid() && this.size == size && fresh(t) && View().Contents() == []
    {
      this.size := size;
      head, tail := 0, 0;
      t := new int[size](_ => 0);
    }

    // -1 when full. `wild` if the write would be outside the array, where the model stops.
    method AddItem(tk: int) returns (r: int, wild: bool)
      requires Valid()
      modifies this, t
      ensures Valid()
      ensures wild <==> old(tail) == size && |old(View().Contents())| < size - 1
      ensures !wild ==> r == if |old(View().Contents())| == size - 1 then -1 else 0
      ensures View().Contents() == if r == 0 && !wild then old(View().Contents()) + [tk] else old(View().Contents())
      ensures old(View()).Add(tk) == if wild then WriteOutOfBounds else if r == 0 then Stored(View()) else Refused
      ensures wild || r == -1 ==> View() == old(View())
    {
      ghost var was := View();
      TestsAreExact(was);
      GrowingAdd(was, tk);
      if head == (tail + 1) % size {
        return -1, false;
      }
      if tail == size {
        return 0, true;
      }
      t[tail] := tk;
      tail := tail + 1;
      assert View() == was.Add(tk).ring;
      r, wild := 0, false;
    }

    method PopItem(initial: int) returns (r: int, tk: int)
      requires Valid()
      modifies this
      ensures Valid()
      ensures r == 0 || r == -1
      ensures r == -1 <==> old(View().Contents()) == []
      ensures r == 0 ==> old(View().Contents()) == [tk] + View().Contents()
      ensures old(View()).Pop() == if r == 0 then Taken(View(), tk) else Nothing
      ensures r == -1 ==> View() == old(View()) && tk == initial
    {
      TestsAreExact(View());
      if head == tail {
        return -1, initial;
      }
      tk := t[head];
      head := head + 1;
      r := 0;
    }
  }
}

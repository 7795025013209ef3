/** The ring used by one thread at a time: the same code as an object over an array.  What the two
    threads see of it at once is the subject of SpscRing. */
module RingQueue {
  import opened Modular

  /** What becomes of `q` when `items` are pushed one by one: those beyond the room are refused. */
  function Filled<T>(q: seq<T>, items: seq<T>, capacity: nat): seq<T>
    requires |q| < capacity
  {
    q + items[..if |items| < capacity - 1 - |q| then |items| else capacity - 1 - |q|]
  }

  lemma FilledSnoc<T>(q: seq<T>, items: seq<T>, value: T, capacity: nat)
    requires |q| < capacity
    ensures var f := Filled(q, items, capacity);
            Filled(q, items + [value], capacity) == if |f| < capacity - 1 then f + [value] else f
  {
  }

  /** The queue at the attempt that ends a timed pop: attempt i + 1 comes after clock reading i, which is below
      the timeout, and after `arrivals[i]` have been pushed. */
  function AtEnd<T(==)>(
      q: seq<T>, capacity: nat, timeoutMs: int, elapsed: seq<int>, arrivals: seq<seq<T>>, i: nat): seq<T>
    requires |q| < capacity && |elapsed| == |arrivals|
    decreases |elapsed| - i
  {
    if q != [] || i >= |elapsed| || elapsed[i] >= timeoutMs then q
    else AtEnd(Filled(q, arrivals[i], capacity), capacity, timeoutMs, elapsed, arrivals, i + 1)
  }

  lemma AtEndNext<T>(capacity: nat, timeoutMs: int, elapsed: seq<int>, arrivals: seq<seq<T>>, i: nat)
    requires capacity > 0 && |elapsed| == |arrivals| && i < |elapsed| && elapsed[i] < timeoutMs
    ensures AtEnd([], capacity, timeoutMs, elapsed, arrivals, i)
         == AtEnd(Filled([], arrivals[i], capacity), capacity, timeoutMs, elapsed, arrivals, i + 1)
  {
  }

  /** An attempt that fails in time, and what the queue holds at the next. */
  ghost predicate Waits<T>(q: seq<T>, next: seq<T>, inTime: bool, items: seq<T>, capacity: nat) {
    capacity > 0 && q == [] && inTime && next == Filled([], items, capacity)
  }

  lemma {:induction false} TrailEnd<T>(
      trail: seq<seq<T>>, capacity: nat, timeoutMs: int, elapsed: seq<int>, arrivals: seq<seq<T>>, i: nat)
    requires |elapsed| == |arrivals| && i < |trail| <= |elapsed| && |trail[i]| < capacity
    requires forall k :: i <= k < |trail| - 1 ==>
               Waits(trail[k], trail[k + 1], elapsed[k] < timeoutMs, arrivals[k], capacity)
    requires trail[|trail| - 1] != [] || elapsed[|trail| - 1] >= timeoutMs
    ensures AtEnd(trail[i], capacity, timeoutMs, elapsed, arrivals, i) == trail[|trail| - 1]
    decreases |trail| - i
  {
    if i < |trail| - 1 {
      assert Waits(trail[i], trail[i + 1], elapsed[i] < timeoutMs, arrivals[i], capacity);
      AtEndNext(capacity, timeoutMs, elapsed, arrivals, i);
      TrailEnd(trail, capacity, timeoutMs, elapsed, arrivals, i + 1);
    }
  }

  /** Nothing that arrives in time is missed: the timed pop ends empty exactly when the queue was empty and
      nothing arrived, or had room, before the clock reached the timeout. */
  lemma {:induction false} AtEndEmpty<T>(
      q: seq<T>, capacity: nat, timeoutMs: int, elapsed: seq<int>, arrivals: seq<seq<T>>, i: nat)
    requires |q| < capacity && |elapsed| == |arrivals|
    ensures AtEnd(q, capacity, timeoutMs, elapsed, arrivals, i) == [] <==>
            q == [] && forall j :: i <= j < |elapsed| && (forall k :: i <= k <= j ==> elapsed[k] < timeoutMs) ==>
                         arrivals[j] == [] || capacity == 1
    decreases |elapsed| - i
  {
    if q == [] && i < |elapsed| && elapsed[i] < timeoutMs {
      var next := Filled(q, arrivals[i], capacity);
      assert next == [] <==> arrivals[i] == [] || capacity == 1;
      AtEndEmpty(next, capacity, timeoutMs, elapsed, arrivals, i + 1);
    }
  }

  /** What it ends with: what was queued, or else what first arrives in time, as much of it as there is room for. */
  lemma {:induction false} AtEndFirst<T>(
      capacity: nat, timeoutMs: int, elapsed: seq<int>, arrivals: seq<seq<T>>, i: nat, j: nat)
    requires capacity > 1 && i <= j < |elapsed| == |arrivals|
    requires (forall k :: i <= k <= j ==> elapsed[k] < timeoutMs) && forall k :: i <= k < j ==> arrivals[k] == []
    requires arrivals[j] != []
    ensures forall q :: q != [] && |q| < capacity ==> AtEnd(q, capacity, timeoutMs, elapsed, arrivals, i) == q
    ensures AtEnd([], capacity, timeoutMs, elapsed, arrivals, i)
         == if |arrivals[j]| < capacity then arrivals[j] else arrivals[j][..capacity - 1]
    decreases j - i
  {
    AtEndNext(capacity, timeoutMs, elapsed, arrivals, i);
    if i < j {
      assert Filled([], arrivals[i], capacity) == [];
      AtEndFirst(capacity, timeoutMs, elapsed, arrivals, i + 1, j);
    }
  }

  class MyFifoQueueNL<T(0)> {
    const buffer: array<T>
    const capacity: nat
    var readIndex: nat
    var writeIndex: nat

    ghost predicate Valid()
      reads this
    {
      capacity > 0 && buffer.Length == capacity && readIndex < capacity && writeIndex < capacity
    }

    /** The queued items, oldest first. */
    ghost function Contents(): (items: seq<T>)
      requires Valid()
      reads this, buffer
      ensures |items| < capacity
    {
      if readIndex <= writeIndex then buffer[readIndex..writeIndex]
      else buffer[readIndex..] + buffer[..writeIndex]
    }

    constructor (capacity: nat)
      requires capacity > 0
      ensures Valid() && fresh(buffer) && this.capacity == capacity && Contents() == []
    {
      this.capacity := capacity;
      buffer := new T[capacity];
      readIndex, writeIndex := 0, 0;
    }

    method Empty() returns (b: bool)
      requires Valid()
      ensures b <==> Contents() == []
    {
      b := readIndex == writeIndex;
    }

    /** One slot always stays free. */
    method Full() returns (b: bool)
      requires Valid()
      ensures b <==> |Contents()| == capacity - 1
    {
      b := NextIndex(writeIndex, capacity) == readIndex;
    }

    method Size() returns (n: int)
      requires Valid()
      ensures n == |Contents()| < capacity
    {
      if writeIndex >= readIndex {
        n := writeIndex - readIndex;
      } else {
        n := capacity - (readIndex - writeIndex);
      }
    }

    method Clear()
      requires Valid()
      modifies this
      ensures Valid() && Contents() == []
    {
      readIndex := 0;
      writeIndex := 0;
    }

    method Push(value: T) returns (ok: bool)
      requires Valid()
      modifies this`writeIndex, buffer
      ensures Valid()
      ensures ok <==> |old(Contents())| < capacity - 1
      ensures Contents() == if ok then old(Contents()) + [value] else old(Contents())
    {
      var next := NextIndex(writeIndex, capacity);
      if next == readIndex {
        return false;
      }
      buffer[writeIndex] := value;
      writeIndex := next;
      return true;
    }

    method Pop() returns (ok: bool, value: T)
      requires Valid()
      modifies this`readIndex
      ensures Valid()
      ensures ok <==> old(Contents()) != []
      ensures ok ==> value == old(Contents())[0] && Contents() == old(Contents())[1..]
      ensures !ok ==> Contents() == old(Contents())
    {
      value := buffer[readIndex];
      if readIndex == writeIndex {
        return false, value;
      }
      readIndex := NextIndex(readIndex, capacity);
      return true, value;
    }

    /** What a producer does meanwhile: it pushes, whatever push answers. */
    method Arrive(items: seq<T>)
      requires Valid()
      modifies this`writeIndex, buffer
      ensures Valid() && Contents() == Filled(old(Contents()), items, capacity)
    {
      ghost var was, now := Contents(), Contents();
      for i := 0 to |items|
        invariant Valid() && Contents() == now == Filled(was, items[..i], capacity)
      {
        assert items[..i + 1] == items[..i] + [items[i]];
        FilledSnoc(was, items[..i], items[i], capacity);
        var _ := Push(items[i]);
        now := Filled(was, items[..i + 1], capacity);
      }
      assert items[..|items|] == items;
    }

    /** One pop, and the sleep behind it if it fails before the timeout. */
    method Attempt(inTime: bool, items: seq<T>) returns (ok: bool, value: T)
      requires Valid()
      modifies this`readIndex, this`writeIndex, buffer
      ensures Valid() && (ok <==> old(Contents()) != [])
      ensures ok ==> value == old(Contents())[0] && Contents() == old(Contents())[1..]
      ensures !ok ==> Contents() == if inTime then Filled([], items, capacity) else []
    {
      ok, value := Pop();
      if !ok && inTime {
        Arrive(items);
      }
    }

    /** Pop until it succeeds or the clock has passed the timeout; `elapsed[i]` is the i-th reading and
        `arrivals[i]` what is pushed during the sleep behind it. */
    method TryPop(timeoutMs: int, elapsed: seq<int>, arrivals: seq<seq<T>>) returns (ok: bool, value: T)
      requires Valid() && |arrivals| == |elapsed|
      requires exists i :: 0 <= i < |elapsed| && elapsed[i] >= timeoutMs
      modifies this`readIndex, this`writeIndex, buffer
      ensures Valid()
      ensures var q := AtEnd(old(Contents()), capacity, timeoutMs, elapsed, arrivals, 0);
              && (ok <==> q != [])
              && (ok ==> value == q[0] && Contents() == q[1..])
              && (!ok ==> Contents() == [])
    {
      ghost var last :| 0 <= last < |elapsed| && elapsed[last] >= timeoutMs;
      ghost var trail := [Contents()];      // the queue at each attempt
      var i := 0;
      while true
        invariant Valid() && 0 <= i <= last
        invariant |trail| == i + 1 && trail[0] == old(Contents()) && trail[i] == Contents()
        invariant forall k :: 0 <= k < i ==>
                    Waits(trail[k], trail[k + 1], elapsed[k] < timeoutMs, arrivals[k], capacity)
        decreases last - i
      {
        ok, value := Attempt(elapsed[i] < timeoutMs, arrivals[i]);
        if ok || elapsed[i] >= timeoutMs {
          TrailEnd(trail, capacity, timeoutMs, elapsed, arrivals, 0);
          return ok, value;
        }
        trail := trail + [Contents()];
        i := i + 1;
      }
    }

    method Front() returns (ok: bool, value: T)
      requires Valid()
      ensures ok <==> Contents() != []
      ensures ok ==> value == Contents()[0]
    {
      value := buffer[readIndex];
      if readIndex == writeIndex {
        return false, value;
      }
      return true, value;
    }
  }
}

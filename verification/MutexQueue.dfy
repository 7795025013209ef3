/** The mutex-protected queue the ring replaces.  Waiting releases the mutex; `arrivals` is whatever
    producers append before the waiter runs again. */
module MutexQueue {
  import opened Common

  class MyFifoQueue<T(0)> {
    var queue: seq<T>
    ghost var pushed: seq<T>     // everything ever pushed
    ghost var popped: seq<T>     // everything ever popped

    /** Nothing is lost, repeated or reordered. */
    ghost predicate Valid()
      reads this
    {
      pushed == popped + queue
    }

    constructor ()
      ensures Valid() && pushed == [] && popped == []
    {
      queue, pushed, popped := [], [], [];
    }

    method Push(item: T) returns (ok: bool)
      requires Valid()
      modifies this
      ensures Valid() && ok && pushed == old(pushed) + [item] && popped == old(popped)
    {
      queue := queue + [item];
      pushed := pushed + [item];
      return true;
    }

    /** The k-th pop that succeeds returns the k-th item pushed; it fails only when all have been popped. */
    method Pop(item: T) returns (ok: bool, out: T)
      requires Valid()
      modifies this
      ensures Valid() && pushed == old(pushed)
      ensures ok <==> |old(popped)| < |pushed|
      ensures if ok then out == pushed[|old(popped)|] && popped == old(popped) + [out]
              else out == item && popped == old(popped)
    {
      if queue != [] {
        out := queue[0];
        queue := queue[1..];
        popped := popped + [out];
        return true, out;
      }
      return false, item;
    }

    /** What producers append while a consumer waits. */
    method Arrive(arrivals: seq<T>)
      requires Valid()
      modifies this
      ensures Valid() && pushed == old(pushed) + arrivals && popped == old(popped)
    {
      queue := queue + arrivals;
      pushed := pushed + arrivals;
    }

    /** The consumer loop of the queue test: it runs while the done flag is down or the queue is not empty.
        `arrivals[i]` is what producers push up to iteration i, and the flag goes up behind the last of them. */
    method ConsumerThreadFuncPop(item: T, arrivals: seq<seq<T>>) returns (handled: seq<T>, cnt: nat)
      requires Valid()
      modifies this
      ensures Valid() && pushed == old(pushed) + Flatten(arrivals)
      ensures popped == pushed == old(popped) + handled && cnt >= |handled|
    {
      handled, cnt := [], 0;
      var value := item;
      assert arrivals[0..] == arrivals;
      while cnt < |arrivals| || queue != []
        invariant Valid() && |handled| <= cnt && popped == old(popped) + handled
        invariant pushed + Flatten(arrivals[Lesser(cnt, |arrivals|)..]) == old(pushed) + Flatten(arrivals)
        decreases |arrivals| - Lesser(cnt, |arrivals|), |queue|
      {
        if cnt < |arrivals| {
          assert arrivals[cnt..][1..] == arrivals[cnt + 1..];
          Arrive(arrivals[cnt]);
        }
        cnt := cnt + 1;
        var ok;
        ok, value := Pop(value);
        if ok {
          handled := handled + [value];
        }
      }
    }

    /** try_pop, try_pop_p: the wait ends with the truth of its predicate. */
    method TryPop(item: T, arrivals: seq<T>) returns (ok: bool, out: T)
      requires Valid()
      modifies this
      ensures Valid() && pushed == old(pushed) + arrivals
      ensures ok <==> |old(popped)| < |pushed|
      ensures if ok then out == pushed[|old(popped)|] && popped == old(popped) + [out]
              else out == item && popped == old(popped)
    {
      Arrive(arrivals);
      var status := queue != [];
      if !status {
        return false, item;
      }
      out := queue[0];
      queue := queue[1..];
      popped := popped + [out];
      return true, out;
    }

    /** try_pop_np: a plain wait, which may time out with items present or wake with none. */
    method TryPopNp(item: T, arrivals: seq<T>, timedOut: bool) returns (ok: bool, out: T)
      requires Valid()
      modifies this
      ensures Valid() && pushed == old(pushed) + arrivals
      ensures ok <==> |old(popped)| < |pushed|
      ensures if ok then out == pushed[|old(popped)|] && popped == old(popped) + [out]
              else out == item && popped == old(popped)
    {
      Arrive(arrivals);
      if timedOut {
        if queue == [] {
          return false, item;
        }
        out := queue[0];
        queue := queue[1..];
        popped := popped + [out];
        return true, out;
      }
      if queue != [] {
        out := queue[0];
        queue := queue[1..];
        popped := popped + [out];
        return true, out;
      }
      return false, item;
    }

    /** The loop of the batch pops gets what popping one by one would. */
    method Drain() returns (items: seq<T>)
      requires Valid()
      modifies this
      ensures Valid() && pushed == old(pushed) && popped == pushed == old(popped) + items
    {
      items := [];
      while queue != []
        invariant Valid() && pushed == old(pushed) && popped == old(popped) + items
        decreases |queue|
      {
        var item := queue[0];
        items := items + [item];
        queue := queue[1..];
        popped := popped + [item];
      }
    }

    /** try_pop_v_p. */
    method TryPopBatch(items: seq<T>, arrivals: seq<T>) returns (ok: bool, out: seq<T>)
      requires Valid()
      modifies this
      ensures Valid() && pushed == old(pushed) + arrivals && popped == pushed
      ensures ok <==> |old(popped)| < |pushed|
      ensures if ok then popped == old(popped) + out else out == items && popped == old(popped)
    {
      Arrive(arrivals);
      var status := queue != [];
      if !status {
        return false, items;
      }
      out := Drain();
      return out != [], out;
    }

    /** try_pop_v_np: unlike the others it clears the caller's vector on an empty wake-up. */
    method TryPopBatchNp(items: seq<T>, arrivals: seq<T>, timedOut: bool) returns (ok: bool, out: seq<T>)
      requires Valid()
      modifies this
      ensures Valid() && pushed == old(pushed) + arrivals && popped == pushed
      ensures ok <==> |old(popped)| < |pushed|
      ensures if timedOut && !ok then out == items && popped == old(popped) else popped == old(popped) + out
    {
      Arrive(arrivals);
      if timedOut {
        if queue == [] {
          return false, items;
        }
        out := Drain();
        return out != [], out;
      }
      out := Drain();
      return out != [], out;
    }
  }
}

/** What holds of the ring over every run of its two threads. */
module SpscRingTheorems {
  import opened Modular
  import opened SpscRing

  predicate Feasible<T>(s: State<T>, run: seq<Action<T>>)
    decreases run
  {
    run == [] || (Enabled(s, run[0]) && Feasible(Apply(s, run[0]), run[1..]))
  }

  function Run<T>(s: State<T>, run: seq<Action<T>>): State<T>
    requires Feasible(s, run)
    decreases run
  {
    if run == [] then s else Run(Apply(s, run[0]), run[1..])
  }

  lemma {:induction false} RunInv<T>(s: State<T>, run: seq<Action<T>>)
    requires Inv(s) && Feasible(s, run)
    ensures Inv(Run(s, run))
    decreases run
  {
    if run != [] {
      StepInv(s, run[0]);
      RunInv(Apply(s, run[0]), run[1..]);
    }
  }

  /** The slot accesses that come next are ordered by happens-before after every conflicting one. */
  ghost predicate RaceFree<T>(s: State<T>) {
    && (s.prod.PWrite? ==> s.prod.w < |s.lastRead| && s.lastRead[s.prod.w] <= s.pView.readsSeen)
    && (s.cons.CRead? || s.cons.CFrontRead? ==>
          && s.cons.r < |s.slots| && |s.slots[s.cons.r]| > 0
          && s.slots[s.cons.r][|s.slots[s.cons.r]| - 1].stamp <= s.cView.writesSeen)
    && (s.prod.PWrite? && (s.cons.CRead? || s.cons.CFrontRead?) ==> s.prod.w != s.cons.r)
  }

  /** A pending slot write never hits an item that is still to be popped. */
  ghost predicate NoOverwrite<T>(s: State<T>) {
    && s.cap > 0 && 0 <= s.R()
    && (s.prod.PWrite? ==> forall j :: s.R() <= j < s.W() ==> Wrap(j, s.cap) != s.prod.w)
  }

  lemma InvRaceFree<T>(s: State<T>)
    requires Inv(s)
    ensures RaceFree(s) && NoOverwrite(s)
  {
    if s.prod.PWrite? {
      assert AllReleased(s.lastRead, s.rHist, s.W());
      assert FreedBy(s.W(), s.cap) <= s.pView.r;
      assert s.rHist[FreedBy(s.W(), s.cap)].view.readsSeen <= s.rHist[s.pView.r].view.readsSeen;
      forall j | s.R() <= j < s.W() ensures Wrap(j, s.cap) != s.prod.w {
        WrapInjective(j, s.W(), s.cap);
      }
    }
    if s.cons.CRead? || s.cons.CFrontRead? {
      assert Holds(s.slots[Wrap(s.R(), s.cap)], Written(s)[s.R()], s.R() + 1);
    }
  }

  /** At most cap - 1 items are in flight, each in its own slot, and the popped items followed by those
      in flight are the accepted ones in order. */
  ghost predicate InOrder<T>(s: State<T>) {
    && s.cap > 0 && |s.slots| == s.cap
    && 0 <= s.R() <= s.W() <= s.R() + s.cap - 1
    && |s.accepted| == s.W() && |s.popped| == s.R()
    && s.popped + s.InFlight() == s.accepted
    && forall j :: s.R() <= j < s.W() ==> Holds(s.slots[Wrap(j, s.cap)], s.accepted[j], j + 1)
  }

  lemma InvInOrder<T>(s: State<T>)
    requires Inv(s)
    ensures InOrder(s)
  {
    forall j | s.R() <= j < s.W() ensures Holds(s.slots[Wrap(j, s.cap)], s.accepted[j], j + 1) {
      assert s.accepted[j] == Written(s)[j];
    }
  }

  /** Safety of every run of the two threads: order and capacity hold, no slot that is still to be
      popped is overwritten, and no two conflicting slot accesses race. */
  lemma RingSafety<T>(cap: nat, zero: T, run: seq<Action<T>>)
    requires cap > 0 && Feasible(Initial(cap, zero), run)
    ensures var s := Run(Initial(cap, zero), run); s.cap == cap && InOrder(s) && RaceFree(s) && NoOverwrite(s)
  {
    InitialInv(cap, zero);
    RunInv(Initial(cap, zero), run);
    CapConstant(Initial(cap, zero), run);
    InvInOrder(Run(Initial(cap, zero), run));
    InvRaceFree(Run(Initial(cap, zero), run));
  }

  lemma {:induction false} CapConstant<T>(s: State<T>, run: seq<Action<T>>)
    requires Feasible(s, run)
    ensures Run(s, run).cap == s.cap
    decreases run
  {
    if run != [] {
      CapConstant(Apply(s, run[0]), run[1..]);
    }
  }

  /** What a step may do to a mutex-protected FIFO queue holding `queue`. */
  datatype FifoStep<T> = Skip | Enqueue(value: T) | Dequeue(value: T)

  predicate FifoRelates<T(==)>(before: seq<T>, step: FifoStep<T>, after: seq<T>) {
    match step
    case Skip => after == before
    case Enqueue(value) => after == before + [value]
    case Dequeue(value) => before != [] && value == before[0] && after == before[1..]
  }

  /** The abstract step: a push takes effect at its release store, a pop at its own. */
  function Abstract<T>(s: State<T>, a: Action<T>): FifoStep<T>
    requires Enabled(s, a)
  {
    if a.PushStore? then Enqueue(s.prod.value)
    else if a.PopStore? then Dequeue(s.cons.value)
    else Skip
  }

  /** The ring refines a plain FIFO queue: every step is one queue operation or none, and the value
      a pop returns is the one the queue hands out. */
  lemma RefinesFifo<T>(s: State<T>, a: Action<T>)
    requires Inv(s) && Enabled(s, a)
    ensures |Apply(s, a).popped| <= |Apply(s, a).accepted|
    ensures FifoRelates(s.InFlight(), Abstract(s, a), Apply(s, a).InFlight())
    ensures a.PopStore? ==> Apply(s, a).popped == s.popped + [s.cons.value]
  {
    if a.PushStore? {
      assert Apply(s, a).InFlight() == s.InFlight() + [s.prod.value];
    } else if a.PopStore? {
      PopStoreFifo(s);
    } else {
      OtherStepFifo(s, a);
    }
  }

  lemma OtherStepFifo<T>(s: State<T>, a: Action<T>)
    requires Enabled(s, a) && !a.PushStore? && !a.PopStore?
    ensures Apply(s, a).popped == s.popped && Apply(s, a).accepted == s.accepted
  {
  }

  lemma PopStoreFifo<T>(s: State<T>)
    requires HistoryOk(s) && s.cons.CStore? && s.cap > 0
    ensures var t := DoPopStore(s);
            && t.popped == s.popped + [s.cons.value] && t.accepted == s.accepted && |t.popped| <= |t.accepted|
            && s.InFlight() != [] && s.cons.value == s.InFlight()[0] && t.InFlight() == s.InFlight()[1..]
  {
  }

  /** A push is refused exactly when the read index it observes is cap - 1 behind; when the load is
      not stale that is exactly when the queue holds cap - 1 items. */
  lemma RefusalExact<T>(s: State<T>, m: nat)
    requires Inv(s) && Enabled(s, PushLoadRead(m))
    ensures Apply(s, PushLoadRead(m)).prod.PIdle? <==> s.W() - m == s.cap - 1
    ensures m == s.R() ==> (Apply(s, PushLoadRead(m)).prod.PIdle? <==> |s.InFlight()| == s.cap - 1)
    ensures |s.InFlight()| == s.cap - 1 ==> Apply(s, PushLoadRead(m)).prod.PIdle?
  {
    PushLoadReadInv(s, m);
  }

  /** A pop fails exactly when the write index it observes is its own counter; a queue with no item
      always makes it fail. */
  lemma EmptyPopExact<T>(s: State<T>, m: nat)
    requires Inv(s) && Enabled(s, PopLoadWrite(m))
    ensures Apply(s, PopLoadWrite(m)).cons.CIdle? <==> m == s.R()
    ensures m == s.W() ==> (Apply(s, PopLoadWrite(m)).cons.CIdle? <==> s.InFlight() == [])
  {
    PopLoadWriteInv(s, m);
  }

  /** A producer that saw full() == false is not refused by its next push, whatever is loaded. */
  lemma RoomPromiseKept<T>(s: State<T>, m: nat)
    requires Inv(s) && s.roomPromised && Enabled(s, PushLoadRead(m))
    ensures Apply(s, PushLoadRead(m)).prod.PWrite?
  {
    PushLoadReadInv(s, m);
  }

  /** A consumer that saw empty() == false, or a value from front(), gets an item from its next pop. */
  lemma ItemPromiseKept<T>(s: State<T>, m: nat)
    requires Inv(s) && (s.itemPromised || s.peeked.Some?) && Enabled(s, PopLoadWrite(m))
    ensures Apply(s, PopLoadWrite(m)).cons.CRead?
  {
    PopLoadWriteInv(s, m);
  }

  /** The promises survive every step except the push or pop that uses them up. */
  lemma PromisesStable<T>(s: State<T>, a: Action<T>)
    requires Inv(s) && Enabled(s, a)
    ensures s.roomPromised && !a.PushStore? && !a.FullLoadWrite? ==> Apply(s, a).roomPromised
    ensures s.itemPromised && !a.PopStore? && !a.EmptyLoadWrite? ==> Apply(s, a).itemPromised
    ensures s.roomPromised && a.FullLoadWrite? ==> Apply(s, a).roomPromised
    ensures s.itemPromised && a.EmptyLoadWrite? ==> Apply(s, a).itemPromised
  {
    match a
    case PushLoadRead(m) => PushLoadReadInv(s, m);
    case PopLoadWrite(m) => PopLoadWriteInv(s, m);
    case FullLoadWrite(m) => FullLoadWriteInv(s, m);
    case EmptyLoadWrite(m) => EmptyLoadWriteInv(s, m);
    case _ =>
  }

  /** What front() returned is what the next pop returns. */
  lemma FrontIsNextPop<T>(s: State<T>, a: Action<T>)
    requires Inv(s) && Enabled(s, a) && a.PopStore? && s.peeked.Some?
    ensures Apply(s, a).popped == s.popped + [s.peeked.value]
  {
  }

  /** size(): the wrapped difference. */
  function SizeOf(w: nat, r: nat, cap: nat): int {
    if w >= r then w - r else cap - (r - w)
  }

  /** size() returns the distance of the two counters it read, however often they have wrapped. */
  lemma {:induction false} SizeExact(w: nat, r: nat, cap: nat)
    requires cap > 0 && r <= w <= r + cap - 1
    ensures SizeOf(Wrap(w, cap), Wrap(r, cap), cap) == w - r
    decreases r
  {
    if r >= cap {
      SizeExact(w - cap, r - cap, cap);
    } else if w >= cap {
      assert Wrap(w, cap) == w - cap;
    }
  }

  predicate OfProducer<T>(a: Action<T>) {
    a.PushLoadWrite? || a.PushLoadRead? || a.PushWriteSlot? || a.PushStore? || a.FullLoadRead? || a.FullLoadWrite?
  }

  predicate AllOf<T>(run: seq<Action<T>>, producer: bool) {
    forall i :: 0 <= i < |run| ==> OfProducer(run[i]) == producer
  }

  /** What a step of one thread leaves alone of what the other goes by. */
  ghost predicate OtherKept<T>(s: State<T>, t: State<T>, producer: bool) {
    && t.cap == s.cap
    && (if producer then t.rHist == s.rHist && t.cView == s.cView && s.wHist <= t.wHist
        else t.wHist == s.wHist && t.pView == s.pView && s.rHist <= t.rHist)
  }

  lemma StepKeepsOther<T>(s: State<T>, a: Action<T>)
    requires Enabled(s, a)
    ensures OtherKept(s, Apply(s, a), OfProducer(a))
  {
  }

  lemma {:induction false} RunKeepsOther<T>(s: State<T>, run: seq<Action<T>>, producer: bool)
    requires Feasible(s, run) && AllOf(run, producer)
    ensures OtherKept(s, Run(s, run), producer)
    decreases run
  {
    if run != [] {
      StepKeepsOther(s, run[0]);
      RunKeepsOther(Apply(s, run[0]), run[1..], producer);
    }
  }

  /** size() called by the producer: it loads write_index_, the consumer may run, it loads read_index_.  The
      result never falls below the number of items queued by then, nor reaches the capacity. */
  lemma SizeByProducer<T>(s: State<T>, k: nat, run: seq<Action<T>>, m: nat)
    requires Inv(s) && MayLoad(s.wHist, s.pView.w, k)
    requires Feasible(s, run) && AllOf(run, false) && MayLoad(Run(s, run).rHist, Run(s, run).pView.r, m)
    ensures var t := Run(s, run);
            && |t.popped| <= |t.accepted|
            && SizeOf(s.wHist[k].index, t.rHist[m].index, s.cap) == t.W() - m
            && |t.InFlight()| <= t.W() - m <= s.cap - 1
  {
    RunInv(s, run);
    RunKeepsOther(s, run, false);
    ProducerSize(s, Run(s, run), k, m);
  }

  lemma ProducerSize<T>(s: State<T>, t: State<T>, k: nat, m: nat)
    requires Inv(t) && OtherKept(s, t, false) && MayLoad(s.wHist, s.pView.w, k) && MayLoad(t.rHist, t.pView.r, m)
    ensures |t.popped| <= |t.accepted|
    ensures SizeOf(s.wHist[k].index, t.rHist[m].index, s.cap) == t.W() - m && |t.InFlight()| <= t.W() - m <= s.cap - 1
  {
    SizeExact(t.W(), m, t.cap);
  }

  /** Called by the consumer the result never exceeds the number of items queued, and counts every item it has
      been shown. */
  lemma SizeByConsumer<T>(s: State<T>, k: nat, run: seq<Action<T>>, m: nat)
    requires Inv(s) && MayLoad(s.wHist, s.cView.w, k)
    requires Feasible(s, run) && AllOf(run, true) && MayLoad(Run(s, run).rHist, Run(s, run).cView.r, m)
    ensures var t := Run(s, run);
            && |t.popped| <= |t.accepted|
            && SizeOf(s.wHist[k].index, t.rHist[m].index, s.cap) == k - s.R()
            && s.cView.w - s.R() <= k - s.R() <= |t.InFlight()|
  {
    RunInv(s, run);
    RunKeepsOther(s, run, true);
    ConsumerSize(s, k);
    ConsumerSees(s, Run(s, run), k, m);
  }

  lemma ConsumerSees<T>(s: State<T>, t: State<T>, k: nat, m: nat)
    requires HistoryOk(t) && OtherKept(s, t, true) && |s.rHist| > 0 && s.cView.r == s.R() && k <= s.W()
    requires MayLoad(t.rHist, t.cView.r, m)
    ensures |t.popped| <= |t.accepted| && m == s.R() && t.rHist[m] == s.rHist[m] && k - s.R() <= |t.InFlight()|
  {
  }

  lemma ConsumerSize<T>(s: State<T>, k: nat)
    requires Inv(s) && MayLoad(s.wHist, s.cView.w, k)
    ensures s.cView.r == s.R() >= 0 && s.R() <= k <= s.W()
    ensures SizeOf(s.wHist[k].index, s.rHist[s.R()].index, s.cap) == k - s.R()
  {
    SizeExact(k, s.R(), s.cap);
  }

  // ---------------------------------------------------------------- one thread running alone

  lemma RunCons<T>(s: State<T>, a: Action<T>, rest: seq<Action<T>>)
    requires Enabled(s, a) && Feasible(Apply(s, a), rest)
    ensures Feasible(s, [a] + rest) && Run(s, [a] + rest) == Run(Apply(s, a), rest)
  {
    assert ([a] + rest)[1..] == rest;
  }

  /** A whole pop that is not disturbed: the contract of the sequential queue's pop. */
  ghost predicate PopsAlone<T>(s: State<T>, t: State<T>) {
    && |s.popped| <= |s.accepted| && |t.popped| <= |t.accepted|
    && t.cons.CIdle? && t.prod == s.prod
    && (if s.InFlight() == [] then t.popped == s.popped && t.InFlight() == []
        else t.popped == s.popped + [s.InFlight()[0]] && t.InFlight() == s.InFlight()[1..])
  }

  ghost predicate PushesAlone<T>(s: State<T>, t: State<T>, value: T) {
    && |s.popped| <= |s.accepted| && |t.popped| <= |t.accepted|
    && t.prod.PIdle? && t.cons == s.cons && t.popped == s.popped && t.completed == s.completed + [value]
    && (if |s.InFlight()| == s.cap - 1 then t.InFlight() == s.InFlight() && t.refused == s.refused + 1
        else t.InFlight() == s.InFlight() + [value] && t.refused == s.refused)
  }

  lemma WriteAndStore<T>(s: State<T>) returns (run: seq<Action<T>>)
    requires Inv(s) && s.prod.PWrite?
    ensures Feasible(s, run)
    ensures var t := Run(s, run);
            && t.prod.PIdle? && t.cons == s.cons && t.popped == s.popped && t.refused == s.refused
            && t.accepted == s.accepted + [s.prod.value] && t.completed == s.completed + [s.prod.value]
  {
    PushWriteSlotInv(s);
    var u := DoPushWriteSlot(s);
    RunCons(u, PushStore, []);
    RunCons(s, PushWriteSlot, [PushStore]);
    run := [PushWriteSlot] + [PushStore];
  }

  /** From the full test on, `run` does what is left of a push. */
  ghost predicate FinishesPush<T>(s: State<T>, t: State<T>) {
    && t.prod.PIdle? && t.cons == s.cons && t.popped == s.popped
    && (if s.prod.PIdle? then t.accepted == s.accepted && t.completed == s.completed && t.refused == s.refused
        else s.prod.PWrite? && t.refused == s.refused
             && t.accepted == s.accepted + [s.prod.value] && t.completed == s.completed + [s.prod.value])
  }

  lemma FinishPush<T>(s: State<T>) returns (run: seq<Action<T>>)
    requires Inv(s) && (s.prod.PIdle? || s.prod.PWrite?)
    ensures Feasible(s, run) && FinishesPush(s, Run(s, run))
  {
    if s.prod.PIdle? {
      run := [];
    } else {
      run := WriteAndStore(s);
    }
  }

  lemma PushedAlone<T>(s: State<T>, t: State<T>)
    requires s.prod.PLoadRead? && s.R() >= 0 && s.cap > 0 && |s.popped| <= |s.accepted|
    requires var u := DoPushLoadRead(s, s.R());
             (u.prod.PIdle? <==> |s.InFlight()| == s.cap - 1) && FinishesPush(u, t)
    ensures PushesAlone(s, t, s.prod.value)
  {
    assert s.accepted[|s.popped|..] + [s.prod.value] == (s.accepted + [s.prod.value])[|s.popped|..];
  }

  lemma TestAndWrite<T>(s: State<T>) returns (run: seq<Action<T>>)
    requires Inv(s) && s.prod.PLoadRead?
    ensures Feasible(s, run) && PushesAlone(s, Run(s, run), s.prod.value)
  {
    var r: nat := s.R();
    PushLoadReadInv(s, r);
    run := FinishPush(DoPushLoadRead(s, r));
    RunCons(s, PushLoadRead(r), run);
    PushedAlone(s, Run(DoPushLoadRead(s, r), run));
    run := [PushLoadRead(r)] + run;
  }

  /** A producer that runs alone and loads the newest indices pushes as the sequential queue does. */
  lemma SoloPush<T>(s: State<T>, value: T) returns (run: seq<Action<T>>)
    requires Inv(s) && s.prod.PIdle?
    ensures Feasible(s, run) && PushesAlone(s, Run(s, run), value)
  {
    var w: nat := s.W();
    PushLoadWriteInv(s, value, w);
    run := TestAndWrite(DoPushLoadWrite(s, value, w));
    RunCons(s, PushLoadWrite(value, w), run);
    run := [PushLoadWrite(value, w)] + run;
  }

  lemma ReadAndStore<T>(s: State<T>) returns (run: seq<Action<T>>)
    requires Inv(s) && s.cons.CRead?
    ensures Feasible(s, run) && 0 <= s.R() < s.W() == |s.accepted|
    ensures var t := Run(s, run);
            t.cons.CIdle? && t.prod == s.prod && t.accepted == s.accepted && t.popped == s.popped + [s.accepted[s.R()]]
  {
    ReadSlotInv(s);
    var slot := s.slots[s.cons.r];
    assert Holds(slot, Written(s)[s.R()], s.R() + 1);
    var p: nat := |slot| - 1;
    ReadIsExact(s, p);
    var u := DoPopReadSlot(s, p);
    RunCons(u, PopStore, []);
    RunCons(s, PopReadSlot(p), [PopStore]);
    run := [PopReadSlot(p)] + [PopStore];
  }

  /** From the empty test on, `run` does what is left of a pop. */
  ghost predicate FinishesPop<T>(s: State<T>, t: State<T>) {
    && t.cons.CIdle? && t.prod == s.prod && t.accepted == s.accepted
    && (if s.cons.CIdle? then t.popped == s.popped
        else |s.popped| < |s.accepted| && t.popped == s.popped + [s.accepted[|s.popped|]])
  }

  lemma FinishPop<T>(s: State<T>) returns (run: seq<Action<T>>)
    requires Inv(s) && (s.cons.CIdle? || s.cons.CRead?)
    ensures Feasible(s, run) && FinishesPop(s, Run(s, run))
  {
    if s.cons.CIdle? {
      run := [];
    } else {
      run := ReadAndStore(s);
    }
  }

  lemma PoppedAlone<T>(s: State<T>, t: State<T>)
    requires s.cons.CLoadWrite? && s.W() >= 0 && |s.popped| <= |s.accepted|
    requires var u := DoPopLoadWrite(s, s.W()); (u.cons.CIdle? <==> s.InFlight() == []) && FinishesPop(u, t)
    ensures PopsAlone(s, t)
  {
  }

  lemma TestAndRead<T>(s: State<T>) returns (run: seq<Action<T>>)
    requires Inv(s) && s.cons.CLoadWrite?
    ensures Feasible(s, run) && PopsAlone(s, Run(s, run))
  {
    var w: nat := s.W();
    PopLoadWriteInv(s, w);
    run := FinishPop(DoPopLoadWrite(s, w));
    RunCons(s, PopLoadWrite(w), run);
    PoppedAlone(s, Run(DoPopLoadWrite(s, w), run));
    run := [PopLoadWrite(w)] + run;
  }

  /** A consumer that runs alone and loads the newest indices pops as the sequential queue does. */
  lemma SoloPop<T>(s: State<T>) returns (run: seq<Action<T>>)
    requires Inv(s) && s.cons.CIdle?
    ensures Feasible(s, run) && PopsAlone(s, Run(s, run))
  {
    var r: nat := s.R();
    PopLoadReadInv(s, r);
    run := TestAndRead(DoPopLoadRead(s, r));
    RunCons(s, PopLoadRead(r), run);
    run := [PopLoadRead(r)] + run;
  }

  // ---------------------------------------------------------------- how many pushes are never refused

  lemma {:induction false} RunAppend<T>(s: State<T>, a: seq<Action<T>>, b: seq<Action<T>>)
    requires Feasible(s, a) && Feasible(Run(s, a), b)
    ensures Feasible(s, a + b) && Run(s, a + b) == Run(Run(s, a), b)
    decreases |a|
  {
    if a == [] {
      assert a + b == b;
    } else {
      assert (a + b)[1..] == a[1..] + b;
      RunAppend(Apply(s, a[0]), a[1..], b);
    }
  }

  /** A producer that is left alone pushes until the ring is full. */
  lemma {:induction false} FillUp<T>(s: State<T>, value: T, k: nat) returns (run: seq<Action<T>>)
    requires Inv(s) && s.prod.PIdle? && |s.InFlight()| + k <= s.cap - 1
    ensures Feasible(s, run)
    ensures var t := Run(s, run);
            && Inv(t) && t.prod.PIdle? && t.cap == s.cap && t.refused == s.refused
            && |t.InFlight()| == |s.InFlight()| + k && |t.completed| == |s.completed| + k
    decreases k
  {
    if k == 0 {
      run := [];
    } else {
      run := SoloPush(s, value);
      RunInv(s, run);
      CapConstant(s, run);
      var more := FillUp(Run(s, run), value, k - 1);
      RunAppend(s, run, more);
      run := run + more;
    }
  }

  /** And the push after that is refused. */
  lemma OverfillRun<T>(cap: nat, zero: T) returns (run: seq<Action<T>>)
    requires cap > 0
    ensures Feasible(Initial(cap, zero), run)
    ensures var t := Run(Initial(cap, zero), run); |t.completed| == cap && t.refused == 1
  {
    var s := Initial(cap, zero);
    InitialInv(cap, zero);
    run := FillUp(s, zero, cap - 1);
    var t := Run(s, run);
    var last := SoloPush(t, zero);
    RunAppend(s, run, last);
    run := run + last;
  }

  /** No run refuses any of its first k pushes. */
  ghost predicate NeverRefuses<T(!new)>(cap: nat, zero: T, k: nat) {
    forall run: seq<Action<T>> :: Feasible(Initial(cap, zero), run) ==>
      var t := Run(Initial(cap, zero), run);
      |t.completed| <= k ==> t.refused == 0
  }

  /** What a caller can count on: as many pushes as there are usable slots are accepted on every schedule, one
      more is refused on some. */
  lemma NeverRefusesIff<T(!new)>(cap: nat, zero: T, k: nat)
    requires cap > 0
    ensures NeverRefuses(cap, zero, k) <==> k <= cap - 1
  {
    if k <= cap - 1 {
      forall run: seq<Action<T>> | Feasible(Initial(cap, zero), run)
        ensures var t := Run(Initial(cap, zero), run); |t.completed| <= k ==> t.refused == 0
      {
        InitialInv(cap, zero);
        RunInv(Initial(cap, zero), run);
        CapConstant(Initial(cap, zero), run);
      }
    } else {
      var run := OverfillRun(cap, zero);
    }
  }
}

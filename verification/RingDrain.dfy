/** The done-flag protocol of the queue tests: the producer pushes a list of items, retrying each one
    until it is accepted, and then raises a flag; the consumer loops while the flag is down or the
    queue is not empty.

    With `ordered` the flag is stored with release and loaded with acquire semantics; without it the
    flag carries no view, as a plain volatile variable would not. */
module RingDrain {
  import opened Common
  import opened SpscRing

  datatype Loop =
    | CheckFlag      // while (doneFlag == 0 || ...
    | CheckEmpty     //        ... || !queue.empty())
    | Body           // queue.pop(value)
    | Exited

  datatype Drain<T> = Drain(ring: State<T>, items: seq<T>, ordered: bool, flag: Option<View>, loop: Loop)

  datatype DrainAction<T> =
    | Ring(step: Action<T>)
    | RaiseFlag
    | LoadFlag(seen: bool)

  function Start<T>(cap: nat, zero: T, items: seq<T>, ordered: bool): Drain<T> {
    Drain(Initial(cap, zero), items, ordered, None, CheckFlag)
  }

  /** Which ring steps the two loops call for. */
  predicate Calls<T(==)>(d: Drain<T>, a: Action<T>) {
    match a
    case PushLoadWrite(value, _) =>
      d.flag.None? && |d.ring.accepted| < |d.items| && value == d.items[|d.ring.accepted|]
    case PushLoadRead(_) => true
    case PushWriteSlot => true
    case PushStore => true
    case FullLoadRead(_) => false
    case FullLoadWrite(_) => false
    case PopLoadRead(_) => d.loop.Body?
    case PopLoadWrite(_) => d.loop.Body?
    case PopReadSlot(_) => d.loop.Body?
    case PopStore => d.loop.Body?
    case EmptyLoadRead(_) => d.loop.CheckEmpty?
    case EmptyLoadWrite(_) => d.loop.CheckEmpty?
    case FrontLoadRead(_) => false
    case FrontLoadWrite(_) => false
    case FrontReadSlot(_) => false
  }

  predicate DrainEnabled<T(==)>(d: Drain<T>, a: DrainAction<T>) {
    match a
    case Ring(step) => Enabled(d.ring, step) && Calls(d, step)
    case RaiseFlag => d.flag.None? && |d.ring.accepted| == |d.items| && d.ring.prod.PIdle?
    case LoadFlag(seen) => d.loop.CheckFlag? && (seen ==> d.flag.Some?)
  }

  function NextLoop<T>(d: Drain<T>, step: Action<T>, after: State<T>): Loop {
    if step.EmptyLoadWrite? then (if after.itemPromised then Body else Exited)
    else if step.PopStore? || (step.PopLoadWrite? && after.cons.CIdle?) then CheckFlag
    else d.loop
  }

  function DrainApply<T>(d: Drain<T>, a: DrainAction<T>): Drain<T>
    requires DrainEnabled(d, a)
  {
    match a
    case Ring(step) =>
      var after := Apply(d.ring, step);
      d.(ring := after, loop := NextLoop(d, step, after))
    case RaiseFlag => d.(flag := Some(d.ring.pView))
    case LoadFlag(seen) =>
      if !seen then d.(loop := Body)
      else if d.ordered then d.(ring := d.ring.(cView := d.ring.cView.Join(d.flag.value)), loop := CheckEmpty)
      else d.(loop := CheckEmpty)
  }

  predicate DrainFeasible<T(==)>(d: Drain<T>, run: seq<DrainAction<T>>)
    decreases run
  {
    run == [] || (DrainEnabled(d, run[0]) && DrainFeasible(DrainApply(d, run[0]), run[1..]))
  }

  function DrainRun<T(==)>(d: Drain<T>, run: seq<DrainAction<T>>): Drain<T>
    requires DrainFeasible(d, run)
    decreases run
  {
    if run == [] then d else DrainRun(DrainApply(d, run[0]), run[1..])
  }

  /** The accepted items are a prefix of the list, and a push in progress offers the next one. */
  ghost predicate ItemsOk<T>(s: State<T>, items: seq<T>) {
    && |s.accepted| <= |items| && s.accepted == items[..|s.accepted|]
    && (!s.prod.PIdle? ==> !s.prod.PFull? && |s.accepted| < |items| && s.prod.value == items[|s.accepted|])
  }

  /** A raised flag carries the producer's last view, and the producer is done. */
  ghost predicate FlagOk<T>(s: State<T>, items: seq<T>, flag: Option<View>) {
    flag.Some? ==> flag.value == s.pView && |s.accepted| == |items| && s.prod.PIdle?
  }

  /** Past an ordered flag the consumer has seen the last write_index_. */
  ghost predicate LoopOk<T>(d: Drain<T>) {
    && (!d.ring.cons.CIdle? ==> d.loop.CheckEmpty? || d.loop.Body?)
    && (d.ordered && (d.loop.CheckEmpty? || d.loop.Exited?) ==> d.flag.Some? && d.ring.cView.w == d.ring.W())
    && (d.ordered && d.loop.Exited? ==> d.ring.R() == d.ring.W())
  }

  ghost predicate DrainInv<T>(d: Drain<T>) {
    Inv(d.ring) && ItemsOk(d.ring, d.items) && FlagOk(d.ring, d.items, d.flag) && LoopOk(d)
  }

  /** A step of one thread leaves alone everything the other's half of the invariant reads. */
  lemma StepFrame<T>(s: State<T>, a: Action<T>)
    requires Enabled(s, a)
    ensures a.PopLoadRead? || a.PopLoadWrite? || a.PopReadSlot? || a.PopStore?
            || a.EmptyLoadRead? || a.EmptyLoadWrite? ==>
              var t := Apply(s, a);
              t.prod == s.prod && t.accepted == s.accepted && t.pView == s.pView && t.wHist == s.wHist
    ensures a.PushLoadWrite? || a.PushLoadRead? || a.PushWriteSlot? || a.PushStore? ==>
              var t := Apply(s, a);
              t.cons == s.cons && t.popped == s.popped && t.cView == s.cView && t.rHist == s.rHist
  {
  }

  lemma PushStepKeeps<T>(d: Drain<T>, step: Action<T>)
    requires DrainInv(d) && DrainEnabled(d, Ring(step))
    requires step.PushLoadWrite? || step.PushLoadRead? || step.PushWriteSlot?
    ensures DrainInv(DrainApply(d, Ring(step)))
  {
    var e := DrainApply(d, Ring(step));
    StepInv(d.ring, step);
    StepFrame(d.ring, step);
    assert e.ring.wHist == d.ring.wHist && e.ring.accepted == d.ring.accepted;
    assert ItemsOk(e.ring, e.items);
    assert LoopOk(e);
  }

  lemma PushStoreItems<T>(s: State<T>, items: seq<T>)
    requires ItemsOk(s, items) && s.prod.PStore? && s.cap > 0
    ensures ItemsOk(DoPushStore(s), items)
  {
    assert DoPushStore(s).accepted == s.accepted + [s.prod.value];
  }

  lemma PushStoreLoop<T>(d: Drain<T>)
    requires FlagOk(d.ring, d.items, d.flag) && LoopOk(d) && DrainEnabled(d, Ring(PushStore))
    ensures var e := DrainApply(d, Ring(PushStore)); FlagOk(e.ring, e.items, e.flag) && LoopOk(e)
  {
  }

  lemma PushStoreKeeps<T>(d: Drain<T>, step: Action<T>)
    requires DrainInv(d) && DrainEnabled(d, Ring(step)) && step.PushStore?
    ensures DrainInv(DrainApply(d, Ring(step)))
  {
    assert Inv(DoPushStore(d.ring)) by { PushStoreInv(d.ring); }
    PushStoreItems(d.ring, d.items);
    PushStoreLoop(d);
  }

  lemma PopStepKeeps<T>(d: Drain<T>, step: Action<T>)
    requires DrainInv(d) && DrainEnabled(d, Ring(step))
    requires step.PopLoadRead? || step.PopLoadWrite? || step.PopReadSlot? || step.PopStore?
    ensures DrainInv(DrainApply(d, Ring(step)))
  {
    var e := DrainApply(d, Ring(step));
    StepInv(d.ring, step);
    StepFrame(d.ring, step);
    assert ItemsOk(e.ring, e.items) && FlagOk(e.ring, e.items, e.flag);
    assert LoopOk(e);
  }

  lemma EmptyStepKeeps<T>(d: Drain<T>, step: Action<T>)
    requires DrainInv(d) && DrainEnabled(d, Ring(step)) && (step.EmptyLoadRead? || step.EmptyLoadWrite?)
    ensures DrainInv(DrainApply(d, Ring(step)))
  {
    var e := DrainApply(d, Ring(step));
    if step.EmptyLoadWrite? {
      EmptyLoadWriteInv(d.ring, step.m);
    } else {
      EmptyLoadReadInv(d.ring, step.m);
    }
    StepFrame(d.ring, step);
    assert ItemsOk(e.ring, e.items) && FlagOk(e.ring, e.items, e.flag);
    assert d.ordered && d.flag.Some? && step.EmptyLoadWrite? ==> step.m == d.ring.W();
    assert LoopOk(e);
  }

  lemma FlagJoinKeeps<T>(s: State<T>)
    requires Inv(s) && s.prod.PIdle? && s.cons.CIdle?
    ensures Inv(s.(cView := s.cView.Join(s.pView))) && s.cView.Join(s.pView).w == s.W()
  {
    var v := s.cView.Join(s.pView);
    assert s.cView.Below(v);
    var t := s.(cView := v);
    assert HistOk(t);
    assert ViewsOk(t);
    assert ThreadsOk(t);
    assert HistoryOk(t);
    assert Written(t) == Written(s);
    assert SlotsOk(t) && ReadsOk(t);
  }

  lemma DrainStepKeeps<T>(d: Drain<T>, a: DrainAction<T>)
    requires DrainInv(d) && DrainEnabled(d, a)
    ensures DrainInv(DrainApply(d, a))
  {
    match a
    case Ring(step) =>
      if step.EmptyLoadRead? || step.EmptyLoadWrite? {
        EmptyStepKeeps(d, step);
      } else if step.PopLoadRead? || step.PopLoadWrite? || step.PopReadSlot? || step.PopStore? {
        PopStepKeeps(d, step);
      } else if step.PushStore? {
        PushStoreKeeps(d, step);
      } else {
        PushStepKeeps(d, step);
      }
    case RaiseFlag =>
    case LoadFlag(seen) =>
      if seen && d.ordered {
        FlagJoinKeeps(d.ring);
      }
  }

  lemma {:induction false} DrainRunKeeps<T>(d: Drain<T>, run: seq<DrainAction<T>>)
    requires DrainInv(d) && DrainFeasible(d, run)
    ensures DrainInv(DrainRun(d, run)) && DrainRun(d, run).items == d.items && DrainRun(d, run).ordered == d.ordered
    decreases run
  {
    if run != [] {
      DrainStepKeeps(d, run[0]);
      DrainRunKeeps(DrainApply(d, run[0]), run[1..]);
    }
  }

  /** With an ordered flag the consumer leaves its loop only after it has popped every item in order. */
  lemma DrainComplete<T>(cap: nat, zero: T, items: seq<T>, run: seq<DrainAction<T>>)
    requires cap > 0 && DrainFeasible(Start(cap, zero, items, true), run)
    ensures var d := DrainRun(Start(cap, zero, items, true), run);
            && d.ring.popped <= items
            && (d.loop.Exited? ==> d.ring.popped == items)
  {
    InitialInv(cap, zero);
    DrainRunKeeps(Start(cap, zero, items, true), run);
  }

  lemma DrainCons<T>(d: Drain<T>, a: DrainAction<T>, rest: seq<DrainAction<T>>)
    requires DrainEnabled(d, a) && DrainFeasible(DrainApply(d, a), rest)
    ensures DrainFeasible(d, [a] + rest) && DrainRun(d, [a] + rest) == DrainRun(DrainApply(d, a), rest)
  {
    assert ([a] + rest)[1..] == rest;
  }

  /** The newest read_index_ and the newest write_index_ the consumer has seen can make empty() true. */
  ghost predicate SeesEmpty<T>(s: State<T>) {
    && s.R() >= 0
    && var r: nat := s.R();
       && Enabled(s, EmptyLoadRead(r))
       && var t := Apply(s, EmptyLoadRead(r));
          && Enabled(t, EmptyLoadWrite(r))
          && !Apply(t, EmptyLoadWrite(r)).itemPromised && Apply(t, EmptyLoadWrite(r)).popped == s.popped
  }

  lemma StaleSeesEmpty<T>(s: State<T>)
    requires Inv(s) && s.cons.CIdle? && s.cView.w == s.R()
    ensures SeesEmpty(s)
  {
    var r: nat := s.R();
    EmptyLoadReadInv(s, r);
    EmptyLoadWriteInv(DoEmptyLoadRead(s, r), r);
  }

  /** Without the ordering a consumer that has popped everything it has seen may leave, however many
      items are still in the queue: it sees the flag but reads an old write_index_. */
  lemma StaleConsumerMayLeave<T>(d: Drain<T>) returns (run: seq<DrainAction<T>>)
    requires SeesEmpty(d.ring) && !d.ordered && d.flag.Some? && d.loop.CheckFlag?
    ensures DrainFeasible(d, run)
    ensures DrainRun(d, run).loop.Exited? && DrainRun(d, run).ring.popped == d.ring.popped
  {
    var r: nat := d.ring.R();
    var d1 := DrainApply(d, LoadFlag(true));
    var d2 := DrainApply(d1, Ring(EmptyLoadRead(r)));
    DrainCons(d2, Ring(EmptyLoadWrite(r)), []);
    run := [Ring(EmptyLoadWrite(r))];
    DrainCons(d1, Ring(EmptyLoadRead(r)), run);
    run := [Ring(EmptyLoadRead(r))] + run;
    DrainCons(d, LoadFlag(true), run);
    run := [LoadFlag(true)] + run;
  }

  /** The consumer is at the top of its loop and has popped everything it has seen. */
  ghost predicate Stale<T>(d: Drain<T>) {
    DrainInv(d) && !d.ordered && d.loop.CheckFlag? && d.ring.cons.CIdle? && d.ring.cView.w == d.ring.R()
  }

  lemma StoreThenLeave<T>(d: Drain<T>) returns (run: seq<DrainAction<T>>)
    requires Stale(d) && d.ring.prod.PStore? && |d.ring.accepted| + 1 == |d.items|
    ensures DrainFeasible(d, run)
    ensures DrainRun(d, run).loop.Exited? && DrainRun(d, run).ring.popped == d.ring.popped
  {
    var stored := DrainApply(d, Ring(PushStore));
    PushStoreKeeps(d, PushStore);
    var raised := DrainApply(stored, RaiseFlag);
    StaleSeesEmpty(raised.ring);
    run := StaleConsumerMayLeave(raised);
    DrainCons(stored, RaiseFlag, run);
    run := [RaiseFlag] + run;
    DrainCons(d, Ring(PushStore), run);
    run := [Ring(PushStore)] + run;
  }

  /** The last push of any run can complete, raise the flag and still leave its item behind. */
  lemma LastPushMayBeLost<T>(d: Drain<T>) returns (run: seq<DrainAction<T>>)
    requires Stale(d) && d.ring.prod.PWrite? && |d.ring.accepted| + 1 == |d.items|
    ensures DrainFeasible(d, run)
    ensures DrainRun(d, run).loop.Exited? && DrainRun(d, run).ring.popped == d.ring.popped
  {
    var written := DrainApply(d, Ring(PushWriteSlot));
    PushStepKeeps(d, PushWriteSlot);
    run := StoreThenLeave(written);
    DrainCons(d, Ring(PushWriteSlot), run);
    run := [Ring(PushWriteSlot)] + run;
  }

  // ---------------------------------------------------------------- exactly when every run drains

  lemma {:induction false} DrainAppend<T>(d: Drain<T>, a: seq<DrainAction<T>>, b: seq<DrainAction<T>>)
    requires DrainFeasible(d, a) && DrainFeasible(DrainRun(d, a), b)
    ensures DrainFeasible(d, a + b) && DrainRun(d, a + b) == DrainRun(DrainRun(d, a), b)
    decreases |a|
  {
    if a == [] {
      assert a + b == b;
    } else {
      assert (a + b)[1..] == a[1..] + b;
      DrainAppend(DrainApply(d, a[0]), a[1..], b);
    }
  }

  /** The consumer stands at the top of its loop, the flag is down, and nothing is in a pop. */
  ghost predicate AtTop<T>(d: Drain<T>) {
    && DrainInv(d) && d.ring.cap >= 2
    && !d.ordered && d.flag.None? && d.loop.CheckFlag? && d.ring.cons.CIdle?
  }

  /** Everything accepted has been popped, and no push is in progress. */
  ghost predicate Caught<T>(d: Drain<T>) {
    AtTop(d) && d.ring.prod.PIdle? && d.ring.popped == d.ring.accepted
  }

  /** The same with the next item about to be written. */
  ghost predicate Offered<T>(d: Drain<T>) {
    AtTop(d) && d.ring.prod.PWrite? && d.ring.popped == d.ring.accepted
  }

  /** One item waits, and no push is in progress. */
  ghost predicate Waiting<T>(d: Drain<T>) {
    AtTop(d) && d.ring.prod.PIdle? && |d.ring.popped| + 1 == |d.ring.accepted|
  }

  ghost predicate SameList<T>(d: Drain<T>, e: Drain<T>) { e.items == d.items && |e.ring.accepted| == |d.ring.accepted| }

  lemma OneStep<T>(d: Drain<T>, a: DrainAction<T>)
    requires DrainInv(d) && DrainEnabled(d, a)
    ensures DrainInv(DrainApply(d, a)) && DrainFeasible(d, [a]) && DrainRun(d, [a]) == DrainApply(d, a)
    ensures var e := DrainApply(d, a); e.ring.cap == d.ring.cap && e.ordered == d.ordered && e.items == d.items
  {
    ApplyKeeps(d, a);
    DrainStepKeeps(d, a);
    DrainCons(d, a, []);
  }

  lemma ApplyKeeps<T>(d: Drain<T>, a: DrainAction<T>)
    requires DrainEnabled(d, a)
    ensures var e := DrainApply(d, a); e.ring.cap == d.ring.cap && e.ordered == d.ordered && e.items == d.items
  {
  }

  lemma LoadIndex<T>(d: Drain<T>)
    requires Caught(d) && |d.ring.accepted| < |d.items|
    ensures d.ring.W() == d.ring.R() >= 0
    ensures var a := Ring(PushLoadWrite(d.items[|d.ring.accepted|], d.ring.W()));
            && DrainEnabled(d, a)
            && var e := DrainApply(d, a);
               && AtTop(e) && e.ring.prod.PLoadRead? && e.items == d.items
               && e.ring.popped == e.ring.accepted == d.ring.accepted
  {
    OneStep(d, Ring(PushLoadWrite(d.items[|d.ring.accepted|], d.ring.W())));
  }

  lemma TestRoom<T>(d: Drain<T>)
    requires AtTop(d) && d.ring.prod.PLoadRead? && d.ring.popped == d.ring.accepted
    ensures d.ring.R() >= 0
    ensures var a := Ring(PushLoadRead(d.ring.R()));
            && DrainEnabled(d, a)
            && Offered(DrainApply(d, a)) && SameList(d, DrainApply(d, a))
  {
    PushTestPasses(d.ring);
    OneStep(d, Ring(PushLoadRead(d.ring.R())));
  }

  lemma PushTestPasses<T>(s: State<T>)
    requires Inv(s) && s.prod.PLoadRead? && s.popped == s.accepted && s.cap >= 2
    ensures s.R() >= 0 && Enabled(s, PushLoadRead(s.R()))
    ensures var t := Apply(s, PushLoadRead(s.R())); t.prod.PWrite? && t.popped == s.popped && t.accepted == s.accepted
  {
    PushLoadReadInv(s, s.R());
  }

  lemma Offer<T>(d: Drain<T>) returns (run: seq<DrainAction<T>>)
    requires Caught(d) && |d.ring.accepted| < |d.items|
    ensures DrainFeasible(d, run) && Offered(DrainRun(d, run)) && SameList(d, DrainRun(d, run))
  {
    LoadIndex(d);
    var a := Ring(PushLoadWrite(d.items[|d.ring.accepted|], d.ring.W()));
    var e := DrainApply(d, a);
    TestRoom(e);
    var b := Ring(PushLoadRead(e.ring.R()));
    OneStep(e, b);
    DrainCons(d, a, [b]);
    run := [a] + [b];
  }

  lemma WriteSlot<T>(d: Drain<T>)
    requires Offered(d)
    ensures DrainEnabled(d, Ring(PushWriteSlot))
    ensures var e := DrainApply(d, Ring(PushWriteSlot));
            AtTop(e) && e.ring.prod.PStore? && e.ring.popped == e.ring.accepted && SameList(d, e)
  {
    PushWriteSlotInv(d.ring);
    OneStep(d, Ring(PushWriteSlot));
  }

  lemma StoreIndex<T>(d: Drain<T>)
    requires AtTop(d) && d.ring.prod.PStore? && d.ring.popped == d.ring.accepted
    ensures DrainEnabled(d, Ring(PushStore))
    ensures var e := DrainApply(d, Ring(PushStore));
            Waiting(e) && e.items == d.items && |e.ring.accepted| == |d.ring.accepted| + 1
  {
    OneStep(d, Ring(PushStore));
  }

  lemma Deliver<T>(d: Drain<T>) returns (run: seq<DrainAction<T>>)
    requires Offered(d)
    ensures DrainFeasible(d, run)
    ensures var e := DrainRun(d, run); Waiting(e) && e.items == d.items && |e.ring.accepted| == |d.ring.accepted| + 1
  {
    WriteSlot(d);
    var e := DrainApply(d, Ring(PushWriteSlot));
    StoreIndex(e);
    OneStep(e, Ring(PushStore));
    DrainCons(d, Ring(PushWriteSlot), [Ring(PushStore)]);
    run := [Ring(PushWriteSlot)] + [Ring(PushStore)];
  }

  /** Inside the loop body with one item waiting. */
  ghost predicate BodyState<T>(d: Drain<T>) {
    && d.ring.cap >= 2 && !d.ordered && d.flag.None? && d.loop.Body?
    && d.ring.prod.PIdle? && |d.ring.popped| + 1 == |d.ring.accepted|
  }

  ghost predicate InBody<T>(d: Drain<T>) { DrainInv(d) && BodyState(d) }

  lemma EnterBody<T>(d: Drain<T>)
    requires Waiting(d)
    ensures DrainEnabled(d, LoadFlag(false))
    ensures var e := DrainApply(d, LoadFlag(false)); InBody(e) && e.ring.cons.CIdle? && SameList(d, e)
  {
    OneStep(d, LoadFlag(false));
  }

  lemma LoadRead<T>(d: Drain<T>)
    requires InBody(d) && d.ring.cons.CIdle?
    ensures d.ring.R() >= 0 && DrainEnabled(d, Ring(PopLoadRead(d.ring.R())))
    ensures var e := DrainApply(d, Ring(PopLoadRead(d.ring.R())));
            InBody(e) && e.ring.cons.CLoadWrite? && SameList(d, e)
  {
    OneStep(d, Ring(PopLoadRead(d.ring.R())));
  }

  lemma LoadWrite<T>(d: Drain<T>)
    requires InBody(d) && d.ring.cons.CLoadWrite?
    ensures d.ring.W() >= 0 && DrainEnabled(d, Ring(PopLoadWrite(d.ring.W())))
    ensures var e := DrainApply(d, Ring(PopLoadWrite(d.ring.W()))); InBody(e) && e.ring.cons.CRead? && SameList(d, e)
  {
    PopTestPasses(d.ring);
    LoadWriteBody(d, d.ring.W());
    DrainStepKeeps(d, Ring(PopLoadWrite(d.ring.W())));
  }

  lemma LoadWriteBody<T>(d: Drain<T>, m: nat)
    requires BodyState(d) && DrainEnabled(d, Ring(PopLoadWrite(m))) && Apply(d.ring, PopLoadWrite(m)).cons.CRead?
    ensures var e := DrainApply(d, Ring(PopLoadWrite(m))); BodyState(e) && e.ring.cons.CRead? && SameList(d, e)
  {
  }

  lemma PopTestPasses<T>(s: State<T>)
    requires Inv(s) && s.cons.CLoadWrite? && |s.popped| < |s.accepted|
    ensures s.W() >= 0 && Enabled(s, PopLoadWrite(s.W()))
    ensures var t := Apply(s, PopLoadWrite(s.W())); t.cons.CRead? && t.popped == s.popped && t.accepted == s.accepted
  {
    PopLoadWriteInv(s, s.W());
  }

  lemma ReadIt<T>(d: Drain<T>) returns (p: nat)
    requires InBody(d) && d.ring.cons.CRead?
    ensures DrainEnabled(d, Ring(PopReadSlot(p)))
    ensures var e := DrainApply(d, Ring(PopReadSlot(p))); InBody(e) && e.ring.cons.CStore? && SameList(d, e)
  {
    p := NewestWrite(d.ring);
    OneStep(d, Ring(PopReadSlot(p)));
  }

  lemma NewestWrite<T>(s: State<T>) returns (p: nat)
    requires Inv(s) && s.cons.CRead?
    ensures Enabled(s, PopReadSlot(p))
  {
    ReadSlotInv(s);
    assert Holds(s.slots[s.cons.r], Written(s)[s.R()], s.R() + 1);
    p := |s.slots[s.cons.r]| - 1;
  }

  lemma StoreRead<T>(d: Drain<T>)
    requires InBody(d) && d.ring.cons.CStore?
    ensures DrainEnabled(d, Ring(PopStore))
    ensures var e := DrainApply(d, Ring(PopStore)); Caught(e) && SameList(d, e)
  {
    OneStep(d, Ring(PopStore));
  }

  lemma TakeFromBody<T>(d: Drain<T>) returns (run: seq<DrainAction<T>>)
    requires InBody(d) && d.ring.cons.CIdle?
    ensures DrainFeasible(d, run) && Caught(DrainRun(d, run)) && SameList(d, DrainRun(d, run))
  {
    LoadRead(d);
    var a := Ring(PopLoadRead(d.ring.R()));
    var d1 := DrainApply(d, a);
    LoadWrite(d1);
    var b := Ring(PopLoadWrite(d1.ring.W()));
    var d2 := DrainApply(d1, b);
    var p := ReadIt(d2);
    var c := Ring(PopReadSlot(p));
    var d3 := DrainApply(d2, c);
    StoreRead(d3);
    OneStep(d3, Ring(PopStore));
    DrainCons(d2, c, [Ring(PopStore)]);
    DrainCons(d1, b, [c] + [Ring(PopStore)]);
    DrainCons(d, a, [b] + ([c] + [Ring(PopStore)]));
    run := [a] + ([b] + ([c] + [Ring(PopStore)]));
  }

  lemma Take<T>(d: Drain<T>) returns (run: seq<DrainAction<T>>)
    requires Waiting(d)
    ensures DrainFeasible(d, run) && Caught(DrainRun(d, run)) && SameList(d, DrainRun(d, run))
  {
    EnterBody(d);
    run := TakeFromBody(DrainApply(d, LoadFlag(false)));
    DrainCons(d, LoadFlag(false), run);
    run := [LoadFlag(false)] + run;
  }

  /** All items but the last are pushed and popped in turn; the last is pushed and lost. */
  lemma {:induction false} LosingRun<T>(d: Drain<T>) returns (run: seq<DrainAction<T>>)
    requires Caught(d) && |d.ring.accepted| < |d.items|
    ensures DrainFeasible(d, run)
    ensures DrainRun(d, run).loop.Exited? && |DrainRun(d, run).ring.popped| < |d.items|
    decreases |d.items| - |d.ring.accepted|
  {
    run := Offer(d);
    var e := DrainRun(d, run);
    if |d.ring.accepted| + 1 == |d.items| {
      var rest := LastPushMayBeLost(e);
      DrainAppend(d, run, rest);
      run := run + rest;
    } else {
      var give := Deliver(e);
      var e1 := DrainRun(e, give);
      var take := Take(e1);
      var rest := LosingRun(DrainRun(e1, take));
      DrainAppend(e1, take, rest);
      DrainAppend(e, give, take + rest);
      DrainAppend(d, run, give + (take + rest));
      run := run + (give + (take + rest));
    }
  }

  lemma StartCaught<T>(cap: nat, zero: T, items: seq<T>)
    requires cap >= 2
    ensures Caught(Start(cap, zero, items, false))
  {
    InitialInv(cap, zero);
  }

  /** With a single slot both tests compare 0 with 0: nothing is ever accepted, so the flag never goes up. */
  ghost predicate StuckRing<T>(s: State<T>) {
    && s.cap == 1 && s.accepted == [] && |s.wHist| == 1 && |s.rHist| == 1
    && s.wHist[0].index == 0 && s.rHist[0].index == 0
    && (s.prod.PIdle? || (s.prod.PLoadRead? && s.prod.w == 0))
    && (s.cons.CIdle? || (s.cons.CLoadWrite? && s.cons.r == 0))
  }

  ghost predicate Stuck<T>(d: Drain<T>) {
    && StuckRing(d.ring) && d.items != [] && d.flag.None?
    && (d.loop.CheckFlag? || d.loop.Body?)
  }

  lemma StuckStep<T>(d: Drain<T>, a: DrainAction<T>)
    requires Stuck(d) && DrainEnabled(d, a)
    ensures Stuck(DrainApply(d, a))
  {
  }

  lemma {:induction false} StuckRun<T>(d: Drain<T>, run: seq<DrainAction<T>>)
    requires Stuck(d) && DrainFeasible(d, run)
    ensures Stuck(DrainRun(d, run))
    decreases |run|
  {
    if run != [] {
      StuckStep(d, run[0]);
      StuckRun(DrainApply(d, run[0]), run[1..]);
    }
  }

  /** Every run in which the consumer leaves its loop has popped every item. */
  ghost predicate AlwaysDrains<T(!new)>(cap: nat, zero: T, items: seq<T>, ordered: bool) {
    forall run: seq<DrainAction<T>> :: DrainFeasible(Start(cap, zero, items, ordered), run) ==>
      var d := DrainRun(Start(cap, zero, items, ordered), run);
      d.loop.Exited? ==> d.ring.popped == items
  }

  lemma EmptyListDrains<T>(cap: nat, zero: T, ordered: bool, run: seq<DrainAction<T>>)
    requires cap > 0 && DrainFeasible(Start(cap, zero, [], ordered), run)
    ensures DrainRun(Start(cap, zero, [], ordered), run).ring.popped == []
  {
    InitialInv(cap, zero);
    DrainRunKeeps(Start(cap, zero, [], ordered), run);
  }

  lemma OneSlotNeverLeaves<T>(zero: T, items: seq<T>, ordered: bool, run: seq<DrainAction<T>>)
    requires items != [] && DrainFeasible(Start(1, zero, items, ordered), run)
    ensures !DrainRun(Start(1, zero, items, ordered), run).loop.Exited?
  {
    StuckRun(Start(1, zero, items, ordered), run);
  }

  /** The loop drains for every schedule exactly when the flag is ordered, or there is nothing to produce, or
      nothing can be produced. */
  lemma DrainsIff<T(!new)>(cap: nat, zero: T, items: seq<T>, ordered: bool)
    requires cap > 0
    ensures AlwaysDrains(cap, zero, items, ordered) <==> ordered || items == [] || cap == 1
  {
    if ordered || items == [] || cap == 1 {
      forall run: seq<DrainAction<T>> | DrainFeasible(Start(cap, zero, items, ordered), run)
        ensures var d := DrainRun(Start(cap, zero, items, ordered), run); d.loop.Exited? ==> d.ring.popped == items
      {
        if items == [] {
          EmptyListDrains(cap, zero, ordered, run);
        } else if cap == 1 {
          OneSlotNeverLeaves(zero, items, ordered, run);
        } else {
          DrainComplete(cap, zero, items, run);
        }
      }
    } else {
      StartCaught(cap, zero, items);
      var run := LosingRun(Start(cap, zero, items, false));
    }
  }
}

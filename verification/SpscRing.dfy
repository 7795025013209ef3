/** The lock-free single-producer/single-consumer ring as two threads of atomic steps.

  Memory is modelled with release/acquire views.  Each atomic index keeps its whole
  modification order; a load may return any message not older than the newest one its
  thread has already seen.  A release store publishes the storing thread's view and an
  acquire load joins it.  A buffer slot is ordinary memory: it keeps every write made to
  it, and a read may return any write that is not hidden by a later write that happens
  before the reader.  Slot accesses are stamped so that a data race is a state predicate. */
module SpscRing {
  import opened Modular
  import opened Common

  /** What one thread has seen: the newest message of each index, and how many slot writes
      and slot reads happen before its next step. */
  datatype View = View(w: nat, r: nat, writesSeen: nat, readsSeen: nat) {
    function Join(that: View): View {
      View(Max(w, that.w), Max(r, that.r), Max(writesSeen, that.writesSeen), Max(readsSeen, that.readsSeen))
    }
    ghost predicate Below(that: View) {
      w <= that.w && r <= that.r && writesSeen <= that.writesSeen && readsSeen <= that.readsSeen
    }
  }

  datatype Msg = Msg(index: nat, view: View)
  datatype SlotWrite<T> = SlotWrite(value: T, stamp: nat)

  /** Where the producer stands; each constructor names the step that comes next. */
  datatype Producer<T> =
    | PIdle
    | PLoadRead(value: T, w: nat)   // push: write_index_ loaded, read_index_ is next
    | PWrite(value: T, w: nat)      // push: not full, the slot write is next
    | PStore(value: T, w: nat)      // push: slot written, the release store is next
    | PFull(r: nat)                 // full(): read_index_ loaded, write_index_ is next

  datatype Consumer<T> =
    | CIdle
    | CLoadWrite(r: nat)            // pop: read_index_ loaded, write_index_ is next
    | CRead(r: nat)                 // pop: not empty, the slot read is next
    | CStore(r: nat, value: T)      // pop: slot read, the release store is next
    | CEmpty(r: nat)                // empty(): read_index_ loaded, write_index_ is next
    | CFrontLoad(r: nat)            // front(): read_index_ loaded, write_index_ is next
    | CFrontRead(r: nat)            // front(): not empty, the slot read is next

  /** The machine.  `accepted`, `popped`, `offered`, `refused` and the three promises are
      histories of what the calls returned; no step reads them. */
  datatype State<T> = State(
    cap: nat,
    wHist: seq<Msg>, rHist: seq<Msg>,
    slots: seq<seq<SlotWrite<T>>>, lastRead: seq<nat>,
    writeEvents: nat, readEvents: nat,
    pView: View, cView: View,
    prod: Producer<T>, cons: Consumer<T>,
    completed: seq<T>, accepted: seq<T>, refused: nat, popped: seq<T>,   // completed: pushes that returned
    roomPromised: bool,        // the producer's last full() returned false, no push since
    itemPromised: bool,        // the consumer's last empty() returned false, no pop since
    peeked: Option<T>)         // what the consumer's last front() returned, no pop since
  {
    function W(): int { |wHist| - 1 }
    function R(): int { |rHist| - 1 }
    ghost function InFlight(): seq<T>
      requires |popped| <= |accepted|
    {
      accepted[|popped|..]
    }
  }

  /** One atomic step.  `m` is the message a load returns, `p` the slot write a read returns. */
  datatype Action<T> =
    | PushLoadWrite(value: T, m: nat)
    | PushLoadRead(m: nat)
    | PushWriteSlot
    | PushStore
    | FullLoadRead(m: nat)
    | FullLoadWrite(m: nat)
    | PopLoadRead(m: nat)
    | PopLoadWrite(m: nat)
    | PopReadSlot(p: nat)
    | PopStore
    | EmptyLoadRead(m: nat)
    | EmptyLoadWrite(m: nat)
    | FrontLoadRead(m: nat)
    | FrontLoadWrite(m: nat)
    | FrontReadSlot(p: nat)

  function Max(a: nat, b: nat): nat { if a < b then b else a }

  function Initial<T>(cap: nat, zero: T): State<T> {
    var start := View(0, 0, 0, 0);
    State(cap, [Msg(0, start)], [Msg(0, start)],
          seq(cap, _ => [SlotWrite(zero, 0)]), seq(cap, _ => 0),
          0, 0, start, start, PIdle, CIdle, [], [], 0, [], false, false, None)
  }

  /** Coherence: a thread never reads an index message older than one it has seen. */
  predicate MayLoad(hist: seq<Msg>, seen: nat, m: nat) {
    seen <= m < |hist|
  }

  /** A slot read may return write `p` unless a later write happens before the reader. */
  predicate MayRead<T>(slot: seq<SlotWrite<T>>, known: nat, p: nat) {
    p < |slot| && forall q :: p < q < |slot| ==> known < slot[q].stamp
  }

  function AcquireRead(v: View, rHist: seq<Msg>, m: nat): View
    requires m < |rHist|
  {
    v.(r := Max(v.r, m)).Join(rHist[m].view)
  }

  function AcquireWrite(v: View, wHist: seq<Msg>, m: nat): View
    requires m < |wHist|
  {
    v.(w := Max(v.w, m)).Join(wHist[m].view)
  }

  // ---- push (both overloads), full()

  function DoPushLoadWrite<T>(s: State<T>, value: T, m: nat): State<T>
    requires m < |s.wHist|
  {
    s.(pView := s.pView.(w := m), prod := PLoadRead(value, s.wHist[m].index))
  }

  function DoPushLoadRead<T>(s: State<T>, m: nat): State<T>
    requires s.prod.PLoadRead? && m < |s.rHist| && s.cap > 0
  {
    var v := AcquireRead(s.pView, s.rHist, m);
    if NextIndex(s.prod.w, s.cap) == s.rHist[m].index then
      s.(pView := v, prod := PIdle, completed := s.completed + [s.prod.value],
         refused := s.refused + 1, roomPromised := false)
    else
      s.(pView := v, prod := PWrite(s.prod.value, s.prod.w))
  }

  function DoPushWriteSlot<T>(s: State<T>): State<T>
    requires s.prod.PWrite? && s.prod.w < |s.slots|
  {
    s.(slots := s.slots[s.prod.w := s.slots[s.prod.w] + [SlotWrite(s.prod.value, s.writeEvents + 1)]],
       writeEvents := s.writeEvents + 1, pView := s.pView.(writesSeen := s.writeEvents + 1),
       prod := PStore(s.prod.value, s.prod.w))
  }

  function DoPushStore<T>(s: State<T>): State<T>
    requires s.prod.PStore? && s.cap > 0
  {
    var v := s.pView.(w := |s.wHist|);
    s.(wHist := s.wHist + [Msg(NextIndex(s.prod.w, s.cap), v)], pView := v,
       accepted := s.accepted + [s.prod.value], completed := s.completed + [s.prod.value],
       prod := PIdle, roomPromised := false)
  }

  function DoFullLoadRead<T>(s: State<T>, m: nat): State<T>
    requires m < |s.rHist|
  {
    s.(pView := AcquireRead(s.pView, s.rHist, m), prod := PFull(s.rHist[m].index))
  }

  function DoFullLoadWrite<T>(s: State<T>, m: nat): State<T>
    requires s.prod.PFull? && m < |s.wHist| && s.cap > 0
  {
    s.(pView := AcquireWrite(s.pView, s.wHist, m), prod := PIdle,
       roomPromised := NextIndex(s.wHist[m].index, s.cap) != s.prod.r)
  }

  // ---- pop, empty(), front()

  function DoPopLoadRead<T>(s: State<T>, m: nat): State<T>
    requires m < |s.rHist|
  {
    s.(cView := s.cView.(r := m), cons := CLoadWrite(s.rHist[m].index))
  }

  function DoPopLoadWrite<T>(s: State<T>, m: nat): State<T>
    requires s.cons.CLoadWrite? && m < |s.wHist|
  {
    var v := AcquireWrite(s.cView, s.wHist, m);
    if s.cons.r == s.wHist[m].index then
      s.(cView := v, cons := CIdle, itemPromised := false)
    else
      s.(cView := v, cons := CRead(s.cons.r))
  }

  /** The state after the consumer reads slot `i`, whatever it does with the value. */
  function ReadSlot<T>(s: State<T>, i: nat): State<T>
    requires i < |s.lastRead|
  {
    s.(lastRead := s.lastRead[i := s.readEvents + 1], readEvents := s.readEvents + 1,
       cView := s.cView.(readsSeen := s.readEvents + 1))
  }

  function DoPopReadSlot<T>(s: State<T>, p: nat): State<T>
    requires s.cons.CRead? && s.cons.r < |s.slots| && s.cons.r < |s.lastRead| && p < |s.slots[s.cons.r]|
  {
    ReadSlot(s, s.cons.r).(cons := CStore(s.cons.r, s.slots[s.cons.r][p].value))
  }

  function DoPopStore<T>(s: State<T>): State<T>
    requires s.cons.CStore? && s.cap > 0
  {
    var v := s.cView.(r := |s.rHist|);
    s.(rHist := s.rHist + [Msg(NextIndex(s.cons.r, s.cap), v)], cView := v,
       popped := s.popped + [s.cons.value], cons := CIdle, itemPromised := false, peeked := None)
  }

  function DoEmptyLoadRead<T>(s: State<T>, m: nat): State<T>
    requires m < |s.rHist|
  {
    s.(cView := AcquireRead(s.cView, s.rHist, m), cons := CEmpty(s.rHist[m].index))
  }

  function DoEmptyLoadWrite<T>(s: State<T>, m: nat): State<T>
    requires s.cons.CEmpty? && m < |s.wHist|
  {
    s.(cView := AcquireWrite(s.cView, s.wHist, m), cons := CIdle,
       itemPromised := s.cons.r != s.wHist[m].index)
  }

  function DoFrontLoadRead<T>(s: State<T>, m: nat): State<T>
    requires m < |s.rHist|
  {
    s.(cView := AcquireRead(s.cView, s.rHist, m), cons := CFrontLoad(s.rHist[m].index))
  }

  function DoFrontLoadWrite<T>(s: State<T>, m: nat): State<T>
    requires s.cons.CFrontLoad? && m < |s.wHist|
  {
    var v := AcquireWrite(s.cView, s.wHist, m);
    if s.cons.r == s.wHist[m].index then
      s.(cView := v, cons := CIdle, peeked := None)
    else
      s.(cView := v, cons := CFrontRead(s.cons.r))
  }

  function DoFrontReadSlot<T>(s: State<T>, p: nat): State<T>
    requires s.cons.CFrontRead? && s.cons.r < |s.slots| && s.cons.r < |s.lastRead| && p < |s.slots[s.cons.r]|
  {
    ReadSlot(s, s.cons.r).(cons := CIdle, peeked := Some(s.slots[s.cons.r][p].value))
  }

  predicate Enabled<T>(s: State<T>, a: Action<T>) {
    && s.cap > 0 && |s.slots| == |s.lastRead| == s.cap
    && match a
       case PushLoadWrite(_, m) => s.prod.PIdle? && MayLoad(s.wHist, s.pView.w, m)
       case PushLoadRead(m) => s.prod.PLoadRead? && MayLoad(s.rHist, s.pView.r, m)
       case PushWriteSlot => s.prod.PWrite? && s.prod.w < s.cap
       case PushStore => s.prod.PStore?
       case FullLoadRead(m) => s.prod.PIdle? && MayLoad(s.rHist, s.pView.r, m)
       case FullLoadWrite(m) => s.prod.PFull? && MayLoad(s.wHist, s.pView.w, m)
       case PopLoadRead(m) => s.cons.CIdle? && MayLoad(s.rHist, s.cView.r, m)
       case PopLoadWrite(m) => s.cons.CLoadWrite? && MayLoad(s.wHist, s.cView.w, m)
       case PopReadSlot(p) => s.cons.CRead? && s.cons.r < s.cap && MayRead(s.slots[s.cons.r], s.cView.writesSeen, p)
       case PopStore => s.cons.CStore?
       case EmptyLoadRead(m) => s.cons.CIdle? && MayLoad(s.rHist, s.cView.r, m)
       case EmptyLoadWrite(m) => s.cons.CEmpty? && MayLoad(s.wHist, s.cView.w, m)
       case FrontLoadRead(m) => s.cons.CIdle? && MayLoad(s.rHist, s.cView.r, m)
       case FrontLoadWrite(m) => s.cons.CFrontLoad? && MayLoad(s.wHist, s.cView.w, m)
       case FrontReadSlot(p) =>
         s.cons.CFrontRead? && s.cons.r < s.cap && MayRead(s.slots[s.cons.r], s.cView.writesSeen, p)
  }

  function Apply<T>(s: State<T>, a: Action<T>): State<T>
    requires Enabled(s, a)
  {
    match a
    case PushLoadWrite(value, m) => DoPushLoadWrite(s, value, m)
    case PushLoadRead(m) => DoPushLoadRead(s, m)
    case PushWriteSlot => DoPushWriteSlot(s)
    case PushStore => DoPushStore(s)
    case FullLoadRead(m) => DoFullLoadRead(s, m)
    case FullLoadWrite(m) => DoFullLoadWrite(s, m)
    case PopLoadRead(m) => DoPopLoadRead(s, m)
    case PopLoadWrite(m) => DoPopLoadWrite(s, m)
    case PopReadSlot(p) => DoPopReadSlot(s, p)
    case PopStore => DoPopStore(s)
    case EmptyLoadRead(m) => DoEmptyLoadRead(s, m)
    case EmptyLoadWrite(m) => DoEmptyLoadWrite(s, m)
    case FrontLoadRead(m) => DoFrontLoadRead(s, m)
    case FrontLoadWrite(m) => DoFrontLoadWrite(s, m)
    case FrontReadSlot(p) => DoFrontReadSlot(s, p)
  }

  // ---------------------------------------------------------------- invariant

  /** Message k of write_index_ carries index k, was stored after k slot writes, and is known to
      the producer, whose view is `top`. */
  ghost predicate WriteHistOk(h: seq<Msg>, cap: nat, top: View) {
    && cap > 0 && |h| > 0
    && forall k :: 0 <= k < |h| ==>
         h[k].index == Wrap(k, cap) && h[k].view.w == k <= h[k].view.writesSeen && h[k].view.Below(top)
  }

  /** Message k of read_index_ carries index k, and later messages carry more reads. */
  ghost predicate ReadHistOk(h: seq<Msg>, cap: nat, top: View) {
    && cap > 0 && |h| > 0
    && (forall k :: 0 <= k < |h| ==>
          h[k].index == Wrap(k, cap) && h[k].view.r == k <= h[k].view.w && h[k].view.Below(top))
    && (forall j, k :: 0 <= j <= k < |h| ==> h[j].view.readsSeen <= h[k].view.readsSeen)
  }

  ghost predicate HistOk<T>(s: State<T>) {
    && |s.slots| == |s.lastRead| == s.cap
    && WriteHistOk(s.wHist, s.cap, s.pView) && ReadHistOk(s.rHist, s.cap, s.cView)
  }

  /** How stale each thread's knowledge of the other counter can be. */
  ghost predicate ViewsOk<T>(s: State<T>)
    requires |s.rHist| > 0
  {
    && s.pView.w == s.W() && s.cView.r == s.R()
    && s.pView.r <= s.R() <= s.cView.w <= s.W()
    && s.W() - s.pView.r <= s.cap - 1
    && s.pView.writesSeen == s.writeEvents && s.cView.readsSeen == s.readEvents
    && s.cView.w <= s.cView.writesSeen <= s.writeEvents
    && s.rHist[s.pView.r].view.readsSeen <= s.pView.readsSeen <= s.readEvents
  }

  /** Each program counter holds its own index exactly, and past its test it has room or an item. */
  ghost predicate ThreadsOk<T>(s: State<T>)
    requires s.cap > 0 && |s.wHist| > 0 && |s.rHist| > 0
  {
    && s.writeEvents == s.W() + (if s.prod.PStore? then 1 else 0)
    && (s.prod.PLoadRead? || s.prod.PWrite? || s.prod.PStore? ==> s.prod.w == Wrap(s.W(), s.cap))
    && (s.prod.PWrite? || s.prod.PStore? || s.roomPromised ==> s.W() - s.pView.r < s.cap - 1)
    && (s.prod.PFull? ==> s.prod.r == Wrap(s.pView.r, s.cap))
    && (!s.cons.CIdle? ==> s.cons.r == Wrap(s.R(), s.cap))
    && (s.cons.CRead? || s.cons.CStore? || s.cons.CFrontRead? || s.itemPromised ==> s.R() < s.cView.w)
  }

  /** The values whose slot write has happened: the accepted ones and the one being stored. */
  function Written<T>(s: State<T>): seq<T> {
    s.accepted + (if s.prod.PStore? then [s.prod.value] else [])
  }

  predicate IsSubsequence<T(==)>(a: seq<T>, b: seq<T>) {
    if b == [] then a == []
    else
      || (a != [] && a[|a| - 1] == b[|b| - 1] && IsSubsequence(a[..|a| - 1], b[..|b| - 1]))
      || IsSubsequence(a, b[..|b| - 1])
  }

  /** The call histories agree with the counters. */
  ghost predicate HistoryOk<T>(s: State<T>) {
    && |s.accepted| == s.W() && 0 <= s.R() <= s.W()
    && s.popped == s.accepted[..s.R()]
    && (s.cons.CStore? ==> s.R() < s.W() && s.cons.value == s.accepted[s.R()])
    && (s.peeked.Some? ==> s.R() < s.cView.w && s.R() < s.W() && s.peeked.value == s.accepted[s.R()])
    && CallsOk(s.completed, s.accepted, s.refused, s.cap)
  }

  /** No push is refused before as many pushes as there are slots have returned. */
  ghost predicate CallsOk<T>(completed: seq<T>, accepted: seq<T>, refused: nat, cap: nat) {
    && IsSubsequence(accepted, completed) && |completed| == |accepted| + refused
    && (refused > 0 ==> |completed| >= cap)
  }

  predicate Holds<T(==)>(slot: seq<SlotWrite<T>>, value: T, stamp: nat) {
    |slot| > 0 && slot[|slot| - 1] == SlotWrite(value, stamp)
  }

  /** For lo <= j < hi the last write of item j's slot is item j. */
  ghost predicate AllHeld<T>(slots: seq<seq<SlotWrite<T>>>, values: seq<T>, lo: int, hi: nat) {
    && |slots| > 0 && 0 <= lo && hi == |values|
    && forall j :: lo <= j < hi ==> Holds(slots[Wrap(j, |slots|)], values[j], j + 1)
  }

  /** Every unconsumed item is still in its slot. */
  ghost predicate SlotsOk<T>(s: State<T>) {
    AllHeld(s.slots, Written(s), s.R(), s.writeEvents)
  }

  /** The read_index_ message that frees the slot item `j` will use. */
  function FreedBy(j: nat, cap: nat): nat { if j < cap then 0 else j - cap + 1 }

  /** The last read of every slot that is free for items from `lo` on happens before its release. */
  ghost predicate AllReleased(lastRead: seq<nat>, rHist: seq<Msg>, lo: int) {
    && |lastRead| > 0 && |rHist| > 0 && 0 <= lo
    && forall j :: lo <= j < |rHist| - 1 + |lastRead| ==>
         lastRead[Wrap(j, |lastRead|)] <= rHist[FreedBy(j, |lastRead|)].view.readsSeen
  }

  ghost predicate ReadsOk<T>(s: State<T>) {
    && (forall i :: 0 <= i < |s.lastRead| ==> s.lastRead[i] <= s.readEvents)
    && AllReleased(s.lastRead, s.rHist, s.W())
  }

  ghost predicate Inv<T>(s: State<T>) {
    HistOk(s) && ViewsOk(s) && ThreadsOk(s) && HistoryOk(s) && SlotsOk(s) && ReadsOk(s)
  }

  lemma InitialInv<T>(cap: nat, zero: T)
    requires cap > 0
    ensures Inv(Initial(cap, zero))
  {
    var s := Initial(cap, zero);
    assert HistOk(s);
    assert ViewsOk(s);
  }

  // ---------------------------------------------------------------- pieces of the step proofs

  /** The full test compares wrapped indices but decides the real distance. */
  lemma FullTestExact(w: nat, r: nat, cap: nat)
    requires cap > 0 && r <= w <= r + cap - 1
    ensures NextIndex(Wrap(w, cap), cap) == Wrap(r, cap) <==> w - r == cap - 1
  {
    WrapNext(w, cap);
    if w + 1 == r + cap {
      assert Wrap(w + 1, cap) == Wrap(r, cap);
    } else {
      WrapInjective(r, w + 1, cap);
    }
  }

  /** So does the empty test. */
  lemma EmptyTestExact(w: nat, r: nat, cap: nat)
    requires cap > 0 && r <= w <= r + cap - 1
    ensures Wrap(r, cap) == Wrap(w, cap) <==> w == r
  {
    WrapInjective(r, w, cap);
  }

  lemma ExtendWriteHist(h: seq<Msg>, cap: nat, top: View, v: View)
    requires WriteHistOk(h, cap, top) && top.Below(v) && v.w == |h| <= v.writesSeen
    ensures WriteHistOk(h + [Msg(NextIndex(Wrap(|h| - 1, cap), cap), v)], cap, v)
  {
    WrapNext(|h| - 1, cap);
  }

  lemma ExtendReadHist(h: seq<Msg>, cap: nat, top: View, v: View)
    requires ReadHistOk(h, cap, top) && top.Below(v) && v.r == |h| <= v.w
    ensures ReadHistOk(h + [Msg(NextIndex(Wrap(|h| - 1, cap), cap), v)], cap, v)
  {
    WrapNext(|h| - 1, cap);
  }

  lemma HeldAfterWrite<T>(slots: seq<seq<SlotWrite<T>>>, values: seq<T>, lo: nat, hi: nat, value: T)
    requires AllHeld(slots, values, lo, hi) && lo <= hi < lo + |slots|
    ensures var i := Wrap(hi, |slots|);
            AllHeld(slots[i := slots[i] + [SlotWrite(value, hi + 1)]], values + [value], lo, hi + 1)
  {
    forall j | lo <= j < hi ensures Wrap(j, |slots|) != Wrap(hi, |slots|) {
      WrapInjective(j, hi, |slots|);
    }
  }

  lemma ReleasedAfterRead(lastRead: seq<nat>, rHist: seq<Msg>, lo: nat, stamp: nat)
    requires AllReleased(lastRead, rHist, lo) && |rHist| - 1 < lo
    ensures AllReleased(lastRead[Wrap(|rHist| - 1, |lastRead|) := stamp], rHist, lo)
  {
    var r := |rHist| - 1;
    forall j | lo <= j < r + |lastRead| ensures Wrap(j, |lastRead|) != Wrap(r, |lastRead|) {
      WrapInjective(r, j, |lastRead|);
    }
  }

  lemma ReleasedAfterStore(lastRead: seq<nat>, rHist: seq<Msg>, lo: nat, msg: Msg)
    requires AllReleased(lastRead, rHist, lo)
    requires forall i :: 0 <= i < |lastRead| ==> lastRead[i] <= msg.view.readsSeen
    ensures AllReleased(lastRead, rHist + [msg], lo)
  {
  }

  lemma CallsAfterAccept<T>(completed: seq<T>, accepted: seq<T>, refused: nat, cap: nat, value: T)
    requires CallsOk(completed, accepted, refused, cap)
    ensures CallsOk(completed + [value], accepted + [value], refused, cap)
  {
    assert (completed + [value])[..|completed|] == completed;
    assert (accepted + [value])[..|accepted|] == accepted;
  }

  lemma CallsAfterRefusal<T>(completed: seq<T>, accepted: seq<T>, refused: nat, cap: nat, value: T)
    requires CallsOk(completed, accepted, refused, cap) && |accepted| >= cap - 1
    ensures CallsOk(completed + [value], accepted, refused + 1, cap)
  {
    assert (completed + [value])[..|completed|] == completed;
  }

  /** Acquiring more knowledge of the consumer keeps the invariant. */
  lemma ProducerLearns<T>(s: State<T>, m: nat)
    requires Inv(s) && !s.prod.PFull? && MayLoad(s.rHist, s.pView.r, m)
    ensures var v := AcquireRead(s.pView, s.rHist, m); v.r == m && Inv(s.(pView := v))
  {
    var v := AcquireRead(s.pView, s.rHist, m);
    assert s.rHist[m].view.Below(s.cView);
    assert v.r == m && v.w == s.pView.w && v.writesSeen == s.pView.writesSeen && s.pView.Below(v);
    var t := s.(pView := v);
    assert HistOk(t);
    assert ViewsOk(t);
    assert ThreadsOk(t);
    assert HistoryOk(t);
    assert Written(t) == Written(s);
    assert SlotsOk(t) && ReadsOk(t);
  }

  /** Acquiring message m of write_index_ brings the first m slot writes into the consumer's view. */
  lemma ConsumerLearns<T>(s: State<T>, m: nat)
    requires Inv(s) && MayLoad(s.wHist, s.cView.w, m)
    ensures var v := AcquireWrite(s.cView, s.wHist, m); v.w == m && Inv(s.(cView := v))
  {
    var v := AcquireWrite(s.cView, s.wHist, m);
    assert s.wHist[m].view.Below(s.pView);
    assert v.w == m && v.r == s.cView.r && v.readsSeen == s.cView.readsSeen && s.cView.Below(v);
    var t := s.(cView := v);
    assert HistOk(t);
    assert ViewsOk(t);
    assert ThreadsOk(t);
    assert HistoryOk(t);
    assert Written(t) == Written(s);
    assert SlotsOk(t) && ReadsOk(t);
  }

  // ---------------------------------------------------------------- one lemma per producer step

  lemma PushLoadWriteInv<T>(s: State<T>, value: T, m: nat)
    requires Inv(s) && s.prod.PIdle? && MayLoad(s.wHist, s.pView.w, m)
    ensures Inv(DoPushLoadWrite(s, value, m))
  {
    var t := DoPushLoadWrite(s, value, m);
    assert t.pView == s.pView;
    assert HistOk(t) && ViewsOk(t);
    assert ThreadsOk(t);
    assert HistoryOk(t);
    assert Written(t) == Written(s);
    assert SlotsOk(t) && ReadsOk(t);
  }

  lemma PushLoadReadInv<T>(s: State<T>, m: nat)
    requires Inv(s) && s.prod.PLoadRead? && MayLoad(s.rHist, s.pView.r, m)
    ensures Inv(DoPushLoadRead(s, m))
    ensures DoPushLoadRead(s, m).prod.PIdle? <==> s.W() - m == s.cap - 1
  {
    var t := DoPushLoadRead(s, m);
    ProducerLearns(s, m);
    FullTestExact(s.W(), m, s.cap);
    assert HistOk(t) && ViewsOk(t);
    assert ThreadsOk(t);
    assert HistoryOk(t) by {
      if t.prod.PIdle? { CallsAfterRefusal(s.completed, s.accepted, s.refused, s.cap, s.prod.value); }
    }
    assert Written(t) == Written(s);
    assert SlotsOk(t) && ReadsOk(t);
  }

  lemma PushWriteSlotViews<T>(s: State<T>)
    requires HistOk(s) && ViewsOk(s) && ThreadsOk(s) && s.prod.PWrite?
    ensures s.prod.w < s.cap
    ensures HistOk(DoPushWriteSlot(s)) && ViewsOk(DoPushWriteSlot(s)) && ThreadsOk(DoPushWriteSlot(s))
  {
    var t := DoPushWriteSlot(s);
    assert s.pView.Below(t.pView);
    assert HistOk(t);
    assert ViewsOk(t);
  }

  lemma PushWriteSlotHeld<T>(s: State<T>)
    requires SlotsOk(s) && s.prod.PWrite? && |s.slots| == s.cap && s.writeEvents == s.W()
    requires s.R() <= s.W() < s.R() + s.cap && s.prod.w == Wrap(s.W(), s.cap)
    ensures SlotsOk(DoPushWriteSlot(s))
  {
    HeldAfterWrite(s.slots, Written(s), s.R(), s.W(), s.prod.value);
    assert Written(DoPushWriteSlot(s)) == Written(s) + [s.prod.value];
  }

  lemma PushWriteSlotInv<T>(s: State<T>)
    requires Inv(s) && s.prod.PWrite?
    ensures s.prod.w < s.cap && Inv(DoPushWriteSlot(s))
  {
    PushWriteSlotViews(s);
    PushWriteSlotHeld(s);
    var t := DoPushWriteSlot(s);
    assert HistoryOk(t);
    assert ReadsOk(t);
  }

  lemma PushStoreViews<T>(s: State<T>)
    requires HistOk(s) && ViewsOk(s) && ThreadsOk(s) && s.prod.PStore?
    ensures HistOk(DoPushStore(s)) && ViewsOk(DoPushStore(s)) && ThreadsOk(DoPushStore(s))
  {
    var t := DoPushStore(s);
    assert HistOk(t) by { ExtendWriteHist(s.wHist, s.cap, s.pView, t.pView); }
    assert ViewsOk(t);
    assert ThreadsOk(t) by { WrapNext(s.W(), s.cap); }
  }

  lemma PushStoreInv<T>(s: State<T>)
    requires Inv(s) && s.prod.PStore?
    ensures Inv(DoPushStore(s))
  {
    PushStoreViews(s);
    PushStoreData(s);
  }

  lemma PushStoreData<T>(s: State<T>)
    requires HistoryOk(s) && SlotsOk(s) && ReadsOk(s) && s.prod.PStore? && s.cap > 0
    ensures HistoryOk(DoPushStore(s)) && SlotsOk(DoPushStore(s)) && ReadsOk(DoPushStore(s))
  {
    var t := DoPushStore(s);
    assert HistoryOk(t) by { CallsAfterAccept(s.completed, s.accepted, s.refused, s.cap, s.prod.value); }
    assert Written(t) == Written(s);
  }

  lemma FullLoadReadInv<T>(s: State<T>, m: nat)
    requires Inv(s) && s.prod.PIdle? && MayLoad(s.rHist, s.pView.r, m)
    ensures Inv(DoFullLoadRead(s, m))
  {
    var t := DoFullLoadRead(s, m);
    ProducerLearns(s, m);
    assert HistOk(t) && ViewsOk(t);
    assert ThreadsOk(t);
    assert HistoryOk(t);
    assert Written(t) == Written(s);
    assert SlotsOk(t) && ReadsOk(t);
  }

  lemma FullLoadWriteInv<T>(s: State<T>, m: nat)
    requires Inv(s) && s.prod.PFull? && MayLoad(s.wHist, s.pView.w, m)
    ensures Inv(DoFullLoadWrite(s, m))
    ensures DoFullLoadWrite(s, m).roomPromised <==> s.W() - s.pView.r < s.cap - 1
  {
    assert DoFullLoadWrite(s, m).pView == s.pView;
    FullTestExact(s.W(), s.pView.r, s.cap);
    FullDoneInv(s, s.W() - s.pView.r < s.cap - 1);
  }

  lemma FullDoneInv<T>(s: State<T>, room: bool)
    requires Inv(s) && s.prod.PFull? && (room ==> s.W() - s.pView.r < s.cap - 1)
    ensures Inv(s.(prod := PIdle, roomPromised := room))
  {
    var t := s.(prod := PIdle, roomPromised := room);
    assert HistOk(t) && ViewsOk(t);
    assert ThreadsOk(t);
    assert HistoryOk(t);
    assert Written(t) == Written(s);
    assert SlotsOk(t) && ReadsOk(t);
  }

  // ---------------------------------------------------------------- one lemma per consumer step

  lemma PopLoadReadInv<T>(s: State<T>, m: nat)
    requires Inv(s) && s.cons.CIdle? && MayLoad(s.rHist, s.cView.r, m)
    ensures Inv(DoPopLoadRead(s, m))
  {
    var t := DoPopLoadRead(s, m);
    assert t.cView == s.cView;
    assert HistOk(t) && ViewsOk(t);
    assert ThreadsOk(t);
    assert HistoryOk(t);
    assert Written(t) == Written(s);
    assert SlotsOk(t) && ReadsOk(t);
  }

  lemma PopLoadWriteInv<T>(s: State<T>, m: nat)
    requires Inv(s) && s.cons.CLoadWrite? && MayLoad(s.wHist, s.cView.w, m)
    ensures Inv(DoPopLoadWrite(s, m))
    ensures DoPopLoadWrite(s, m).cons.CIdle? <==> m == s.R()
  {
    var t := DoPopLoadWrite(s, m);
    ConsumerLearns(s, m);
    EmptyTestExact(m, s.R(), s.cap);
    assert HistOk(t) && ViewsOk(t);
    assert ThreadsOk(t);
    assert HistoryOk(t);
    assert Written(t) == Written(s);
    assert SlotsOk(t) && ReadsOk(t);
  }

  /** The only write the read may return is the item's own. */
  lemma ReadIsExact<T>(s: State<T>, p: nat)
    requires Inv(s) && (s.cons.CRead? || s.cons.CFrontRead?) && s.cons.r < s.cap
    requires MayRead(s.slots[s.cons.r], s.cView.writesSeen, p)
    ensures s.R() < s.W() && s.slots[s.cons.r][p].value == s.accepted[s.R()]
  {
    var slot := s.slots[s.cons.r];
    assert Holds(slot, Written(s)[s.R()], s.R() + 1);
    var last := |slot| - 1;
    assert slot[last].stamp <= s.cView.writesSeen;
  }

  lemma ReadSlotViews<T>(s: State<T>)
    requires HistOk(s) && ViewsOk(s) && ThreadsOk(s) && (s.cons.CRead? || s.cons.CFrontRead?)
    ensures s.cons.r < s.cap
    ensures var t := ReadSlot(s, s.cons.r); HistOk(t) && ViewsOk(t) && ThreadsOk(t)
  {
    var t := ReadSlot(s, s.cons.r);
    assert s.cView.Below(t.cView);
    assert HistOk(t);
    assert ViewsOk(t);
  }

  lemma ReadSlotReads<T>(s: State<T>)
    requires (s.cons.CRead? || s.cons.CFrontRead?) && ReadsOk(s)
    requires 0 <= s.R() < s.W() && s.cons.r < |s.lastRead| && s.cons.r == Wrap(s.R(), |s.lastRead|)
    ensures ReadsOk(ReadSlot(s, s.cons.r))
  {
    ReleasedAfterRead(s.lastRead, s.rHist, s.W(), s.readEvents + 1);
  }

  lemma ReadSlotInv<T>(s: State<T>)
    requires Inv(s) && (s.cons.CRead? || s.cons.CFrontRead?)
    ensures s.cons.r < s.cap && Inv(ReadSlot(s, s.cons.r))
  {
    ReadSlotViews(s);
    ReadSlotReads(s);
    var t := ReadSlot(s, s.cons.r);
    assert HistoryOk(t);
    assert Written(t) == Written(s);
    assert SlotsOk(t);
  }

  lemma PopReadSlotInv<T>(s: State<T>, p: nat)
    requires Inv(s) && s.cons.CRead? && s.cons.r < s.cap
    requires MayRead(s.slots[s.cons.r], s.cView.writesSeen, p)
    ensures Inv(DoPopReadSlot(s, p))
  {
    var t := DoPopReadSlot(s, p);
    ReadSlotInv(s);
    var u := ReadSlot(s, s.cons.r);
    assert HistOk(t) && ViewsOk(t) && ReadsOk(t);
    assert ThreadsOk(t);
    assert HistoryOk(t) by { ReadIsExact(s, p); }
    assert Written(t) == Written(u);
    assert SlotsOk(t);
  }

  lemma PopStoreInv<T>(s: State<T>)
    requires Inv(s) && s.cons.CStore?
    ensures Inv(DoPopStore(s))
  {
    var t := DoPopStore(s);
    assert HistOk(t) by { ExtendReadHist(s.rHist, s.cap, s.cView, t.cView); }
    assert ViewsOk(t);
    assert ThreadsOk(t) by { WrapNext(s.R(), s.cap); }
    assert HistoryOk(t);
    assert Written(t) == Written(s);
    assert SlotsOk(t);
    assert ReadsOk(t) by { ReleasedAfterStore(s.lastRead, s.rHist, s.W(), t.rHist[|s.rHist|]); }
  }

  lemma EmptyLoadReadInv<T>(s: State<T>, m: nat)
    requires Inv(s) && s.cons.CIdle? && MayLoad(s.rHist, s.cView.r, m)
    ensures Inv(DoEmptyLoadRead(s, m))
  {
    var t := DoEmptyLoadRead(s, m);
    assert t.cView == s.cView;
    assert HistOk(t) && ViewsOk(t);
    assert ThreadsOk(t);
    assert HistoryOk(t);
    assert Written(t) == Written(s);
    assert SlotsOk(t) && ReadsOk(t);
  }

  lemma EmptyLoadWriteInv<T>(s: State<T>, m: nat)
    requires Inv(s) && s.cons.CEmpty? && MayLoad(s.wHist, s.cView.w, m)
    ensures Inv(DoEmptyLoadWrite(s, m))
    ensures DoEmptyLoadWrite(s, m).itemPromised <==> s.R() < m
  {
    var t := DoEmptyLoadWrite(s, m);
    ConsumerLearns(s, m);
    EmptyTestExact(m, s.R(), s.cap);
    assert HistOk(t) && ViewsOk(t);
    assert ThreadsOk(t);
    assert HistoryOk(t);
    assert Written(t) == Written(s);
    assert SlotsOk(t) && ReadsOk(t);
  }

  lemma FrontLoadReadInv<T>(s: State<T>, m: nat)
    requires Inv(s) && s.cons.CIdle? && MayLoad(s.rHist, s.cView.r, m)
    ensures Inv(DoFrontLoadRead(s, m))
  {
    var t := DoFrontLoadRead(s, m);
    assert t.cView == s.cView;
    assert HistOk(t) && ViewsOk(t);
    assert ThreadsOk(t);
    assert HistoryOk(t);
    assert Written(t) == Written(s);
    assert SlotsOk(t) && ReadsOk(t);
  }

  lemma FrontLoadWriteInv<T>(s: State<T>, m: nat)
    requires Inv(s) && s.cons.CFrontLoad? && MayLoad(s.wHist, s.cView.w, m)
    ensures Inv(DoFrontLoadWrite(s, m))
  {
    var t := DoFrontLoadWrite(s, m);
    ConsumerLearns(s, m);
    EmptyTestExact(m, s.R(), s.cap);
    assert HistOk(t) && ViewsOk(t);
    assert ThreadsOk(t);
    assert HistoryOk(t);
    assert Written(t) == Written(s);
    assert SlotsOk(t) && ReadsOk(t);
  }

  lemma FrontReadSlotInv<T>(s: State<T>, p: nat)
    requires Inv(s) && s.cons.CFrontRead? && s.cons.r < s.cap
    requires MayRead(s.slots[s.cons.r], s.cView.writesSeen, p)
    ensures Inv(DoFrontReadSlot(s, p))
  {
    var t := DoFrontReadSlot(s, p);
    ReadSlotInv(s);
    var u := ReadSlot(s, s.cons.r);
    assert HistOk(t) && ViewsOk(t) && ReadsOk(t);
    assert ThreadsOk(t);
    assert HistoryOk(t) by { ReadIsExact(s, p); }
    assert Written(t) == Written(u);
    assert SlotsOk(t);
  }

  /** Every step of either thread keeps the invariant. */
  lemma StepInv<T>(s: State<T>, a: Action<T>)
    requires Inv(s) && Enabled(s, a)
    ensures Inv(Apply(s, a))
  {
    match a
    case PushLoadWrite(value, m) => PushLoadWriteInv(s, value, m);
    case PushLoadRead(m) => PushLoadReadInv(s, m);
    case PushWriteSlot => PushWriteSlotInv(s);
    case PushStore => PushStoreInv(s);
    case FullLoadRead(m) => FullLoadReadInv(s, m);
    case FullLoadWrite(m) => FullLoadWriteInv(s, m);
    case PopLoadRead(m) => PopLoadReadInv(s, m);
    case PopLoadWrite(m) => PopLoadWriteInv(s, m);
    case PopReadSlot(p) => PopReadSlotInv(s, p);
    case PopStore => PopStoreInv(s);
    case EmptyLoadRead(m) => EmptyLoadReadInv(s, m);
    case EmptyLoadWrite(m) => EmptyLoadWriteInv(s, m);
    case FrontLoadRead(m) => FrontLoadReadInv(s, m);
    case FrontLoadWrite(m) => FrontLoadWriteInv(s, m);
    case FrontReadSlot(p) => FrontReadSlotInv(s, p);
  }
}

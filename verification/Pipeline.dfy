/** The whole receiver: the IO thread takes frames off byte streams and pushes them, the business
    thread pops items and parses them into the shared table one field write at a time, and the main
    thread may dump meanwhile. */
module Pipeline {
  import opened XsheTypes
  import opened Common
  import opened Framing
  import opened Business
  import ShmImage
  import ParserSpec
  import R = SpscRing
  import S = StoreInterleaving
  import MdParser

  type Ring = R.State<QueueData>

  /** `incoming` is what the current connection had to deliver, `taken` the frames received from it and
      `stream` what is left; `frames` are the frames of all connections.  `pending` is an item popped but
      not yet parsed. */
  datatype Pipe = Pipe(
    ring: Ring, incoming: seq<byte>, taken: seq<Frame>, stream: seq<byte>, frames: seq<Frame>,
    pending: Option<QueueData>, store: S.State)

  datatype Action =
    | Connect(bytes: seq<byte>)             // a new connection and the bytes it will deliver
    | TakeHeartbeat                         // RecvMsg on a frame that is not for the ring
    | TakeFrame(m: nat)                     // RecvMsg up to and including push's first load
    | RingStep(step: R.Action<QueueData>)   // any other atomic step of push or pop
    | Process(now: int)                     // route and decode the popped item, enter parse
    | StoreStep(move: S.Action)             // one step of parse, or of a dump

  /** Memory of the right size in a consistent state: new, or left by an earlier process. */
  ghost predicate TableMemory(left: ShmImage.Shm) {
    ShmImage.Rep(left) && |left.table| == MdParser.TABLE_SIZE
  }

  ghost function Start(capacity: nat, zero: QueueData, left: ShmImage.Shm): Pipe
    requires TableMemory(left)
  {
    Pipe(R.Initial(capacity, zero), [], [], [], [], None, S.Attached(left))
  }

  predicate PushStep(step: R.Action<QueueData>) { step.PushLoadRead? || step.PushWriteSlot? || step.PushStore? }

  predicate PopStep(step: R.Action<QueueData>) {
    step.PopLoadRead? || step.PopLoadWrite? || step.PopReadSlot? || step.PopStore?
  }

  /** The stream starts with a good frame. */
  predicate HasFrame(p: Pipe) {
    Fits(p.stream) && Receive(p.stream).ret == 0 && WellFormed(NextFrame(p))
  }

  function NextFrame(p: Pipe): Frame
    requires Fits(p.stream) && Receive(p.stream).ret == 0
  {
    Receive(p.stream).frame.value
  }

  function DoTake(p: Pipe): Pipe
    requires HasFrame(p)
  {
    p.(stream := Receive(p.stream).rest, taken := p.taken + [NextFrame(p)], frames := p.frames + [NextFrame(p)])
  }

  function DoTakeFrame(p: Pipe, m: nat): Pipe
    requires HasFrame(p) && R.Enabled(p.ring, R.PushLoadWrite(Queued(NextFrame(p)), m))
  {
    DoTake(p).(ring := R.Apply(p.ring, R.PushLoadWrite(Queued(NextFrame(p)), m)))
  }

  function DoRingStep(p: Pipe, step: R.Action<QueueData>): Pipe
    requires R.Enabled(p.ring, step)
  {
    p.(ring := R.Apply(p.ring, step), pending := if step.PopStore? then Some(p.ring.cons.value) else p.pending)
  }

  /** An item that does not fit the struct it would be decoded into stops the model here. */
  predicate MayProcess(p: Pipe, now: int) {
    && p.pending.Some? && p.store.biz.BIdle? && HkSafe(p.pending.value)
    && (SnapshotOf(p.pending.value).Some? ==> S.Enabled(p.store, S.BeginParse(SnapshotOf(p.pending.value).value, now)))
  }

  function DoProcess(p: Pipe, now: int): Pipe
    requires MayProcess(p, now)
  {
    var snap := SnapshotOf(p.pending.value);
    p.(pending := None, store := if snap.Some? then S.Apply(p.store, S.BeginParse(snap.value, now)) else p.store)
  }

  predicate Enabled(p: Pipe, a: Action) {
    match a
    case Connect(_) => p.ring.prod.PIdle?
    case TakeHeartbeat => p.ring.prod.PIdle? && HasFrame(p) && IsHeartbeat(NextFrame(p).msgType)
    case TakeFrame(m) =>
      && p.ring.prod.PIdle? && HasFrame(p) && !IsHeartbeat(NextFrame(p).msgType)
      && R.Enabled(p.ring, R.PushLoadWrite(Queued(NextFrame(p)), m))
    case RingStep(step) =>
      && R.Enabled(p.ring, step) && (PushStep(step) || PopStep(step))
      && (step.PopLoadRead? ==> p.pending.None? && p.store.biz.BIdle?)
    case Process(now) => MayProcess(p, now)
    case StoreStep(move) => !move.BeginParse? && !move.ClearStart? && S.Enabled(p.store, move)
  }

  function Apply(p: Pipe, a: Action): Pipe
    requires Enabled(p, a)
  {
    match a
    case Connect(bytes) => p.(incoming := bytes, stream := bytes, taken := [])
    case TakeHeartbeat => DoTake(p)
    case TakeFrame(m) => DoTakeFrame(p, m)
    case RingStep(step) => DoRingStep(p, step)
    case Process(now) => DoProcess(p, now)
    case StoreStep(move) => p.(store := S.Apply(p.store, move))
  }

  // ---------------------------------------------------------------- what the histories stand for

  /** The items offered to the ring so far: those whose push has returned and the one in progress. */
  function Offered(s: Ring): seq<QueueData> {
    s.completed + (if s.prod.PLoadRead? || s.prod.PWrite? || s.prod.PStore? then [s.prod.value] else [])
  }

  /** The popped items whose parse has begun. */
  function Begun(p: Pipe): seq<QueueData> {
    if p.pending.Some? && |p.ring.popped| > 0 then p.ring.popped[..|p.ring.popped| - 1] else p.ring.popped
  }

  // ---------------------------------------------------------------- invariant

  /** Neither thread is inside an observer call. */
  predicate Plain(s: Ring) {
    !s.prod.PFull? && !s.cons.CEmpty? && !s.cons.CFrontLoad? && !s.cons.CFrontRead?
  }

  ghost predicate IoOk(p: Pipe) {
    && R.Inv(p.ring) && Plain(p.ring) && Offered(p.ring) == Items(p.frames)
    && Delivers(p.incoming, p.taken, p.stream)
  }

  ghost predicate BizOk(p: Pipe) {
    && (p.pending.Some? ==> |p.ring.popped| > 0 && p.ring.popped[|p.ring.popped| - 1] == p.pending.value)
    && (!p.ring.cons.CIdle? ==> p.pending.None? && p.store.biz.BIdle?)
    && S.OnTrack(p.store) && |p.store.shm.table| == MdParser.TABLE_SIZE
    && p.store.parsed == Snapshots(Begun(p))
  }

  ghost predicate Inv(p: Pipe) { IoOk(p) && BizOk(p) }

  lemma StartInv(capacity: nat, zero: QueueData, left: ShmImage.Shm)
    requires capacity > 0 && TableMemory(left)
    ensures Inv(Start(capacity, zero, left))
  {
    R.InitialInv(capacity, zero);
    S.AttachedInv(left);
    assert S.OnTrack(S.Attached(left));
  }

  lemma {:induction false} DeliversOneMore(s: seq<byte>, frames: seq<Frame>, mid: seq<byte>)
    requires Delivers(s, frames, mid) && Fits(mid) && Receive(mid).ret == 0
    ensures Delivers(s, frames + [Receive(mid).frame.value], Receive(mid).rest)
    decreases |frames|
  {
    var more := frames + [Receive(mid).frame.value];
    if frames == [] {
      assert more[1..] == [];
    } else {
      DeliversOneMore(Receive(s).rest, frames[1..], mid);
      assert more[1..] == frames[1..] + [Receive(mid).frame.value];
    }
  }

  lemma OfferFrame(s: Ring, item: QueueData, m: nat)
    requires R.Inv(s) && Plain(s) && R.Enabled(s, R.PushLoadWrite(item, m))
    ensures var t := R.Apply(s, R.PushLoadWrite(item, m));
            && R.Inv(t) && Plain(t) && Offered(t) == Offered(s) + [item]
            && t.popped == s.popped && t.cons == s.cons
  {
    R.PushLoadWriteInv(s, item, m);
  }

  lemma PushStepEffect(s: Ring, step: R.Action<QueueData>)
    requires Plain(s) && R.Enabled(s, step) && PushStep(step)
    ensures var t := R.Apply(s, step);
            Plain(t) && Offered(t) == Offered(s) && t.popped == s.popped && t.cons == s.cons
  {
  }

  lemma PopStepEffect(s: Ring, step: R.Action<QueueData>)
    requires Plain(s) && R.Enabled(s, step) && PopStep(step)
    ensures var t := R.Apply(s, step);
            && Plain(t) && Offered(t) == Offered(s)
            && (if step.PopStore? then s.cons.CStore? && t.cons.CIdle? && t.popped == s.popped + [s.cons.value]
                else t.popped == s.popped && (s.cons.CIdle? ==> step.PopLoadRead?))
  {
  }

  lemma TakeInv(p: Pipe)
    requires Delivers(p.incoming, p.taken, p.stream) && HasFrame(p)
    ensures Delivers(DoTake(p).incoming, DoTake(p).taken, DoTake(p).stream)
    ensures Items(DoTake(p).frames) ==
            Items(p.frames) + if IsHeartbeat(NextFrame(p).msgType) then [] else [Queued(NextFrame(p))]
  {
    DeliversOneMore(p.incoming, p.taken, p.stream);
    assert DoTake(p).frames[..|p.frames|] == p.frames;
  }

  lemma TakeFrameInv(p: Pipe, m: nat)
    requires Inv(p) && HasFrame(p) && !IsHeartbeat(NextFrame(p).msgType)
    requires R.Enabled(p.ring, R.PushLoadWrite(Queued(NextFrame(p)), m))
    ensures Inv(DoTakeFrame(p, m))
  {
    TakeInv(p);
    OfferFrame(p.ring, Queued(NextFrame(p)), m);
    var q := DoTakeFrame(p, m);
    assert IoOk(q);
    assert Begun(q) == Begun(p);
  }

  lemma RingPushInv(p: Pipe, step: R.Action<QueueData>)
    requires Inv(p) && R.Enabled(p.ring, step) && PushStep(step)
    ensures Inv(DoRingStep(p, step))
  {
    var q := DoRingStep(p, step);
    assert R.Inv(q.ring) by { R.StepInv(p.ring, step); }
    PushStepEffect(p.ring, step);
    assert Begun(q) == Begun(p);
  }

  lemma RingPopInv(p: Pipe, step: R.Action<QueueData>)
    requires Inv(p) && R.Enabled(p.ring, step) && PopStep(step)
    requires step.PopLoadRead? ==> p.pending.None? && p.store.biz.BIdle?
    ensures Inv(DoRingStep(p, step))
  {
    var q := DoRingStep(p, step);
    assert R.Inv(q.ring) by { R.StepInv(p.ring, step); }
    PopStepEffect(p.ring, step);
    assert Begun(q) == Begun(p);
  }

  lemma ProcessBiz(p: Pipe, now: int)
    requires BizOk(p) && MayProcess(p, now)
    ensures BizOk(DoProcess(p, now)) && DoProcess(p, now).store.base == p.store.base
  {
    var q, snap := DoProcess(p, now), SnapshotOf(p.pending.value);
    assert Begun(q)[..|Begun(q)| - 1] == Begun(p);
    assert Snapshots(Begun(q)) == Snapshots(Begun(p)) + if snap.Some? then [snap.value] else [];
    if snap.Some? {
      S.StepOnTrack(p.store, S.BeginParse(snap.value, now));
    }
  }

  lemma ProcessInv(p: Pipe, now: int)
    requires Inv(p) && MayProcess(p, now)
    ensures Inv(DoProcess(p, now)) && DoProcess(p, now).store.base == p.store.base
  {
    ProcessBiz(p, now);
  }

  lemma ConnectInv(p: Pipe, bytes: seq<byte>)
    requires Inv(p)
    ensures Inv(p.(incoming := bytes, stream := bytes, taken := []))
  {
    assert Begun(p.(incoming := bytes, stream := bytes, taken := [])) == Begun(p);
  }

  lemma HeartbeatInv(p: Pipe)
    requires Inv(p) && HasFrame(p)
    ensures IsHeartbeat(NextFrame(p).msgType) ==> Inv(DoTake(p))
  {
    TakeInv(p);
    assert Begun(DoTake(p)) == Begun(p);
  }

  lemma StoreStepInv(p: Pipe, move: S.Action)
    requires BizOk(p) && !move.BeginParse? && !move.ClearStart? && S.Enabled(p.store, move)
    ensures BizOk(p.(store := S.Apply(p.store, move))) && S.Apply(p.store, move).base == p.store.base
  {
    S.StepOnTrack(p.store, move);
    assert Begun(p.(store := S.Apply(p.store, move))) == Begun(p);
  }

  lemma StepInv(p: Pipe, a: Action)
    requires Inv(p) && Enabled(p, a)
    ensures Inv(Apply(p, a)) && Apply(p, a).store.base == p.store.base
  {
    match a
    case Connect(bytes) => ConnectInv(p, bytes);
    case TakeHeartbeat => HeartbeatInv(p);
    case TakeFrame(m) => TakeFrameInv(p, m);
    case RingStep(step) => if PushStep(step) { RingPushInv(p, step); } else { RingPopInv(p, step); }
    case Process(now) => ProcessInv(p, now);
    case StoreStep(move) => StoreStepInv(p, move);
  }

  predicate Feasible(p: Pipe, run: seq<Action>)
    decreases |run|
  {
    run == [] || (Enabled(p, run[0]) && Feasible(Apply(p, run[0]), run[1..]))
  }

  function Run(p: Pipe, run: seq<Action>): Pipe
    requires Feasible(p, run)
    decreases |run|
  {
    if run == [] then p else Run(Apply(p, run[0]), run[1..])
  }

  lemma {:induction false} RunInv(p: Pipe, run: seq<Action>)
    requires Inv(p) && Feasible(p, run)
    ensures Inv(Run(p, run)) && Run(p, run).store.base == p.store.base
    decreases |run|
  {
    if run != [] {
      StepInv(p, run[0]);
      RunInv(Apply(p, run[0]), run[1..]);
    }
  }
}

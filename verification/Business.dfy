/** The business thread: pop one item, route it by message type, decode it and parse it. */
module Business {
  import opened XsheTypes
  import opened Common
  import opened Codec
  import opened CodecLayout
  import opened CodecRoundTrip
  import opened Deserialize
  import opened ShmImage
  import ParserSpec
  import opened ParserFields
  import opened MdParser
  import opened Framing
  import opened RingQueue
  import opened Session

  const MD_TYPE := 300111
  const HK_TYPE := 306311
  const STATUS_TYPE := 390019
  const STAT_TYPE := 390090

  /** What a registered handler decodes. */
  datatype Handler = HandleMD | HandleHk | HandleStatus | HandleStat

  const HANDLERS: map<int, Handler> :=
    map[MD_TYPE := HandleMD, HK_TYPE := HandleHk, STATUS_TYPE := HandleStatus, STAT_TYPE := HandleStat]

  class MsgRouter {
    var handlers: map<int, Handler>

    constructor ()
      ensures handlers == map[]
    {
      handlers := map[];
    }

    /** A second registration of a type replaces the first. */
    method RegisterHandler(msgType: int, handler: Handler)
      modifies this
      ensures handlers == old(handlers)[msgType := handler]
    {
      handlers := handlers[msgType := handler];
    }

    method InitializeMsgHandlers()
      modifies this
      ensures handlers == old(handlers) + HANDLERS
    {
      RegisterHandler(MD_TYPE, HandleMD);
      RegisterHandler(HK_TYPE, HandleHk);
      RegisterHandler(STATUS_TYPE, HandleStatus);
      RegisterHandler(STAT_TYPE, HandleStat);
    }
  }

  /** Decoding the item stays inside the struct it is decoded into. */
  predicate HkSafe(q: QueueData) { q.msgType == HK_TYPE ==> HkFits(q.body, q.bodyLength) }

  /** Whether a handler is registered for the item and its body passes the handler's checks. */
  predicate Decodes(q: QueueData) {
    || (q.msgType == MD_TYPE && MDStatus(q.body, q.bodyLength) == 0)
    || (q.msgType == HK_TYPE && HkStatus(q.body, q.bodyLength) == 0)
    || (q.msgType == STATUS_TYPE && q.bodyLength == STATUS_SIZE)
    || (q.msgType == STAT_TYPE && StatStatus(q.body, q.bodyLength) == 0)
  }

  /** The market data an item carries for the parser, if it decodes. */
  function SnapshotOf(q: QueueData): (r: Option<ParserSpec.Snapshot>)
    ensures r.Some? ==> r.value.market == ParserSpec.SZ_MARKET || r.value.market == ParserSpec.HK_MARKET
  {
    if q.msgType == MD_TYPE && MDStatus(q.body, q.bodyLength) == 0 then
      MDShapeRead(q.body);
      Some(ParserSpec.OfSz(WireMD(q.body)))
    else if q.msgType == HK_TYPE && HkStatus(q.body, q.bodyLength) == 0 then
      HkEntryTypes(q.body);
      Some(ParserSpec.OfHk(Kept(WireHk(q.body))))
    else None
  }

  // ---------------------------------------------------------------- the effect of one popped item

  /** An item of type `msgType` whose body is `bytes`. */
  predicate Carries(q: QueueData, msgType: uint32, bytes: seq<byte>) {
    q.msgType == msgType && Starts(q.body, q.bodyLength, bytes)
  }

  /** Every item RecvMsg makes of a frame carries the frame's body. */
  lemma QueuedCarries(f: Frame)
    requires WellFormed(f)
    ensures Carries(Queued(f), f.msgType, f.body)
  {
  }

  ghost predicate CarriesData(q: QueueData) {
    || (exists m :: MDShape(m) && Carries(q, 300111, EncodeMD(m)))
    || (exists m :: HkShape(m) && Carries(q, 306311, EncodeHk(m)))
  }

  /** The table before and after an item: the records of market data it carries, and no change for any other. */
  ghost predicate Handled(before: Ordered, q: QueueData, now: int, after: Ordered) {
    && (forall m :: MDShape(m) && Carries(q, 300111, EncodeMD(m)) ==>
          SzParsed(before, after, m.prefix, m.entries, now))
    && (forall m :: HkShape(m) && Carries(q, 306311, EncodeHk(m)) ==>
          HkParsed(before, after, m.prefix, m.entries, now))
    && (!CarriesData(q) ==> after == before)
  }

  /** The table an item leaves. */
  ghost function TableAfter(o: Ordered, q: QueueData, now: int): Ordered {
    match SnapshotOf(q)
    case None => o
    case Some(snap) => ParserSpec.ParseInto(o, snap, now)
  }

  /** Nothing of it is left open: it is what parsing makes of the market data decoded from the item. */
  lemma HandledIff(before: Ordered, q: QueueData, now: int, after: Ordered)
    requires HkSafe(q)
    ensures Handled(before, q, now, after) <==> after == TableAfter(before, q, now)
  {
    MDAccepted(q.body, q.bodyLength);
    if q.msgType == MD_TYPE && MDStatus(q.body, q.bodyLength) == 0 {
      HandledMD(before, q, now, after);
    } else if q.msgType == HK_TYPE && HkStatus(q.body, q.bodyLength) == 0 {
      HandledHk(before, q, now, after);
    } else if q.bodyLength <= BODY_SIZE {
      HkAccepted(q.body, q.bodyLength);
    }
  }

  lemma HandledOther(o: Ordered, q: QueueData, now: int)
    requires SnapshotOf(q).None? && HkSafe(q)
    ensures Handled(o, q, now, o)
  {
    HandledIff(o, q, now, o);
  }

  lemma HandledMD(before: Ordered, q: QueueData, now: int, after: Ordered)
    requires q.msgType == MD_TYPE && MDStatus(q.body, q.bodyLength) == 0
    ensures Handled(before, q, now, after) <==> after == TableAfter(before, q, now)
  {
    var md := WireMD(q.body);
    MDShapeRead(q.body);
    MDAccepted(q.body, q.bodyLength);
    assert Carries(q, MD_TYPE, EncodeMD(md));
    SzParsedIff(before, after, md, now);
  }

  lemma HandledHk(before: Ordered, q: QueueData, now: int, after: Ordered)
    requires q.msgType == HK_TYPE && HkStatus(q.body, q.bodyLength) == 0 && HkSafe(q)
    ensures Handled(before, q, now, after) <==> after == TableAfter(before, q, now)
  {
    var m := HkMessageOf(q.body);
    HkAccepted(q.body, q.bodyLength);
    HkEntryTypes(q.body);
    assert HkShape(m) && Carries(q, HK_TYPE, EncodeHk(m)) && Kept(WireHk(q.body)) == HostHk(m);
    HkParsedIff(before, after, Kept(WireHk(q.body)), now);
  }

  /** Which items leave the struct they are decoded into. */
  lemma SafeExact(q: QueueData)
    requires q.bodyLength <= 4096
    ensures HkSafe(q) <==> forall m :: HkShape(m) && Carries(q, 306311, EncodeHk(m)) ==>
                                   20 * |m.entries| + 16 * |m.windows| <= 616
  {
    HkAccepted(q.body, q.bodyLength);
    if HkStatus(q.body, q.bodyLength) == 0 {
      var m := HkMessageOf(q.body);
      HkBack(q.body, q.bodyLength);
      HkFitsIff(q.body, q.bodyLength);
      assert HkShape(m) && Starts(q.body, q.bodyLength, EncodeHk(m));
    }
  }

  /** Which items decode. */
  lemma DecodesExact(q: QueueData)
    requires q.bodyLength <= 4096
    ensures Decodes(q) <==>
            || (exists m :: MDShape(m) && Carries(q, 300111, EncodeMD(m)))
            || (exists m :: HkShape(m) && Carries(q, 306311, EncodeHk(m)))
            || (q.msgType == 390019 && q.bodyLength == 69)
            || (exists m :: StatShape(m) && Carries(q, 390090, EncodeStat(m)))
  {
    MDAccepted(q.body, q.bodyLength);
    StatAccepted(q.body, q.bodyLength);
    HkAccepted(q.body, q.bodyLength);
  }

  /** The market data carried by a sequence of items, in order. */
  function Snapshots(items: seq<QueueData>): (snaps: seq<ParserSpec.Snapshot>)
    ensures forall i :: 0 <= i < |snaps| ==> snaps[i].market > 0
  {
    if items == [] then []
    else
      var last := SnapshotOf(items[|items| - 1]);
      Snapshots(items[..|items| - 1]) + if last.Some? then [last.value] else []
  }

  /** The clocks at which the items that carry market data are handled. */
  function DataClocks(items: seq<QueueData>, clocks: seq<int>): (nows: seq<int>)
    requires |items| == |clocks|
    ensures |nows| == |Snapshots(items)|
  {
    if items == [] then []
    else
      var n := |items| - 1;
      DataClocks(items[..n], clocks[..n]) + if SnapshotOf(items[n]).Some? then [clocks[n]] else []
  }

  lemma ItemStep(o: Ordered, items: seq<QueueData>, clocks: seq<int>, q: QueueData, now: int)
    requires |clocks| == |items|
    ensures ParserSpec.ParseAll(o, Snapshots(items + [q]), DataClocks(items + [q], clocks + [now]))
         == TableAfter(ParserSpec.ParseAll(o, Snapshots(items), DataClocks(items, clocks)), q, now)
  {
    assert (items + [q])[..|items|] == items && (clocks + [now])[..|clocks|] == clocks;
    if SnapshotOf(q).Some? {
      ParserSpec.ParseAllSnoc(o, Snapshots(items), DataClocks(items, clocks), SnapshotOf(q).value, now);
    } else {
      assert Snapshots(items) + [] == Snapshots(items) && DataClocks(items, clocks) + [] == DataClocks(items, clocks);
    }
  }

  ghost predicate HandledInTurn(tables: seq<Ordered>, items: seq<QueueData>, clocks: seq<int>)
    requires |tables| == |items| + 1 && |clocks| == |items|
  {
    forall i :: 0 <= i < |items| ==> Handled(tables[i], items[i], clocks[i], tables[i + 1])
  }

  /** Handling items one by one, each as popAndParse does, is parsing the market data they carry. */
  lemma {:induction false} HandledFold(tables: seq<Ordered>, items: seq<QueueData>, clocks: seq<int>)
    requires |tables| == |items| + 1 && |clocks| == |items| && forall i :: 0 <= i < |items| ==> HkSafe(items[i])
    requires HandledInTurn(tables, items, clocks)
    ensures tables[|items|] == ParserSpec.ParseAll(tables[0], Snapshots(items), DataClocks(items, clocks))
    decreases |items|
  {
    if items != [] {
      var n := |items| - 1;
      assert tables[n + 1] == TableAfter(tables[n], items[n], clocks[n]) by {
        HandledIff(tables[n], items[n], clocks[n], tables[n + 1]);
      }
      var was := ParserSpec.ParseAll(tables[0], Snapshots(items[..n]), DataClocks(items[..n], clocks[..n]));
      assert tables[n] == was by {
        HandledFold(tables[..n + 1], items[..n], clocks[..n]);
      }
      ItemStep(tables[0], items[..n], clocks[..n], items[n], clocks[n]);
      assert items == items[..n] + [items[n]] && clocks == clocks[..n] + [clocks[n]];
    }
  }

  /** The keys of the dictionary of Hong Kong trading sessions. */
  const SESSION_IDS: set<int> := {-1, 0, 1, 2, 3, 4, 5, 7, 100, 101, 102, 103, 104, 105, 106, 107, 108}

  /** How handling an item ends: with the handler's answer, with a copy that left its struct, behind which nothing
      is promised, or with an exception nobody catches, which ends the thread. */
  datatype Outcome = Nothing | Done(ok: bool) | OutOfStruct | Thrown

  class BusinessThread {
    const router: MsgRouter
    const parser: MDParser
    const fs: FuncStats
    const atoi: RawSzHkMarketStatus -> int    // of the sub id's characters and what lies behind them
    var hkTradingSessionSubId: int

    constructor (router: MsgRouter, parser: MDParser, fs: FuncStats, atoi: RawSzHkMarketStatus -> int)
      ensures this.router == router && this.parser == parser && this.fs == fs && this.atoi == atoi
      ensures hkTradingSessionSubId == -1
    {
      this.router, this.parser, this.fs, this.atoi := router, parser, fs, atoi;
      hkTradingSessionSubId := -1;
    }

    ghost predicate Valid()
      reads this, router, parser, parser.myMDmap, parser.myMDmap.mem
      reads parser.myMDmap.mem.index, parser.myMDmap.mem.table
    {
      && router.handlers == HANDLERS && parser.Valid() && parser.myMDmap.mem.table.Length == TABLE_SIZE
      && hkTradingSessionSubId in SESSION_IDS
    }

    predicate IsStatus(q: QueueData) { q.msgType == STATUS_TYPE && q.bodyLength == STATUS_SIZE }

    /** The sub id of a market status. */
    function SubId(q: QueueData): int { atoi(ReadStatus(Big, q.body)) }

    /** OnRealTimeHKMarketStatus: a changed sub id is looked up, with the one before, for the log. */
    method OnRealTimeHKMarketStatus(ms: RawSzHkMarketStatus) returns (thrown: bool)
      requires Valid()
      modifies this`hkTradingSessionSubId
      ensures Valid()
      ensures thrown <==> atoi(ms) !in SESSION_IDS
      ensures hkTradingSessionSubId == if thrown then old(hkTradingSessionSubId) else atoi(ms)
    {
      var tmp, cur := atoi(ms), hkTradingSessionSubId;
      if cur != tmp {
        if cur !in SESSION_IDS || tmp !in SESSION_IDS {
          return true;
        }
        hkTradingSessionSubId := tmp;
      }
      return false;
    }

    method OnRealTimeMD(md: RawSzMDData, now: int)
      requires Valid() && SzEntries(md.entries)
      modifies parser.myMDmap.mem`size, parser.myMDmap.mem.index, parser.myMDmap.mem.table
      ensures Valid() && parser.Map() == ParserSpec.ParseInto(old(parser.Map()), ParserSpec.OfSz(md), now)
    {
      var _ := parser.ParseSz(md, now);
    }

    method OnRealTimeHKMD(md: RawSzHkMDData, now: int)
      requires Valid() && HkEntries(md.entries)
      modifies parser.myMDmap.mem`size, parser.myMDmap.mem.index, parser.myMDmap.mem.table
      ensures Valid() && parser.Map() == ParserSpec.ParseInto(old(parser.Map()), ParserSpec.OfHk(md), now)
    {
      var _ := parser.ParseHk(md, now);
    }

    /** MsgProcessor::operator() for 300111. */
    method HandleMDItem(q: QueueData, now: int) returns (ok: bool)
      requires Valid() && q.msgType == MD_TYPE
      modifies parser.myMDmap.mem`size, parser.myMDmap.mem.index, parser.myMDmap.mem.table
      ensures Valid() && Handled(old(parser.Map()), q, now, parser.Map())
      ensures ok <==> MDStatus(q.body, q.bodyLength) == 0
    {
      var data := new byte[MD_SIZE](_ => 0);
      var ret := DeserializeMD(data, q.body, q.bodyLength);
      if ret != 0 {
        HandledOther(parser.Map(), q, now);
        return false;
      }
      MDShapeRead(q.body);
      var md := ReadMD(Little, data[..], U32At(Little, data[..], 65));
      assert md == WireMD(q.body);
      ghost var before := parser.Map();
      OnRealTimeMD(md, now);
      HandledMD(before, q, now, parser.Map());
      return true;
    }

    /** MsgProcessor::operator() for 306311; nothing is promised if the item does not fit its struct. */
    method HandleHkItem(q: QueueData, now: int) returns (ok: bool, fits: bool)
      requires Valid() && q.msgType == HK_TYPE
      modifies parser.myMDmap.mem`size, parser.myMDmap.mem.index, parser.myMDmap.mem.table
      ensures Valid() && (fits <==> HkSafe(q))
      ensures fits ==> Handled(old(parser.Map()), q, now, parser.Map())
      ensures fits ==> (ok <==> HkStatus(q.body, q.bodyLength) == 0)
    {
      var data := new byte[HK_SIZE](_ => 0);
      var ret;
      ret, fits := DeserializeHk(data, q.body, q.bodyLength);
      if !fits || ret != 0 {
        if fits { HandledOther(parser.Map(), q, now); }
        return false, fits;
      }
      HkEntryTypes(q.body);
      var md := ReadHk(Little, data[..], U32At(Little, data[..], 65), VCM_OFFSET);
      assert md == Kept(WireHk(q.body));
      ghost var before := parser.Map();
      OnRealTimeHKMD(md, now);
      HandledHk(before, q, now, parser.Map());
      return true, true;
    }

    /** MsgProcessor::operator() for 390019. */
    method HandleStatusItem(q: QueueData) returns (ok: bool, thrown: bool)
      requires Valid() && q.msgType == STATUS_TYPE
      modifies this`hkTradingSessionSubId
      ensures Valid() && (ok <==> IsStatus(q) && !thrown) && (thrown <==> IsStatus(q) && SubId(q) !in SESSION_IDS)
      ensures hkTradingSessionSubId == if ok then SubId(q) else old(hkTradingSessionSubId)
    {
      var data := new byte[STATUS_SIZE](_ => 0);
      var ret := DeserializeStatus(data, q.body, q.bodyLength);
      if ret != 0 {
        return false, false;
      }
      thrown := OnRealTimeHKMarketStatus(ReadStatus(Little, data[..]));
      return !thrown, thrown;
    }

    /** MsgProcessor::operator() for 390090: decoded and handed to nobody. */
    method HandleStatItem(q: QueueData) returns (ok: bool)
      ensures ok <==> StatStatus(q.body, q.bodyLength) == 0
    {
      var data := new byte[STAT_SIZE](_ => 0);
      var ret := DeserializeStat(data, q.body, q.bodyLength);
      return ret == 0;
    }

    /** MsgRouter::route: unknown types and bodies that do not decode leave the table as it was. */
    method Route(q: QueueData, now: int) returns (r: Outcome)
      requires Valid()
      modifies this`hkTradingSessionSubId
      modifies parser.myMDmap.mem`size, parser.myMDmap.mem.index, parser.myMDmap.mem.table
      ensures Valid() && !r.Nothing?
      ensures r.OutOfStruct? <==> !HkSafe(q)
      ensures r.Thrown? <==> q.msgType == 390019 && q.bodyLength == 69 && atoi(ReadStatus(Big, q.body)) !in SESSION_IDS
      ensures r.Done? ==> (r.ok <==> Decodes(q))
      ensures !r.OutOfStruct? ==> Handled(old(parser.Map()), q, now, parser.Map())
      ensures hkTradingSessionSubId == if r.Done? && IsStatus(q) then SubId(q) else old(hkTradingSessionSubId)
    {
      var ok, bad := false, false;
      var key := ParserSpec.ToInt32(q.msgType);
      if q.msgType != MD_TYPE && q.msgType != HK_TYPE { HandledOther(parser.Map(), q, now); }
      if key !in router.handlers {
        return Done(false);
      }
      match router.handlers[key] {
        case HandleMD =>
          ok := HandleMDItem(q, now);
        case HandleHk =>
          ok, bad := HandleHkItem(q, now);
          if !bad {
            return OutOfStruct;
          }
        case HandleStatus =>
          ok, bad := HandleStatusItem(q);
          if bad {
            return Thrown;
          }
        case HandleStat =>
          ok := HandleStatItem(q);
      }
      return Done(ok);
    }

    /** popAndParse: nothing happens when nothing is queued or arrives in time; otherwise the oldest item is
        processed and, unless an exception ends the thread, counted, whether or not it decoded.  The table gets
        the record of the market data the item carries, and is as it was for every other item. */
    method PopAndParse(queue: MyFifoQueueNL<QueueData>, timeoutMs: int, elapsed: seq<int>,
                       arrivals: seq<seq<QueueData>>, now: int) returns (r: Outcome)
      requires Valid() && queue.Valid() && |arrivals| == |elapsed|
      requires exists i :: 0 <= i < |elapsed| && elapsed[i] >= timeoutMs
      modifies this`hkTradingSessionSubId, queue`readIndex, queue`writeIndex, queue.buffer, fs
      modifies parser.myMDmap.mem`size, parser.myMDmap.mem.index, parser.myMDmap.mem.table
      ensures Valid() && queue.Valid()
      ensures var q := AtEnd(old(queue.Contents()), queue.capacity, timeoutMs, elapsed, arrivals, 0);
              && (r.Nothing? <==> q == [])
              && (q == [] ==>
                    queue.Contents() == [] && parser.Map() == old(parser.Map()) && fs.success == old(fs.success))
              && (q != [] ==>
                    && (r.OutOfStruct? <==> !HkSafe(q[0]))
                    && (r.Thrown? <==> q[0].msgType == 390019 && q[0].bodyLength == 69
                                       && atoi(ReadStatus(Big, q[0].body)) !in SESSION_IDS)
                    && (r.Done? ==> (r.ok <==> Decodes(q[0]))))
              && (q != [] && !r.OutOfStruct? ==>
                    && queue.Contents() == q[1..]
                    && hkTradingSessionSubId == (if r.Done? && q[0].msgType == 390019 && q[0].bodyLength == 69
                                                 then atoi(ReadStatus(Big, q[0].body)) else old(hkTradingSessionSubId))
                    && fs.success == if r.Thrown? then old(fs.success) else Counted(old(fs.success), q[0].msgType))
      ensures var q := AtEnd(old(queue.Contents()), queue.capacity, timeoutMs, elapsed, arrivals, 0);
              q != [] && !r.OutOfStruct? ==>
                && (forall m :: MDShape(m) && Carries(q[0], 300111, EncodeMD(m)) ==>
                      SzParsed(old(parser.Map()), parser.Map(), m.prefix, m.entries, now))
                && (forall m :: HkShape(m) && Carries(q[0], 306311, EncodeHk(m)) ==>
                      HkParsed(old(parser.Map()), parser.Map(), m.prefix, m.entries, now))
                && (parser.Map() == old(parser.Map())
                    || (exists m :: MDShape(m) && Carries(q[0], 300111, EncodeMD(m)))
                    || (exists m :: HkShape(m) && Carries(q[0], 306311, EncodeHk(m))))
    {
      var ok, q := queue.TryPop(timeoutMs, elapsed, arrivals);
      if !ok {
        return Nothing;
      }
      r := Route(q, now);
      if !r.Done? {
        return;
      }
      fs.Count(q.msgType);
    }

    /** One call while something is queued. */
    method HandleNext(queue: MyFifoQueueNL<QueueData>, timeoutMs: int, now: int, ghost q: QueueData)
      requires Valid() && queue.Valid() && queue.Contents() != [] && q == queue.Contents()[0]
      requires HkSafe(q) && (IsStatus(q) ==> SubId(q) in SESSION_IDS)
      modifies this`hkTradingSessionSubId, queue`readIndex, queue`writeIndex, queue.buffer, fs
      modifies parser.myMDmap.mem`size, parser.myMDmap.mem.index, parser.myMDmap.mem.table
      ensures Valid() && queue.Valid() && queue.Contents() == old(queue.Contents())[1..]
      ensures Handled(old(parser.Map()), q, now, parser.Map())
    {
      assert [timeoutMs][0] >= timeoutMs;
      var r := PopAndParse(queue, timeoutMs, [timeoutMs], [[]], now);
    }

    /** The thread's calls on what is queued, the clock reading `clocks[i]` at the i-th: everything is popped, and
        the table is the fold of decode-then-parse over it. */
    method HandleQueued(queue: MyFifoQueueNL<QueueData>, timeoutMs: int, clocks: seq<int>)
      requires Valid() && queue.Valid() && |clocks| == |queue.Contents()|
      requires forall q :: q in queue.Contents() ==> HkSafe(q) && (IsStatus(q) ==> SubId(q) in SESSION_IDS)
      modifies this`hkTradingSessionSubId, queue`readIndex, queue`writeIndex, queue.buffer, fs
      modifies parser.myMDmap.mem`size, parser.myMDmap.mem.index, parser.myMDmap.mem.table
      ensures Valid() && queue.Valid() && queue.Contents() == []
      ensures parser.Map() == ParserSpec.ParseAll(old(parser.Map()), Snapshots(old(queue.Contents())),
                                                  DataClocks(old(queue.Contents()), clocks))
    {
      ghost var items := queue.Contents();
      ghost var tables := [parser.Map()];      // before each item and after the last
      for i := 0 to |clocks|
        invariant Valid() && queue.Valid() && queue.Contents() == items[i..]
        invariant |tables| == i + 1 && tables[0] == old(parser.Map()) && tables[i] == parser.Map()
        invariant HandledInTurn(tables, items[..i], clocks[..i])
      {
        assert items[i] in items && items[i..][1..] == items[i + 1..];
        HandleNext(queue, timeoutMs, clocks[i], items[i]);
        ghost var before := tables;
        tables := tables + [parser.Map()];
        OneMoreHandled(before, items, clocks, i, tables[i + 1]);
      }
      assert items[..|clocks|] == items && clocks[..|clocks|] == clocks;
      HandledFold(tables, items, clocks);
    }
  }

  lemma OneMoreHandled(tables: seq<Ordered>, items: seq<QueueData>, clocks: seq<int>, i: nat, after: Ordered)
    requires |tables| == i + 1 && i < |items| == |clocks| && HandledInTurn(tables, items[..i], clocks[..i])
    requires Handled(tables[i], items[i], clocks[i], after)
    ensures HandledInTurn(tables + [after], items[..i + 1], clocks[..i + 1])
  {
    forall j | 0 <= j < i + 1
      ensures Handled((tables + [after])[j], items[..i + 1][j], clocks[..i + 1][j], (tables + [after])[j + 1])
    {
      if j < i { assert Handled(tables[j], items[..i][j], clocks[..i][j], tables[j + 1]); }
    }
  }
}

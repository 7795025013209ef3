/** End-to-end statements about the receiver: every interleaving of its threads gives the table that
    handling the accepted frames one after the other would give. */
module PipelineTheorems {
  import opened XsheTypes
  import opened Codec
  import opened CodecRoundTrip
  import opened Framing
  import opened Business
  import opened Common
  import opened Pipeline
  import M = ShmImage
  import P = ParserSpec
  import R = SpscRing

  /** The business thread is between two items: wherever it sees the exit flag, whatever is still queued. */
  predicate Stopped(p: Pipe) { p.pending.None? && p.store.biz.BIdle? }

  /** Nothing is queued either. */
  ghost predicate Drained(p: Pipe)
    requires R.Inv(p.ring)
  {
    p.ring.InFlight() == [] && Stopped(p)
  }

  /** Whatever consistent memory the process starts on and wherever the business thread stops: the table is the
      sequential fold of decode-then-parse over the items popped, in order, from what the restart check made of
      that memory, and the next restart keeps it.  Items popped and items queued are the accepted ones; those
      are a subsequence of the items made of the received frames, and all of them when no push was refused,
      for which it is enough that they are fewer than the ring has slots. */
  lemma PipelineRefinement(capacity: nat, zero: QueueData, left: M.Shm, run: seq<Action>)
    requires capacity > 0 && TableMemory(left) && Feasible(Start(capacity, zero, left), run)
    ensures var p := Run(Start(capacity, zero, left), run);
            && R.Inv(p.ring)
            && p.ring.popped + p.ring.InFlight() == p.ring.accepted
            && R.IsSubsequence(p.ring.accepted, p.ring.completed) && p.ring.completed <= Items(p.frames)
            && (forall i :: 0 <= i < |p.taken| ==> WellFormed(p.taken[i]))
            && p.incoming == Stream(p.taken) + p.stream
            && (Stopped(p) ==>
                  && TableMemory(p.store.shm) && |p.store.nows| == |Snapshots(p.ring.popped)|
                  && M.Abs(p.store.shm)
                     == P.ParseAll(M.Abs(M.AttachImage(left)), Snapshots(p.ring.popped), p.store.nows)
                  && M.AttachImage(p.store.shm) == p.store.shm)
            && (NoneRefused(p) && p.ring.prod.PIdle? ==> p.ring.accepted == Items(p.frames))
  {
    var s := Start(capacity, zero, left);
    StartInv(capacity, zero, left);
    RunInv(s, run);
    CapacityKept(s, run);
    var p := Run(s, run);
    IoMeaning(p);
    if Stopped(p) {
      StoppedMeaning(p);
      M.AttachExact(left);
      M.AttachIdempotent(left);
      P.ParsedSurvivesRestart(M.AttachImage(left), p.store.shm, Snapshots(p.ring.popped), p.store.nows);
    }
  }

  /** No push was refused, or could be. */
  predicate NoneRefused(p: Pipe) { p.ring.refused == 0 || |Items(p.frames)| < p.ring.cap }

  lemma {:induction false} CapacityKept(p: Pipe, run: seq<Action>)
    requires Feasible(p, run)
    ensures Run(p, run).ring.cap == p.ring.cap
    decreases |run|
  {
    if run != [] { CapacityKept(Apply(p, run[0]), run[1..]); }
  }

  lemma IoMeaning(p: Pipe)
    requires IoOk(p)
    ensures |p.ring.popped| <= |p.ring.accepted| && p.ring.popped + p.ring.InFlight() == p.ring.accepted
    ensures R.IsSubsequence(p.ring.accepted, p.ring.completed)
    ensures p.ring.completed <= Items(p.frames)
    ensures forall i :: 0 <= i < |p.taken| ==> WellFormed(p.taken[i])
    ensures p.incoming == Stream(p.taken) + p.stream
    ensures NoneRefused(p) && p.ring.prod.PIdle? ==> p.ring.accepted == Items(p.frames)
  {
    DeliversIsStream(p.incoming, p.taken, p.stream);
    NoRefusalAllAccepted(p.ring.accepted, p.ring.completed);
  }

  lemma StoppedMeaning(p: Pipe)
    requires BizOk(p) && Stopped(p)
    ensures TableMemory(p.store.shm) && |p.store.nows| == |Snapshots(p.ring.popped)|
    ensures M.Abs(p.store.shm) == P.ParseAll(p.store.base, Snapshots(p.ring.popped), p.store.nows)
  {
    assert p.store.parsed == Snapshots(p.ring.popped);
  }

  /** A subsequence as long as the whole is the whole. */
  lemma {:induction false} NoRefusalAllAccepted<T>(a: seq<T>, b: seq<T>)
    requires R.IsSubsequence(a, b)
    ensures |a| <= |b| && (|a| == |b| ==> a == b)
    decreases |b|
  {
    if b != [] {
      var b' := b[..|b| - 1];
      if R.IsSubsequence(a, b') {
        NoRefusalAllAccepted(a, b');
      } else {
        NoRefusalAllAccepted(a[..|a| - 1], b');
        assert a == a[..|a| - 1] + [a[|a| - 1]] && b == b' + [b[|b| - 1]];
      }
    }
  }

  /** Drained, it is the fold over all items accepted. */
  lemma DrainedTable(capacity: nat, zero: QueueData, left: M.Shm, run: seq<Action>)
    requires capacity > 0 && TableMemory(left) && Feasible(Start(capacity, zero, left), run)
    ensures var p := Run(Start(capacity, zero, left), run);
            && R.Inv(p.ring)
            && (Drained(p) ==>
                  && TableMemory(p.store.shm) && |p.store.nows| == |Snapshots(p.ring.accepted)|
                  && M.Abs(p.store.shm)
                     == P.ParseAll(M.Abs(M.AttachImage(left)), Snapshots(p.ring.accepted), p.store.nows))
  {
    PipelineRefinement(capacity, zero, left, run);
    var p := Run(Start(capacity, zero, left), run);
    if Drained(p) { assert p.ring.popped == p.ring.accepted; }
  }

  /** Two sessions, the second on the memory the first left wherever it stopped: the table is the fold over the
      items popped in the second from the fold over those popped in the first.  What was queued when the first
      stopped is exactly what is lost. */
  lemma SessionsCompose(capacity: nat, zero: QueueData, left: M.Shm, run: seq<Action>, again: seq<Action>)
    requires capacity > 0 && TableMemory(left) && Feasible(Start(capacity, zero, left), run)
    requires Stopped(Run(Start(capacity, zero, left), run))
    requires TableMemory(Run(Start(capacity, zero, left), run).store.shm)
    requires Feasible(Start(capacity, zero, Run(Start(capacity, zero, left), run).store.shm), again)
    ensures var p := Run(Start(capacity, zero, left), run);
            var q := Run(Start(capacity, zero, p.store.shm), again);
            && R.Inv(p.ring) && p.ring.popped + p.ring.InFlight() == p.ring.accepted
            && R.Inv(q.ring) && |p.store.nows| == |Snapshots(p.ring.popped)|
            && (Stopped(q) ==>
                  && TableMemory(q.store.shm) && |q.store.nows| == |Snapshots(q.ring.popped)|
                  && var first := P.ParseAll(M.Abs(M.AttachImage(left)), Snapshots(p.ring.popped), p.store.nows);
                     M.Abs(q.store.shm) == P.ParseAll(first, Snapshots(q.ring.popped), q.store.nows))
  {
    PipelineRefinement(capacity, zero, left, run);
    PipelineRefinement(capacity, zero, Run(Start(capacity, zero, left), run).store.shm, again);
  }

  // ---------------------------------------------------------------- from the sender's messages to the table

  /** What the exchange sends: market data, or any other frame, such as heartbeats, market status, statistics,
      unknown types and bodies that do not decode. */
  datatype Feed = SzFeed(sz: RawSzMDData) | HkFeed(hk: HkMessage) | OtherFeed(frame: Frame)

  ghost predicate FeedShape(m: Feed) {
    match m
    case SzFeed(sz) => MDShape(sz)
    case HkFeed(hk) => HkShape(hk) && BlockAt(|hk.entries|) + 4 + WINDOW_SIZE * |hk.windows| <= MAX_BODY
    case OtherFeed(f) => WellFormed(f) && SnapshotOf(Queued(f)).None?
  }

  ghost predicate FeedShapes(ms: seq<Feed>) { forall i :: 0 <= i < |ms| ==> FeedShape(ms[i]) }

  /** The frame the sender seals for a message. */
  ghost function FrameOf(m: Feed): Frame
    requires FeedShape(m)
  {
    match m
    case SzFeed(sz) => Frame(MD_TYPE, EncodeMD(sz))
    case HkFeed(hk) => Frame(HK_TYPE, EncodeHk(hk))
    case OtherFeed(f) => f
  }

  ghost function SnapshotOfFeed(m: Feed): Option<P.Snapshot>
    requires FeedShape(m)
  {
    match m
    case SzFeed(sz) => Some(P.OfSz(sz))
    case HkFeed(hk) => Some(P.OfHk(HostHk(hk)))
    case OtherFeed(_) => None
  }

  ghost function FramesOf(ms: seq<Feed>): seq<Frame>
    requires FeedShapes(ms)
  {
    if ms == [] then [] else FramesOf(ms[..|ms| - 1]) + [FrameOf(ms[|ms| - 1])]
  }

  ghost function SnapshotsOfFeed(ms: seq<Feed>): (snaps: seq<P.Snapshot>)
    requires FeedShapes(ms)
    ensures forall i :: 0 <= i < |snaps| ==> snaps[i].market >= 0
  {
    if ms == [] then []
    else
      var last := SnapshotOfFeed(ms[|ms| - 1]);
      SnapshotsOfFeed(ms[..|ms| - 1]) + if last.Some? then [last.value] else []
  }

  /** Sealing, framing, queueing and decoding a message give the parser the message's own code, time and entries,
      and nothing for the other frames. */
  lemma FeedReachesParser(m: Feed)
    requires FeedShape(m)
    ensures WellFormed(FrameOf(m)) && SnapshotOf(Queued(FrameOf(m))) == SnapshotOfFeed(m)
    ensures m.OtherFeed? <==> SnapshotOf(Queued(FrameOf(m))).None?
    ensures m.SzFeed? ==>
              var s := SnapshotOf(Queued(FrameOf(m))).value;
              && s.market == 2 && s.securityId == m.sz.prefix.securityId && s.origTime == m.sz.prefix.origTime
              && |s.quotes| == |m.sz.entries|
              && forall j :: 0 <= j < |m.sz.entries| ==>
                   && s.quotes[j].entryType == m.sz.entries[j].entryType[0]
                   && s.quotes[j].px == m.sz.entries[j].px && s.quotes[j].level == m.sz.entries[j].level
    ensures m.HkFeed? ==>
              var s := SnapshotOf(Queued(FrameOf(m))).value;
              && s.market == 9 && s.securityId == m.hk.prefix.securityId && s.origTime == m.hk.prefix.origTime
              && |s.quotes| == |m.hk.entries|
              && forall j :: 0 <= j < |m.hk.entries| ==>
                   && s.quotes[j].entryType == m.hk.entries[j].entryType[0]
                   && s.quotes[j].px == m.hk.entries[j].px && s.quotes[j].level == m.hk.entries[j].level
    ensures !m.OtherFeed? ==> !IsHeartbeat(FrameOf(m).msgType)
  {
    match m
    case SzFeed(sz) => MDRoundTrip(sz);
    case HkFeed(hk) => HkReachesParser(hk);
    case OtherFeed(_) =>
  }

  lemma HkReachesParser(hk: HkMessage)
    requires FeedShape(HkFeed(hk))
    ensures var f := FrameOf(HkFeed(hk)); WellFormed(f) && SnapshotOf(Queued(f)) == Some(P.OfHk(HostHk(hk)))
  {
    HkRoundTrip(hk);
    assert Kept(HostHk(hk)) == HostHk(hk);
  }

  lemma SnapshotsSnoc(items: seq<QueueData>, q: QueueData)
    ensures Snapshots(items + [q]) == Snapshots(items) + if SnapshotOf(q).Some? then [SnapshotOf(q).value] else []
  {
    assert (items + [q])[..|items|] == items;
  }

  lemma {:induction false} FeedSnapshots(ms: seq<Feed>)
    requires FeedShapes(ms)
    ensures Snapshots(Items(FramesOf(ms))) == SnapshotsOfFeed(ms)
    decreases |ms|
  {
    if ms != [] {
      var n := |ms| - 1;
      var before, f := FramesOf(ms[..n]), FrameOf(ms[n]);
      FeedSnapshots(ms[..n]);
      FeedReachesParser(ms[n]);
      ItemsSnoc(before, f);
      SnapshotsSnoc(Items(before), Queued(f));
    }
  }

  /** The market data among what is sent. */
  function DataOnly(ms: seq<Feed>): seq<Feed> {
    if ms == [] then []
    else DataOnly(ms[..|ms| - 1]) + if ms[|ms| - 1].OtherFeed? then [] else [ms[|ms| - 1]]
  }

  lemma SnapshotsOfMore(ms: seq<Feed>, m: Feed)
    requires FeedShapes(ms) && FeedShape(m) && !m.OtherFeed?
    ensures FeedShapes(ms + [m]) && SnapshotsOfFeed(ms + [m]) == SnapshotsOfFeed(ms) + [SnapshotOfFeed(m).value]
  {
    assert (ms + [m])[..|ms|] == ms;
  }

  /** However other frames are mixed in, the parser is given the same. */
  lemma {:induction false} OtherFramesDoNotMatter(ms: seq<Feed>)
    requires FeedShapes(ms)
    ensures FeedShapes(DataOnly(ms)) && SnapshotsOfFeed(ms) == SnapshotsOfFeed(DataOnly(ms))
    decreases |ms|
  {
    if ms != [] {
      var n := |ms| - 1;
      OtherFramesDoNotMatter(ms[..n]);
      var data := DataOnly(ms[..n]);
      if ms[n].OtherFeed? {
        assert DataOnly(ms) == data && SnapshotsOfFeed(ms) == SnapshotsOfFeed(ms[..n]);
      } else {
        SnapshotsOfMore(data, ms[n]);
        assert SnapshotsOfFeed(ms) == SnapshotsOfFeed(ms[..n]) + [SnapshotOfFeed(ms[n]).value];
      }
    }
  }

  // ---------------------------------------------------------------- the last value of every field

  function MarketOf(m: Feed): nat
    requires !m.OtherFeed?
  {
    if m.SzFeed? then 2 else 9
  }

  function PrefixOf(m: Feed): Prefix
    requires !m.OtherFeed?
  {
    if m.SzFeed? then m.sz.prefix else m.hk.prefix
  }

  function EntryCount(m: Feed): nat
    requires !m.OtherFeed?
  {
    if m.SzFeed? then |m.sz.entries| else |m.hk.entries|
  }

  /** The fields of entry `j` that both kinds of message have. */
  function EntryOf(m: Feed, j: nat): (e: HkMDEntry)
    requires !m.OtherFeed? && j < EntryCount(m)
    ensures m.SzFeed? ==> e.entryType == m.sz.entries[j].entryType && e.level == m.sz.entries[j].level
    ensures m.SzFeed? ==> e.px == m.sz.entries[j].px && e.size == m.sz.entries[j].size
    ensures m.HkFeed? ==> e == m.hk.entries[j]
  {
    if m.HkFeed? then m.hk.entries[j]
    else
      var e := m.sz.entries[j];
      HkMDEntry(e.entryType, e.px, e.size, e.level)
  }

  predicate About(m: Feed, market: nat, code: nat) {
    !m.OtherFeed? && MarketOf(m) == market && P.StockCode(PrefixOf(m).securityId) == code
  }

  /** Entry `j` of message `i` gives a stock a price of kind `e`. */
  predicate Gives(ms: seq<Feed>, market: nat, code: nat, e: nat, i: nat, j: nat) {
    && i < |ms| && About(ms[i], market, code) && j < EntryCount(ms[i])
    && var entry := EntryOf(ms[i], j); |entry.entryType| == 2 && entry.entryType[0] == 48 + e && entry.level <= 1
  }

  /** No other entry of a later message, or later in the same, gives it one. */
  ghost predicate GivesLast(ms: seq<Feed>, market: nat, code: nat, e: nat, i: nat, j: nat) {
    && Gives(ms, market, code, e, i, j)
    && forall k: nat, l: nat :: Gives(ms, market, code, e, k, l) ==> k < i || (k == i && l <= j)
  }

  predicate AboutLast(ms: seq<Feed>, market: nat, code: nat, i: nat) {
    i < |ms| && About(ms[i], market, code) && forall k :: i < k < |ms| ==> !About(ms[k], market, code)
  }

  lemma QuotesOfFeed(m: Feed, market: nat, code: nat, e: nat)
    requires FeedShape(m) && !m.OtherFeed? && e < 10
    ensures var snap := SnapshotOfFeed(m).value;
            && (P.About(snap, market, code) <==> About(m, market, code))
            && snap.origTime == PrefixOf(m).origTime && |snap.quotes| == EntryCount(m)
            && forall j: nat :: j < EntryCount(m) ==>
                 && (P.Sets(snap.quotes[j], e) <==> EntryOf(m, j).entryType[0] == 48 + e && EntryOf(m, j).level <= 1)
                 && snap.quotes[j].px == EntryOf(m, j).px && |EntryOf(m, j).entryType| == 2
  {
  }

  ghost predicate PriceOfFeed(ms: seq<Feed>, market: nat, code: nat, e: nat, before: int, price: int) {
    || (price == before && forall i: nat, j: nat :: !Gives(ms, market, code, e, i, j))
    || exists i: nat, j: nat :: GivesLast(ms, market, code, e, i, j) && price == P.ToInt32(EntryOf(ms[i], j).px)
  }

  lemma EarlierPrice(ms: seq<Feed>, n: nat, market: nat, code: nat, e: nat, before: int, price: int)
    requires n + 1 == |ms| && PriceOfFeed(ms[..n], market, code, e, before, price)
    requires forall j: nat :: !Gives(ms, market, code, e, n, j)
    ensures PriceOfFeed(ms, market, code, e, before, price)
  {
    var init := ms[..n];
    assert forall i: nat, j: nat :: Gives(ms, market, code, e, i, j) <==> Gives(init, market, code, e, i, j);
    if i: nat, j: nat :| GivesLast(init, market, code, e, i, j) && price == P.ToInt32(EntryOf(init[i], j).px) {
      assert GivesLast(ms, market, code, e, i, j) && price == P.ToInt32(EntryOf(ms[i], j).px);
    }
  }

  lemma LaterPrice(ms: seq<Feed>, n: nat, market: nat, code: nat, e: nat, before: int)
    requires n + 1 == |ms| && FeedShape(ms[n]) && e < 10 && About(ms[n], market, code)
    requires P.LastQuote(SnapshotOfFeed(ms[n]).value.quotes, e).Some?
    ensures PriceOfFeed(ms, market, code, e, before, P.LastQuote(SnapshotOfFeed(ms[n]).value.quotes, e).value)
  {
    var quotes := SnapshotOfFeed(ms[n]).value.quotes;
    QuotesOfFeed(ms[n], market, code, e);
    P.LastQuoteMeaning(quotes, e);
    var j: nat :| j < |quotes| && P.Sets(quotes[j], e) && P.LastQuote(quotes, e).value == P.ToInt32(quotes[j].px)
                  && forall k :: j < k < |quotes| ==> !P.Sets(quotes[k], e);
    assert Gives(ms, market, code, e, n, j);
    assert GivesLast(ms, market, code, e, n, j);
  }

  lemma NoPrice(ms: seq<Feed>, n: nat, market: nat, code: nat, e: nat)
    requires n + 1 == |ms| && FeedShape(ms[n]) && e < 10
    requires ms[n].OtherFeed? || !About(ms[n], market, code)
             || P.LastQuote(SnapshotOfFeed(ms[n]).value.quotes, e).None?
    ensures forall j: nat :: !Gives(ms, market, code, e, n, j)
  {
    if About(ms[n], market, code) {
      QuotesOfFeed(ms[n], market, code, e);
      P.LastQuoteMeaning(SnapshotOfFeed(ms[n]).value.quotes, e);
    }
  }

  /** What the parser takes for the last price is that of the last entry that gives one. */
  lemma {:induction false} LastPriceOfFeed(ms: seq<Feed>, market: nat, code: nat, e: nat, before: int)
    requires FeedShapes(ms) && e < 10
    ensures PriceOfFeed(ms, market, code, e, before, P.LastPrice(SnapshotsOfFeed(ms), market, code, e, before))
    decreases |ms|
  {
    if ms != [] {
      var n: nat, last := |ms| - 1, ms[|ms| - 1];
      var earlier := SnapshotsOfFeed(ms[..n]);
      LastPriceOfFeed(ms[..n], market, code, e, before);
      if About(last, market, code) && P.LastQuote(SnapshotOfFeed(last).value.quotes, e).Some? {
        LaterPrice(ms, n, market, code, e, before);
      } else {
        NoPrice(ms, n, market, code, e);
        EarlierPrice(ms, n, market, code, e, before, P.LastPrice(earlier, market, code, e, before));
      }
      LastOfSnapshots(ms, n, market, code, e, before);
    }
  }

  lemma LastOfSnapshots(ms: seq<Feed>, n: nat, market: nat, code: nat, e: nat, before: int)
    requires n + 1 == |ms| && FeedShapes(ms) && e < 10
    ensures P.LastPrice(SnapshotsOfFeed(ms), market, code, e, before) ==
            if About(ms[n], market, code) && P.LastQuote(SnapshotOfFeed(ms[n]).value.quotes, e).Some?
            then P.LastQuote(SnapshotOfFeed(ms[n]).value.quotes, e).value
            else P.LastPrice(SnapshotsOfFeed(ms[..n]), market, code, e, before)
  {
    var earlier := SnapshotsOfFeed(ms[..n]);
    if ms[n].OtherFeed? {
      assert SnapshotsOfFeed(ms) == earlier;
    } else {
      var snap := SnapshotOfFeed(ms[n]).value;
      QuotesOfFeed(ms[n], market, code, e);
      assert SnapshotsOfFeed(ms) == earlier + [snap] && (earlier + [snap])[..|earlier|] == earlier;
    }
  }

  ghost predicate TimeOfFeed(ms: seq<Feed>, market: nat, code: nat, time: Option<int>) {
    match time
    case None => forall i :: 0 <= i < |ms| ==> !About(ms[i], market, code)
    case Some(v) => exists i: nat :: AboutLast(ms, market, code, i) && v == PrefixOf(ms[i]).origTime
  }

  /** And for the last time that of the last message. */
  lemma {:induction false} LastTimeOfFeed(ms: seq<Feed>, market: nat, code: nat)
    requires FeedShapes(ms)
    ensures TimeOfFeed(ms, market, code, P.LastTime(SnapshotsOfFeed(ms), market, code))
    decreases |ms|
  {
    if ms != [] {
      var n: nat, last := |ms| - 1, ms[|ms| - 1];
      var earlier := SnapshotsOfFeed(ms[..n]);
      LastTimeOfFeed(ms[..n], market, code);
      if !About(last, market, code) {
        EarlierTime(ms, market, code, P.LastTime(earlier, market, code));
      }
      if last.OtherFeed? {
        assert SnapshotsOfFeed(ms) == earlier;
      } else {
        var snap := SnapshotOfFeed(last).value;
        assert SnapshotsOfFeed(ms) == earlier + [snap] && (earlier + [snap])[..|earlier|] == earlier;
        QuotesOfFeed(last, market, code, 0);
        if About(last, market, code) { assert AboutLast(ms, market, code, n); }
      }
    }
  }

  lemma EarlierTime(ms: seq<Feed>, market: nat, code: nat, time: Option<int>)
    requires ms != [] && TimeOfFeed(ms[..|ms| - 1], market, code, time) && !About(ms[|ms| - 1], market, code)
    ensures TimeOfFeed(ms, market, code, time)
  {
    var init := ms[..|ms| - 1];
    if time.Some? {
      var i: nat :| AboutLast(init, market, code, i) && time.value == PrefixOf(init[i]).origTime;
      assert AboutLast(ms, market, code, i);
    }
  }

  lemma PricesOfFeed(o0: M.Ordered, o: M.Ordered, ms: seq<Feed>, market: nat, code: nat, e: nat)
    requires FeedShapes(ms) && code < 1000000 && P.LastValue(o0, o, SnapshotsOfFeed(ms), market, code) && e < 10
    ensures var key := market * 1000000 + code;
            PriceOfFeed(ms, market, code, e, P.PriceIn(o0, key, e), P.PriceIn(o, key, e))
  {
    LastPriceOfFeed(ms, market, code, e, P.PriceIn(o0, market * 1000000 + code, e));
  }

  lemma RecordOfFeed(o0: M.Ordered, o: M.Ordered, ms: seq<Feed>, market: nat, code: nat)
    requires FeedShapes(ms) && code < 1000000 && P.LastValue(o0, o, SnapshotsOfFeed(ms), market, code)
    ensures var key := market * 1000000 + code;
            || ((forall i: nat :: i < |ms| ==> !About(ms[i], market, code))
                && (key in o.items <==> key in o0.items) && (key in o.items ==> o.items[key] == o0.items[key]))
            || exists i: nat ::
                 && AboutLast(ms, market, code, i) && key in o.items
                 && o.items[key].marketCode == market && o.items[key].stockCode == code
                 && o.items[key].origTime == PrefixOf(ms[i]).origTime
  {
    LastTimeOfFeed(ms, market, code);
  }

  lemma DrainedLastValue(
      capacity: nat, zero: QueueData, left: M.Shm, run: seq<Action>, ms: seq<Feed>, market: nat, code: nat)
    requires capacity > 0 && TableMemory(left) && Feasible(Start(capacity, zero, left), run)
    requires FeedShapes(ms) && Run(Start(capacity, zero, left), run).frames == FramesOf(ms)
    requires code < 1000000
    ensures var p := Run(Start(capacity, zero, left), run);
            && R.Inv(p.ring)
            && (Drained(p) && p.ring.prod.PIdle? && (p.ring.refused == 0 || |ms| < capacity) ==>
                  && TableMemory(p.store.shm)
                  && P.LastValue(M.Abs(M.AttachImage(left)), M.Abs(p.store.shm), SnapshotsOfFeed(ms), market, code))
  {
    PipelineRefinement(capacity, zero, left, run);
    DrainedTable(capacity, zero, left, run);
    CapacityKept(Start(capacity, zero, left), run);
    ItemCount(ms);
    var p := Run(Start(capacity, zero, left), run);
    if Drained(p) && p.ring.prod.PIdle? && (p.ring.refused == 0 || |ms| < capacity) {
      FeedSnapshots(ms);
      P.ParseAllLastValue(M.Abs(M.AttachImage(left)), SnapshotsOfFeed(ms), p.store.nows, market, code);
    }
  }

  /** End to end, on whatever memory the process started: if the frames received are those of `ms` and none was
      refused, or there were fewer of them than slots, then once everything is drained each stock's record holds,
      for each kind of price, that of the last entry of the last message that gives one, and the codes and time of
      the last message about it; what no message gives is as it was found. */
  lemma EndToEnd(
      capacity: nat, zero: QueueData, left: M.Shm, run: seq<Action>, ms: seq<Feed>, market: nat, code: nat, e: nat)
    requires capacity > 0 && TableMemory(left) && Feasible(Start(capacity, zero, left), run)
    requires FeedShapes(ms) && Run(Start(capacity, zero, left), run).frames == FramesOf(ms)
    requires code < 1000000 && e < 10
    ensures R.Inv(Run(Start(capacity, zero, left), run).ring)
    ensures var p := Run(Start(capacity, zero, left), run);
            Drained(p) && p.ring.prod.PIdle? && (p.ring.refused == 0 || |ms| < capacity) ==>
              && TableMemory(p.store.shm)
              && var o0, o, key := M.Abs(M.AttachImage(left)), M.Abs(p.store.shm), market * 1000000 + code;
                 && (|| ((forall i: nat, j: nat :: !Gives(ms, market, code, e, i, j))
                         && P.PriceIn(o, key, e) == P.PriceIn(o0, key, e))
                     || exists i: nat, j: nat ::
                          GivesLast(ms, market, code, e, i, j)
                          && P.PriceIn(o, key, e) == P.ToInt32(EntryOf(ms[i], j).px))
                 && (|| ((forall i: nat :: i < |ms| ==> !About(ms[i], market, code))
                         && (key in o.items <==> key in o0.items)
                         && (key in o.items ==> o.items[key] == o0.items[key]))
                     || exists i: nat ::
                          && AboutLast(ms, market, code, i) && key in o.items
                          && o.items[key].marketCode == market && o.items[key].stockCode == code
                          && o.items[key].origTime == PrefixOf(ms[i]).origTime)
  {
    DrainedLastValue(capacity, zero, left, run, ms, market, code);
    var p := Run(Start(capacity, zero, left), run);
    if Drained(p) && p.ring.prod.PIdle? && (p.ring.refused == 0 || |ms| < capacity) {
      PricesOfFeed(M.Abs(M.AttachImage(left)), M.Abs(p.store.shm), ms, market, code, e);
      RecordOfFeed(M.Abs(M.AttachImage(left)), M.Abs(p.store.shm), ms, market, code);
    }
  }

  lemma {:induction false} ItemCount(ms: seq<Feed>)
    requires FeedShapes(ms)
    ensures |Items(FramesOf(ms))| <= |ms|
    decreases |ms|
  {
    if ms != [] {
      var n := |ms| - 1;
      ItemCount(ms[..n]);
      FeedReachesParser(ms[n]);
      ItemsSnoc(FramesOf(ms[..n]), FrameOf(ms[n]));
    }
  }
}

/** What a clear in the middle of parsing leaves of the messages: which save calls still reach the table, and
    the run on which a record loses its time. */
module StoreClears {
  import opened Common
  import opened ShmImage
  import opened ParserSpec
  import opened StoreInterleaving
  import S = StoreInterleaving

  // ---------------------------------------------------------------- what save calls leave in a record

  datatype Field = TimeField | PriceField(entry: nat)

  predicate FieldOk(f: Field) { f.PriceField? ==> f.entry < NUM_FIELD_SIZE }

  function FieldOf(item: MyMDItem, f: Field): int
    requires FieldOk(f)
  {
    if f.TimeField? then item.origTime else item.price[f.entry]
  }

  /** What a field holds, 0 where there is no record. */
  function FieldIn(o: Ordered, key: nat, f: Field): int
    requires FieldOk(f)
  {
    if key in o.items then FieldOf(o.items[key], f) else 0
  }

  /** What a save call sets a field to, if it sets it. */
  function SetBy(save: Save, f: Field): Option<int> {
    match save
    case Codes => None
    case Time(t, _) => if f.TimeField? then Some(t) else None
    case Price(e, v) => if f == PriceField(e) then Some(v) else None
  }

  function CallKey(c: Call): nat { c.market * STOCK_LIMIT + c.code }

  predicate Called(calls: seq<Call>, key: nat) { exists i :: 0 <= i < |calls| && CallKey(calls[i]) == key }

  /** The last value the calls set a stock's field to. */
  function LastSet(calls: seq<Call>, key: nat, f: Field): Option<int> {
    if calls == [] then None
    else
      var c := calls[|calls| - 1];
      if CallKey(c) == key && SetBy(c.save, f).Some? then SetBy(c.save, f) else LastSet(calls[..|calls| - 1], key, f)
  }

  function OrElse(v: Option<int>, default: int): int { if v.Some? then v.value else default }

  lemma SetFieldsField(item: MyMDItem, market: nat, code: nat, save: Save, f: Field)
    requires FieldOk(f)
    ensures FieldOf(SetFields(item, Fields(market, code, save)), f) == OrElse(SetBy(save, f), FieldOf(item, f))
  {
    match save
    case Codes => SetFieldsOfTwo(item, SetMarketCode(market), SetStockCode(code));
    case Time(t, now) => SetFieldsOfTwo(item, SetOrigTime(t), SetUpdateTime(now));
    case Price(e, v) => assert [SetPrice(e, v)][1..] == [];
  }

  lemma ApplySaveField(o: Ordered, c: Call, key: nat, f: Field)
    requires FieldOk(f)
    ensures var t := ApplySave(o, c.market, c.code, c.save);
            && (key in t.items <==> key in o.items || CallKey(c) == key)
            && FieldIn(t, key, f) == if CallKey(c) == key then OrElse(SetBy(c.save, f), FieldIn(o, key, f))
                                     else FieldIn(o, key, f)
  {
    if CallKey(c) == key {
      SetFieldsField(GetOrMake(o, key, c.market, c.code), c.market, c.code, c.save, f);
    }
  }

  /** After any save calls, a stock has a record exactly if it had one or some call is for it, and its time and
      each of its prices are what the last call that sets them says, or what they were. */
  lemma {:induction false} SavedField(o: Ordered, calls: seq<Call>, key: nat, f: Field)
    requires FieldOk(f)
    ensures key in SaveAll(o, calls).items <==> key in o.items || Called(calls, key)
    ensures FieldIn(SaveAll(o, calls), key, f) == OrElse(LastSet(calls, key, f), FieldIn(o, key, f))
    decreases |calls|
  {
    if calls != [] {
      var n := |calls| - 1;
      SavedField(o, calls[..n], key, f);
      ApplySaveField(SaveAll(o, calls[..n]), calls[n], key, f);
      CalledSnoc(calls[..n], calls[n], key);
      assert calls == calls[..n] + [calls[n]];
    }
  }

  lemma CalledSnoc(calls: seq<Call>, c: Call, key: nat)
    ensures Called(calls + [c], key) <==> Called(calls, key) || CallKey(c) == key
  {
    var all := calls + [c];
    assert forall i :: 0 <= i < |calls| ==> all[i] == calls[i];
    assert all[|calls|] == c;
  }

  lemma {:induction false} LastSetAppend(a: seq<Call>, b: seq<Call>, key: nat, f: Field)
    ensures LastSet(a + b, key, f) == if LastSet(b, key, f).Some? then LastSet(b, key, f) else LastSet(a, key, f)
    decreases |b|
  {
    if b == [] {
      assert a + b == a;
    } else {
      var n := |b| - 1;
      assert (a + b)[..|a| + n] == a + b[..n];
      LastSetAppend(a, b[..n], key, f);
    }
  }

  // ---------------------------------------------------------------- the calls of messages

  function Tag(market: nat, code: nat, saves: seq<Save>): (calls: seq<Call>)
    ensures |calls| == |saves|
  {
    seq(|saves|, i requires 0 <= i < |saves| => Call(market, code, saves[i]))
  }

  function CallsOf(snap: Snapshot, now: int): seq<Call>
    requires snap.market >= 0
  {
    if Tradable(snap) then Tag(snap.market, StockCode(snap.securityId), Saves(snap, now)) else []
  }

  predicate Timed(snaps: seq<Snapshot>, nows: seq<int>) {
    |snaps| == |nows| && forall i :: 0 <= i < |snaps| ==> snaps[i].market >= 0
  }

  /** All save calls of all messages, in order. */
  function AllCalls(snaps: seq<Snapshot>, nows: seq<int>): seq<Call>
    requires Timed(snaps, nows)
    decreases |snaps|
  {
    if snaps == [] then []
    else
      var n := |snaps| - 1;
      AllCalls(snaps[..n], nows[..n]) + CallsOf(snaps[n], nows[n])
  }

  /** What the last message about a stock that sets the field says, `before` if none does. */
  function MessageValue(snaps: seq<Snapshot>, market: nat, code: nat, f: Field, before: int): int
    requires FieldOk(f)
  {
    match f
    case TimeField => OrElse(LastTime(snaps, market, code), before)
    case PriceField(e) => LastPrice(snaps, market, code, e, before)
  }

  /** What one message sets the field to. */
  function InMessage(snap: Snapshot, f: Field): Option<int> {
    match f
    case TimeField => Some(snap.origTime as int)
    case PriceField(e) => LastQuote(snap.quotes, e)
  }

  lemma TagAppend(market: nat, code: nat, a: seq<Save>, b: seq<Save>)
    ensures Tag(market, code, a + b) == Tag(market, code, a) + Tag(market, code, b)
  {
  }

  lemma {:induction false} QuoteCalls(market: nat, code: nat, quotes: seq<Quote>, f: Field)
    ensures LastSet(Tag(market, code, QuoteSaves(quotes)), market * STOCK_LIMIT + code, f)
         == if f.TimeField? then None else LastQuote(quotes, f.entry)
    decreases |quotes|
  {
    if quotes != [] {
      var n, q := |quotes| - 1, quotes[|quotes| - 1];
      QuoteCalls(market, code, quotes[..n], f);
      if Usable(q) {
        var save := Price(DigitValue(q.entryType), ToInt32(q.px));
        TagAppend(market, code, QuoteSaves(quotes[..n]), [save]);
        OneCall(market, code, save, f);
        LastSetAppend(Tag(market, code, QuoteSaves(quotes[..n])), Tag(market, code, [save]),
            market * STOCK_LIMIT + code, f);
      } else {
        assert QuoteSaves(quotes) == QuoteSaves(quotes[..n]);
      }
    }
  }

  lemma OneCall(market: nat, code: nat, save: Save, f: Field)
    ensures LastSet(Tag(market, code, [save]), market * STOCK_LIMIT + code, f) == SetBy(save, f)
  {
    var calls := Tag(market, code, [save]);
    assert calls[..0] == [];
  }

  lemma OtherKeyCalls(market: nat, code: nat, saves: seq<Save>, key: nat, f: Field)
    requires key != market * STOCK_LIMIT + code
    ensures LastSet(Tag(market, code, saves), key, f) == None
    decreases |saves|
  {
    if saves != [] {
      var n := |saves| - 1;
      assert Tag(market, code, saves)[..n] == Tag(market, code, saves[..n]);
      OtherKeyCalls(market, code, saves[..n], key, f);
    }
  }

  lemma MessageCalls(snap: Snapshot, now: int, f: Field)
    requires snap.market >= 0 && Tradable(snap)
    ensures LastSet(CallsOf(snap, now), Key(snap), f) == InMessage(snap, f)
  {
    var market, code, key := snap.market, StockCode(snap.securityId), Key(snap);
    var codes, time, quotes := Codes, Time(snap.origTime, now), QuoteSaves(snap.quotes);
    assert Saves(snap, now) == [codes] + ([time] + quotes);
    TagAppend(market, code, [codes], [time] + quotes);
    TagAppend(market, code, [time], quotes);
    QuoteCalls(market, code, snap.quotes, f);
    OneCall(market, code, codes, f);
    OneCall(market, code, time, f);
    LastSetAppend(Tag(market, code, [time]), Tag(market, code, quotes), key, f);
    LastSetAppend(Tag(market, code, [codes]), Tag(market, code, [time]) + Tag(market, code, quotes), key, f);
  }

  lemma MessageValueStep(snaps: seq<Snapshot>, market: nat, code: nat, f: Field, before: int)
    requires snaps != [] && FieldOk(f)
    ensures var n := |snaps| - 1;
            MessageValue(snaps, market, code, f, before)
            == if About(snaps[n], market, code) && InMessage(snaps[n], f).Some? then InMessage(snaps[n], f).value
               else MessageValue(snaps[..n], market, code, f, before)
  {
  }

  /** The save calls of the messages set a field last to what the messages say of it last. */
  lemma {:induction false} CallsOfMessages(
      snaps: seq<Snapshot>, nows: seq<int>, market: nat, code: nat, f: Field, before: int)
    requires Timed(snaps, nows) && code < STOCK_LIMIT && FieldOk(f)
    ensures MessageValue(snaps, market, code, f, before)
         == OrElse(LastSet(AllCalls(snaps, nows), market * STOCK_LIMIT + code, f), before)
    decreases |snaps|
  {
    if snaps != [] {
      var n, key := |snaps| - 1, market * STOCK_LIMIT + code;
      CallsOfMessages(snaps[..n], nows[..n], market, code, f, before);
      MessageValueStep(snaps, market, code, f, before);
      LastSetAppend(AllCalls(snaps[..n], nows[..n]), CallsOf(snaps[n], nows[n]), key, f);
      if Tradable(snaps[n]) {
        KeysDistinct(snaps[n].market, StockCode(snaps[n].securityId), market, code);
        if Key(snaps[n]) == key {
          MessageCalls(snaps[n], nows[n], f);
        } else {
          OtherKeyCalls(snaps[n].market, StockCode(snaps[n].securityId), Saves(snaps[n], nows[n]), key, f);
        }
      }
    }
  }

  // ---------------------------------------------------------------- which calls reach the table

  /** The calls of the message in progress that have not begun. */
  function Rest(b: Business): seq<Call>
    requires !b.BIdle? ==> b.todo != []
  {
    match b
    case BIdle => []
    case BFind(market, code, todo) => Tag(market, code, todo)
    case BStore(market, code, todo) => Tag(market, code, todo[1..])
    case BWrite(market, code, todo, _) => Tag(market, code, todo[1..])
  }

  predicate Suffix(a: seq<Call>, all: seq<Call>) { |a| <= |all| && all[|all| - |a|..] == a }

  /** The calls that reach the table and those still to come are the end of `all`. */
  ghost predicate Ends(since: seq<Call>, b: Business, all: seq<Call>) {
    && (!b.BIdle? ==> b.todo != []) && Suffix(since + Rest(b), all)
    && (b.BStore? ==> |since| > 0 && since[|since| - 1] == Call(b.market, b.code, b.todo[0]))
  }

  ghost predicate SinceSuffix(s: State) {
    Timed(s.parsed, s.nows) && Ends(s.since, s.biz, AllCalls(s.parsed, s.nows))
  }

  lemma SuffixDrop(a: seq<Call>, b: seq<Call>, all: seq<Call>)
    requires Suffix(a + b, all)
    ensures Suffix(b, all)
  {
    assert all[|all| - |b|..] == all[|all| - |a + b|..][|a|..];
  }

  lemma SuffixExtend(a: seq<Call>, all: seq<Call>, more: seq<Call>)
    requires Suffix(a, all)
    ensures Suffix(a + more, all + more)
  {
    assert (all + more)[|all| - |a|..] == all[|all| - |a|..] + more;
  }

  lemma AllCallsSnoc(snaps: seq<Snapshot>, nows: seq<int>, snap: Snapshot, now: int)
    requires Timed(snaps, nows) && snap.market >= 0
    ensures AllCalls(snaps + [snap], nows + [now]) == AllCalls(snaps, nows) + CallsOf(snap, now)
  {
    assert (snaps + [snap])[..|snaps|] == snaps && (nows + [now])[..|nows|] == nows;
  }

  lemma BeginEnds(since: seq<Call>, all: seq<Call>, snap: Snapshot, now: int)
    requires snap.market >= 0 && Tradable(snap) && Ends(since, BIdle, all)
    ensures Ends(since, BFind(snap.market, StockCode(snap.securityId), Saves(snap, now)), all + CallsOf(snap, now))
  {
    assert since + [] == since;
    SuffixExtend(since, all, CallsOf(snap, now));
  }

  lemma BeginSuffix(s: State, snap: Snapshot, now: int)
    requires SinceSuffix(s) && Enabled(s, BeginParse(snap, now))
    ensures SinceSuffix(Apply(s, BeginParse(snap, now)))
  {
    var all := AllCalls(s.parsed, s.nows);
    AllCallsSnoc(s.parsed, s.nows, snap, now);
    if Tradable(snap) {
      BeginEnds(s.since, all, snap, now);
    } else {
      assert all + [] == all;
    }
  }

  lemma SurvivingEnds(since: seq<Call>, b: Business, all: seq<Call>)
    requires Ends(since, b, all)
    ensures Ends(Surviving(b), b, all)
  {
    var rest := Rest(b);
    if b.BStore? {
      var n := |since| - 1;
      assert since + rest == since[..n] + (Surviving(b) + rest);
      SuffixDrop(since[..n], Surviving(b) + rest, all);
    } else {
      assert Surviving(b) + rest == rest;
      SuffixDrop(since, rest, all);
    }
  }

  lemma FindEnds(since: seq<Call>, b: Business, after: Business, all: seq<Call>)
    requires b.BFind? && Ends(since, b, all)
    requires after == BStore(b.market, b.code, b.todo) ||
             (after.BWrite? && after.market == b.market && after.code == b.code && after.todo == b.todo)
    ensures Ends(since + [Call(b.market, b.code, b.todo[0])], after, all)
  {
    var c := Call(b.market, b.code, b.todo[0]);
    assert Rest(b) == [c] + Rest(after);
    assert since + [c] + Rest(after) == since + Rest(b);
  }

  lemma AfterEnds(since: seq<Call>, b: Business, all: seq<Call>)
    requires (b.BStore? || b.BWrite?) && Ends(since, b, all)
    ensures Ends(since, AfterSave(b), all)
  {
    assert Rest(AfterSave(b)) == Rest(b);
  }

  lemma StepEnds(s: State, a: Action, all: seq<Call>)
    requires Ends(s.since, s.biz, all) && Enabled(s, a) && !a.BeginParse?
    ensures var t := Apply(s, a); Ends(t.since, t.biz, all) && t.parsed == s.parsed && t.nows == s.nows
  {
    match a
    case ClearWord => SurvivingEnds(s.since, s.biz, all);
    case FindRecord => FindEnds(s.since, s.biz, Apply(s, a).biz, all);
    case StoreRecord => AfterEnds(s.since, s.biz, all);
    case WriteField => AfterEnds(s.since, s.biz, all);
    case _ =>
  }

  lemma {:induction false} RunSuffix(s: State, run: seq<Action>)
    requires SinceSuffix(s) && Feasible(s, run)
    ensures SinceSuffix(S.Run(s, run))
    decreases |run|
  {
    if run != [] {
      if run[0].BeginParse? {
        BeginSuffix(s, run[0].snap, run[0].now);
      } else {
        StepEnds(s, run[0], AllCalls(s.parsed, s.nows));
      }
      RunSuffix(Apply(s, run[0]), run[1..]);
    }
  }

  /** Between parses, once a clear has ended: a stock has a record exactly if a save call of it reached the table
      after the clear, and its time, like each of its prices, is what its messages say last exactly when a call
      that sets it did so, or when that is 0.  Those calls are the last of all calls of all messages. */
  lemma AfterClear(left: Shm, run: seq<Action>, market: nat, code: nat, f: Field)
    requires Rep(left) && Feasible(Attached(left), run) && code < STOCK_LIMIT && FieldOk(f)
    requires var s := S.Run(Attached(left), run);
             s.biz.BIdle? && !Clearing(s.main) && ClearEnded(Attached(left), run)
    ensures var s, key := S.Run(Attached(left), run), market * STOCK_LIMIT + code;
            && Rep(s.shm) && Timed(s.parsed, s.nows) && Suffix(s.since, AllCalls(s.parsed, s.nows))
            && (key in Abs(s.shm).items <==> Called(s.since, key))
            && var says := MessageValue(s.parsed, market, code, f, 0);
               (FieldIn(Abs(s.shm), key, f) == says <==> LastSet(s.since, key, f).Some? || says == 0)
  {
    TableSinceClear(left, run);
    StartSuffix(left);
    RunSuffix(Attached(left), run);
    IdleAfterClear(S.Run(Attached(left), run), market, code, f);
  }

  lemma IdleAfterClear(s: State, market: nat, code: nat, f: Field)
    requires SinceSuffix(s) && s.biz.BIdle? && s.shm.size <= |s.shm.index|
    requires Abs(s.shm) == SaveAll(EMPTY_MAP, s.since) && code < STOCK_LIMIT && FieldOk(f)
    ensures Suffix(s.since, AllCalls(s.parsed, s.nows))
    ensures var key, says := market * STOCK_LIMIT + code, MessageValue(s.parsed, market, code, f, 0);
            && (key in Abs(s.shm).items <==> Called(s.since, key))
            && (FieldIn(Abs(s.shm), key, f) == says <==> LastSet(s.since, key, f).Some? || says == 0)
  {
    assert s.since + [] == s.since;
    var key, says := market * STOCK_LIMIT + code, MessageValue(s.parsed, market, code, f, 0);
    CallsOfMessages(s.parsed, s.nows, market, code, f, 0);
    SinceValue(s.since, AllCalls(s.parsed, s.nows), says, key, f);
  }

  lemma StartSuffix(left: Shm)
    requires Rep(left)
    ensures SinceSuffix(Attached(left))
  {
  }

  /** What a suffix of all calls makes of the empty map, `says` being what all of them say last. */
  lemma SinceValue(since: seq<Call>, all: seq<Call>, says: int, key: nat, f: Field)
    requires Suffix(since, all) && FieldOk(f) && says == OrElse(LastSet(all, key, f), 0)
    ensures var o := SaveAll(EMPTY_MAP, since);
            && (key in o.items <==> Called(since, key))
            && (FieldIn(o, key, f) == says <==> LastSet(since, key, f).Some? || says == 0)
  {
    var before := all[..|all| - |since|];
    assert all == before + since;
    assert LastSet(since, key, f).Some? ==> LastSet(all, key, f) == LastSet(since, key, f) by {
      LastSetAppend(before, since, key, f);
    }
    SavedField(EMPTY_MAP, since, key, f);
  }
}

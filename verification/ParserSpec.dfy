/** What parsing market data does to the plain map, and the last-value meaning of that. */
module ParserSpec {
  import opened XsheTypes
  import opened ShmImage
  import opened Common

  const STOCK_LIMIT := 1000000
  const SZ_MARKET := 2
  const HK_MARKET := 9

  // ---------------------------------------------------------------- keys and security codes

  function MakeKey(marketCode: int, stockCode: int): int {
    if stockCode >= STOCK_LIMIT then -1 else marketCode * STOCK_LIMIT + stockCode
  }

  /** Keys of different stocks never collide, within a market or across the two. */
  lemma KeysDistinct(m1: nat, c1: nat, m2: nat, c2: nat)
    requires c1 < STOCK_LIMIT && c2 < STOCK_LIMIT
    ensures MakeKey(m1, c1) == MakeKey(m2, c2) <==> m1 == m2 && c1 == c2
  {
  }

  function MakeElement(marketCode: int, stockCode: int): MyMDItem {
    ZERO_ITEM.(marketCode := marketCode, stockCode := stockCode)
  }

  predicate IsDigit(b: byte) { 48 <= b <= 57 }

  function DigitValue(b: byte): int { b as int - 48 }

  /** Where the leading digits of a fixed-width field end. */
  function DigitsEnd(s: seq<byte>, i: nat): (n: nat)
    requires i <= |s|
    ensures i <= n <= |s|
    ensures forall j :: i <= j < n ==> IsDigit(s[j])
    ensures n < |s| ==> !IsDigit(s[n])
    decreases |s| - i
  {
    if i < |s| && IsDigit(s[i]) then DigitsEnd(s, i + 1) else i
  }

  /** The number a run of digits writes in base ten. */
  function Decimal(s: seq<byte>): (v: int)
    requires forall j :: 0 <= j < |s| ==> IsDigit(s[j])
    ensures v >= 0
  {
    if s == [] then 0
    else
      assert IsDigit(s[|s| - 1]);
      Decimal(s[..|s| - 1]) * 10 + DigitValue(s[|s| - 1])
  }

  function StockCode(field: seq<byte>): nat {
    Decimal(field[..DigitsEnd(field, 0)])
  }

  function PowerOfTen(n: nat): nat { if n == 0 then 1 else 10 * PowerOfTen(n - 1) }

  lemma {:induction false} DecimalBound(s: seq<byte>)
    requires forall j :: 0 <= j < |s| ==> IsDigit(s[j])
    ensures Decimal(s) < PowerOfTen(|s|)
  {
    if s != [] {
      DecimalBound(s[..|s| - 1]);
    }
  }

  /** The accumulator of an eight-character field always fits a 32-bit int. */
  lemma StockCodeFitsInt(field: seq<byte>)
    requires |field| == 8
    ensures StockCode(field) <= 99999999
  {
    var digits := field[..DigitsEnd(field, 0)];
    DecimalBound(digits);
    PowersGrow(|digits|, 8);
    assert PowerOfTen(8) == 100000000 by { assert PowerOfTen(4) == 10000; }
  }

  /** Read in base ten, the first digit weighing most, up to the first character that is no digit. */
  lemma StockCodeDigits(s: seq<byte>, d: byte, rest: seq<byte>)
    requires forall j :: 0 <= j < |s| ==> 48 <= s[j] <= 57
    requires 48 <= d <= 57 && (rest == [] || rest[0] < 48 || rest[0] > 57)
    ensures StockCode(rest) == 0
    ensures StockCode(s + [d] + rest) == 10 * StockCode(s) + (d - 48)
  {
    DigitsEndAt(rest, 0, 0);
    DigitsEndAt(s, 0, |s|);
    DigitsEndAt(s + [d] + rest, 0, |s| + 1);
    assert (s + [d] + rest)[..|s| + 1] == s + [d];
    assert s[..|s|] == s && (s + [d])[..|s|] == s;
  }

  lemma {:induction false} PowersGrow(m: nat, n: nat)
    requires m <= n
    ensures PowerOfTen(m) <= PowerOfTen(n)
    decreases n - m
  {
    if m < n { PowersGrow(m + 1, n); }
  }

  function Render(code: nat, width: nat): (s: seq<byte>)
    ensures |s| == width && forall j :: 0 <= j < width ==> IsDigit(s[j])
    decreases width
  {
    if width == 0 then [] else Render(code / 10, width - 1) + [48 + code % 10]
  }

  /** Reading back a code written with leading zeros and followed by a non-digit. */
  lemma {:induction false} DecimalOfRender(code: nat, width: nat)
    requires code < PowerOfTen(width)
    ensures Decimal(Render(code, width)) == code
    decreases width
  {
    if width > 0 {
      DecimalOfRender(code / 10, width - 1);
      var s := Render(code, width);
      assert s[..width - 1] == Render(code / 10, width - 1);
    }
  }

  lemma {:induction false} DigitsEndAt(s: seq<byte>, i: nat, n: nat)
    requires i <= n <= |s| && forall j :: i <= j < n ==> IsDigit(s[j])
    requires n < |s| ==> !IsDigit(s[n])
    ensures DigitsEnd(s, i) == n
    decreases n - i
  {
    if i < n { DigitsEndAt(s, i + 1, n); }
  }

  lemma StockCodeOfRender(code: nat, width: nat, rest: seq<byte>)
    requires code < PowerOfTen(width) && (rest == [] || !IsDigit(rest[0]))
    ensures StockCode(Render(code, width) + rest) == code
  {
    DecimalOfRender(code, width);
    var field := Render(code, width) + rest;
    DigitsEndAt(field, 0, width);
    assert field[..width] == Render(code, width);
  }

  // ---------------------------------------------------------------- snapshots and ticks

  /** The conversion of a 64-bit price to int: the low 32 bits, read as two's complement. */
  function ToInt32(x: int): (r: int)
    ensures -0x8000_0000 <= x < 0x8000_0000 ==> r == x
    ensures -0x8000_0000 <= r < 0x8000_0000 && (r - x) % 0x1_0000_0000 == 0
  {
    var low := x % 0x1_0000_0000;
    if low < 0x8000_0000 then low else low - 0x1_0000_0000
  }

  datatype Quote = Quote(entryType: byte, px: int64, level: uint16)

  /** What both parse overloads read of a message. */
  datatype Snapshot = Snapshot(market: int, securityId: seq<byte>, origTime: int64, quotes: seq<Quote>)

  function OfSz(md: RawSzMDData): Snapshot
    requires forall i :: 0 <= i < |md.entries| ==> |md.entries[i].entryType| == 2
  {
    Snapshot(SZ_MARKET, md.prefix.securityId, md.prefix.origTime,
             seq(|md.entries|, i requires 0 <= i < |md.entries| =>
               Quote(md.entries[i].entryType[0], md.entries[i].px, md.entries[i].level)))
  }

  function OfHk(md: RawSzHkMDData): Snapshot
    requires forall i :: 0 <= i < |md.entries| ==> |md.entries[i].entryType| == 2
  {
    Snapshot(HK_MARKET, md.prefix.securityId, md.prefix.origTime,
             seq(|md.entries|, i requires 0 <= i < |md.entries| =>
               Quote(md.entries[i].entryType[0], md.entries[i].px, md.entries[i].level)))
  }

  predicate Usable(q: Quote) { IsDigit(q.entryType) && q.level <= 1 }

  predicate Tradable(snap: Snapshot) { StockCode(snap.securityId) < STOCK_LIMIT }

  function Key(snap: Snapshot): (key: nat)
    requires Tradable(snap) && snap.market >= 0
    ensures key == MakeKey(snap.market, StockCode(snap.securityId))
  {
    snap.market * STOCK_LIMIT + StockCode(snap.securityId)
  }

  // ---------------------------------------------------------------- effect on the map

  function GetOrMake(o: Ordered, key: nat, market: int, code: int): MyMDItem {
    if key in o.items then o.items[key] else MakeElement(market, code)
  }

  function SaveCodes(o: Ordered, key: nat, market: int, code: int): Ordered {
    Put(o, key, GetOrMake(o, key, market, code).(marketCode := market, stockCode := code))
  }

  function SaveTime(o: Ordered, key: nat, market: int, code: int, origTime: int, now: int): Ordered {
    Put(o, key, GetOrMake(o, key, market, code).(origTime := origTime, updateTime := now))
  }

  function WithPrice(item: MyMDItem, entry: nat, value: int): MyMDItem
    requires entry < NUM_FIELD_SIZE
  {
    item.(price := item.price[entry := value])
  }

  function SavePrice(o: Ordered, key: nat, market: int, code: int, entry: nat, value: int): Ordered
    requires entry < NUM_FIELD_SIZE
  {
    Put(o, key, WithPrice(GetOrMake(o, key, market, code), entry, value))
  }

  function SaveQuotes(o: Ordered, key: nat, market: int, code: int, quotes: seq<Quote>): Ordered
    decreases |quotes|
  {
    if quotes == [] then o
    else
      var before := SaveQuotes(o, key, market, code, quotes[..|quotes| - 1]);
      var q := quotes[|quotes| - 1];
      if Usable(q) then SavePrice(before, key, market, code, DigitValue(q.entryType), ToInt32(q.px)) else before
  }

  /** What one entry does. */
  ghost predicate SavesQuote(before: Ordered, q: Quote, key: nat, market: int, code: int, after: Ordered) {
    after == if Usable(q) then SavePrice(before, key, market, code, DigitValue(q.entryType), ToInt32(q.px)) else before
  }

  /** A trail of single entries adds up to all of them. */
  lemma {:induction false} TrailIsSaveQuotes(trail: seq<Ordered>, quotes: seq<Quote>, key: nat, market: int, code: int)
    requires |trail| == |quotes| + 1
    requires forall j :: 0 <= j < |quotes| ==> SavesQuote(trail[j], quotes[j], key, market, code, trail[j + 1])
    ensures trail[|quotes|] == SaveQuotes(trail[0], key, market, code, quotes)
    decreases |quotes|
  {
    if quotes != [] {
      var n := |quotes| - 1;
      TrailIsSaveQuotes(trail[..n + 1], quotes[..n], key, market, code);
      assert SavesQuote(trail[n], quotes[n], key, market, code, trail[n + 1]);
    }
  }

  function ParseInto(o: Ordered, snap: Snapshot, now: int): Ordered
    requires snap.market >= 0
  {
    if !Tradable(snap) then o
    else
      var key, code := Key(snap), StockCode(snap.securityId);
      SaveQuotes(SaveTime(SaveCodes(o, key, snap.market, code), key, snap.market, code, snap.origTime, now),
                 key, snap.market, code, snap.quotes)
  }

  /** Parsing messages in order; `nows[i]` is the clock when message i is parsed. */
  function ParseAll(o: Ordered, snaps: seq<Snapshot>, nows: seq<int>): Ordered
    requires |snaps| == |nows| && forall i :: 0 <= i < |snaps| ==> snaps[i].market >= 0
    decreases |snaps|
  {
    if snaps == [] then o
    else
      var n := |snaps| - 1;
      ParseInto(ParseAll(o, snaps[..n], nows[..n]), snaps[n], nows[n])
  }

  // ---------------------------------------------------------------- last-value semantics

  predicate About(snap: Snapshot, market: int, code: nat) {
    snap.market == market && StockCode(snap.securityId) == code
  }

  predicate Sets(q: Quote, entry: nat) { Usable(q) && DigitValue(q.entryType) == entry }

  /** The last price a list of quotes gives for one entry type. */
  function LastQuote(quotes: seq<Quote>, entry: nat): Option<int> {
    if quotes == [] then None
    else if Sets(quotes[|quotes| - 1], entry) then Some(ToInt32(quotes[|quotes| - 1].px))
    else LastQuote(quotes[..|quotes| - 1], entry)
  }

  /** The last price the messages give for one stock and entry type, `before` if they give none. */
  function LastPrice(snaps: seq<Snapshot>, market: int, code: nat, entry: nat, before: int): int {
    if snaps == [] then before
    else
      var snap := snaps[|snaps| - 1];
      if About(snap, market, code) && LastQuote(snap.quotes, entry).Some? then LastQuote(snap.quotes, entry).value
      else LastPrice(snaps[..|snaps| - 1], market, code, entry, before)
  }

  function LastTime(snaps: seq<Snapshot>, market: int, code: nat): Option<int> {
    if snaps == [] then None
    else if About(snaps[|snaps| - 1], market, code) then Some(snaps[|snaps| - 1].origTime as int)
    else LastTime(snaps[..|snaps| - 1], market, code)
  }

  predicate QuoteAt(snaps: seq<Snapshot>, market: int, code: nat, entry: nat, i: nat, j: nat) {
    i < |snaps| && About(snaps[i], market, code) && j < |snaps[i].quotes| && Sets(snaps[i].quotes[j], entry)
  }

  /** Quote (i, j) matches and no matching quote comes after it. */
  ghost predicate Latest(snaps: seq<Snapshot>, market: int, code: nat, entry: nat, i: nat, j: nat) {
    && QuoteAt(snaps, market, code, entry, i, j)
    && forall i': nat, j': nat :: QuoteAt(snaps, market, code, entry, i', j') ==> i' < i || (i' == i && j' <= j)
  }

  ghost predicate LatestPriceAt(snaps: seq<Snapshot>, market: int, code: nat, entry: nat, value: int, i: nat, j: nat) {
    Latest(snaps, market, code, entry, i, j) && value == ToInt32(snaps[i].quotes[j].px)
  }

  lemma {:induction false} LastQuoteMeaning(quotes: seq<Quote>, entry: nat)
    ensures match LastQuote(quotes, entry)
            case None => forall j :: 0 <= j < |quotes| ==> !Sets(quotes[j], entry)
            case Some(v) => exists j :: 0 <= j < |quotes| && Sets(quotes[j], entry) && v == ToInt32(quotes[j].px)
                              && forall k :: j < k < |quotes| ==> !Sets(quotes[k], entry)
  {
    if quotes != [] && !Sets(quotes[|quotes| - 1], entry) {
      LastQuoteMeaning(quotes[..|quotes| - 1], entry);
    }
  }

  /** LastPrice is the price of the latest matching quote, in message order and then entry order. */
  lemma {:induction false} LastPriceMeaning(snaps: seq<Snapshot>, market: int, code: nat, entry: nat, before: int)
    ensures || ((forall i: nat, j: nat :: !QuoteAt(snaps, market, code, entry, i, j))
                && LastPrice(snaps, market, code, entry, before) == before)
            || (exists i: nat, j: nat ::
                  LatestPriceAt(snaps, market, code, entry, LastPrice(snaps, market, code, entry, before), i, j))
  {
    if snaps != [] {
      var n: nat := |snaps| - 1;
      var snap := snaps[n];
      LastQuoteMeaning(snap.quotes, entry);
      if About(snap, market, code) && LastQuote(snap.quotes, entry).Some? {
        var j: nat :| j < |snap.quotes| && Sets(snap.quotes[j], entry)
                      && LastQuote(snap.quotes, entry).value == ToInt32(snap.quotes[j].px)
                      && forall k :: j < k < |snap.quotes| ==> !Sets(snap.quotes[k], entry);
        assert LatestPriceAt(snaps, market, code, entry, LastPrice(snaps, market, code, entry, before), n, j);
      } else {
        var init := snaps[..n];
        LastPriceMeaning(init, market, code, entry, before);
        assert forall i: nat, j: nat ::
            QuoteAt(snaps, market, code, entry, i, j) <==> QuoteAt(init, market, code, entry, i, j);
        if i: nat, j: nat :| LatestPriceAt(init, market, code, entry, LastPrice(init, market, code, entry, before),
            i, j) {
          assert LatestPriceAt(snaps, market, code, entry, LastPrice(snaps, market, code, entry, before), i, j);
        }
      }
    }
  }

  /** `after` differs from `before` only in the prices that `quotes` sets. */
  ghost predicate PricesFollow(before: MyMDItem, after: MyMDItem, quotes: seq<Quote>) {
    && after == before.(price := after.price)
    && forall e :: 0 <= e < NUM_FIELD_SIZE ==>
         after.price[e] == (match LastQuote(quotes, e) case Some(v) => v case None => before.price[e])
  }

  /** `after` is `before` with, at most, the item of `key` changed or appended. */
  ghost predicate OnlyKey(before: Ordered, after: Ordered, key: nat) {
    && key in after.items
    && after.order == (if key in before.items then before.order else before.order + [key])
    && after.items == before.items[key := after.items[key]]
  }

  lemma {:induction false} SaveQuotesEffect(o: Ordered, key: nat, market: int, code: int, quotes: seq<Quote>)
    requires key in o.items
    ensures var t := SaveQuotes(o, key, market, code, quotes);
            OnlyKey(o, t, key) && PricesFollow(o.items[key], t.items[key], quotes)
    decreases |quotes|
  {
    if quotes != [] {
      SaveQuotesEffect(o, key, market, code, quotes[..|quotes| - 1]);
    }
  }

  /** `after` has a message's key stamped by it and the prices it quotes set, and nothing else changed. */
  ghost predicate Parsed(before: Ordered, after: Ordered, snap: Snapshot, now: int)
    requires snap.market >= 0 && Tradable(snap)
  {
    var key := Key(snap);
    && OnlyKey(before, after, key)
    && after.items[key].marketCode == snap.market && after.items[key].stockCode == StockCode(snap.securityId)
    && after.items[key].origTime == snap.origTime && after.items[key].updateTime == now
    && forall e :: 0 <= e < NUM_FIELD_SIZE ==>
         after.items[key].price[e] == (match LastQuote(snap.quotes, e)
                                       case Some(v) => v
                                       case None => if key in before.items then before.items[key].price[e] else 0)
  }

  /** One message touches only its own key, stamps it and sets the prices it quotes. */
  lemma ParseIntoEffect(o: Ordered, snap: Snapshot, now: int)
    requires snap.market >= 0 && Tradable(snap)
    ensures Parsed(o, ParseInto(o, snap, now), snap, now)
  {
    var key, code := Key(snap), StockCode(snap.securityId);
    var stamped := SaveTime(SaveCodes(o, key, snap.market, code), key, snap.market, code, snap.origTime, now);
    SaveQuotesEffect(stamped, key, snap.market, code, snap.quotes);
  }

  function PriceIn(o: Ordered, key: nat, entry: nat): int
    requires entry < NUM_FIELD_SIZE
  {
    if key in o.items then o.items[key].price[entry] else 0
  }

  /** What the item of (market, code) must be once `snaps` have turned `before` into `after`. */
  ghost predicate LastValue(before: Ordered, after: Ordered, snaps: seq<Snapshot>, market: nat, code: nat)
    requires code < STOCK_LIMIT
  {
    var key, time := market * STOCK_LIMIT + code, LastTime(snaps, market, code);
    && (key in after.items <==> key in before.items || time.Some?)
    && (time.Some? ==>
          && after.items[key].marketCode == market && after.items[key].stockCode == code
          && after.items[key].origTime == time.value)
    && (time.None? && key in before.items ==> after.items[key] == before.items[key])
    && forall e :: 0 <= e < NUM_FIELD_SIZE ==>
         PriceIn(after, key, e) == LastPrice(snaps, market, code, e, PriceIn(before, key, e))
  }

  lemma LastValueStep(
      start: Ordered, before: Ordered, after: Ordered, snaps: seq<Snapshot>, now: int, market: nat, code: nat)
    requires snaps != [] && code < STOCK_LIMIT && LastValue(start, before, snaps[..|snaps| - 1], market, code)
    requires var snap := snaps[|snaps| - 1]; snap.market >= 0 && Tradable(snap) && Parsed(before, after, snap, now)
    ensures LastValue(start, after, snaps, market, code)
  {
    var snap := snaps[|snaps| - 1];
    KeysDistinct(snap.market, StockCode(snap.securityId), market, code);
  }

  /** Whatever the table held, after any sequence of messages every stock has the last price of each entry type
      and the time of its last message, stocks without a message are as before, and no key is new without one. */
  lemma {:induction false} ParseAllLastValue(o: Ordered, snaps: seq<Snapshot>, nows: seq<int>, market: nat, code: nat)
    requires |snaps| == |nows| && forall i :: 0 <= i < |snaps| ==> snaps[i].market >= 0
    requires code < STOCK_LIMIT
    ensures LastValue(o, ParseAll(o, snaps, nows), snaps, market, code)
    decreases |snaps|
  {
    if snaps != [] {
      var n := |snaps| - 1;
      var before := ParseAll(o, snaps[..n], nows[..n]);
      ParseAllLastValue(o, snaps[..n], nows[..n], market, code);
      if Tradable(snaps[n]) {
        assert Parsed(before, ParseAll(o, snaps, nows), snaps[n], nows[n]) by {
          ParseIntoEffect(before, snaps[n], nows[n]);
        }
        LastValueStep(o, before, ParseAll(o, snaps, nows), snaps, nows[n], market, code);
      }
    }
  }

  /** Every new key is the key of some message, so it lies in its market's own range. */
  lemma {:induction false} ParseAllKeys(o: Ordered, snaps: seq<Snapshot>, nows: seq<int>, key: nat)
    requires |snaps| == |nows| && forall i :: 0 <= i < |snaps| ==> snaps[i].market >= 0
    requires key in ParseAll(o, snaps, nows).items && key !in o.items
    ensures exists i :: 0 <= i < |snaps| && Tradable(snaps[i]) && key == Key(snaps[i])
    decreases |snaps|
  {
    var n := |snaps| - 1;
    if Tradable(snaps[n]) && key == Key(snaps[n]) {
    } else {
      var before := ParseAll(o, snaps[..n], nows[..n]);
      if Tradable(snaps[n]) {
        ParseIntoEffect(before, snaps[n], nows[n]);
      }
      ParseAllKeys(o, snaps[..n], nows[..n], key);
    }
  }

  /** Keys are only ever added, at the end. */
  lemma {:induction false} ParseAllGrows(o: Ordered, snaps: seq<Snapshot>, nows: seq<int>)
    requires |snaps| == |nows| && forall i :: 0 <= i < |snaps| ==> snaps[i].market >= 0
    ensures o.order <= ParseAll(o, snaps, nows).order
    decreases |snaps|
  {
    if snaps != [] {
      var n := |snaps| - 1;
      var before := ParseAll(o, snaps[..n], nows[..n]);
      ParseAllGrows(o, snaps[..n], nows[..n]);
      if Tradable(snaps[n]) {
        ParseIntoEffect(before, snaps[n], nows[n]);
      }
    }
  }

  /** One more message. */
  lemma ParseAllSnoc(o: Ordered, snaps: seq<Snapshot>, nows: seq<int>, snap: Snapshot, now: int)
    requires |snaps| == |nows| && snap.market >= 0 && forall i :: 0 <= i < |snaps| ==> snaps[i].market >= 0
    ensures ParseAll(o, snaps + [snap], nows + [now]) == ParseInto(ParseAll(o, snaps, nows), snap, now)
  {
    assert (snaps + [snap])[..|snaps|] == snaps && (nows + [now])[..|nows|] == nows;
  }

  /** Messages of markets other than 0 never add the key the restart check mistakes: what they make of consistent
      memory that the check has let pass, or has emptied, it lets pass again. */
  lemma ParsedSurvivesRestart(start: Shm, s: Shm, snaps: seq<Snapshot>, nows: seq<int>)
    requires |snaps| == |nows| && forall i :: 0 <= i < |snaps| ==> snaps[i].market > 0
    requires Rep(start) && Rep(s) && |s.table| == |start.table| > 0 && AttachImage(start) == start
    requires Abs(s) == ParseAll(Abs(start), snaps, nows)
    ensures AttachImage(s) == s
  {
    AttachExact(start);
    AttachExact(s);
    if s.table[0].valid {
      assert 0 in Abs(s).items;
      if 0 !in Abs(start).items {
        ParseAllKeys(Abs(start), snaps, nows, 0);
      }
      ParseAllGrows(Abs(start), snaps, nows);
    }
  }

  /** Every record carries the market and stock code of its own key. */
  ghost predicate CodesOk(o: Ordered) {
    forall k :: k in o.items ==> RightCodes(k, o.items[k])
  }

  predicate RightCodes(key: nat, item: MyMDItem) {
    item.marketCode == key / STOCK_LIMIT && item.stockCode == key % STOCK_LIMIT
  }

  lemma ParseIntoKeepsCodes(o: Ordered, snap: Snapshot, now: int)
    requires snap.market >= 0 && CodesOk(o)
    ensures CodesOk(ParseInto(o, snap, now))
  {
    if Tradable(snap) {
      ParseIntoEffect(o, snap, now);
    }
  }
}

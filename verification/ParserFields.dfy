/** What parsing a message does to the map, in the message's own fields, for both kinds of market data. */
module ParserFields {
  import opened XsheTypes
  import opened Common
  import opened ShmImage
  import opened ParserSpec

  /** An entry of type digit `kind` that is of the first level or of none. */
  predicate SzQuotes(e: MDEntry, kind: nat)
    requires |e.entryType| == 2
  {
    e.entryType[0] == 48 + kind && e.level <= 1
  }

  predicate HkQuotes(e: HkMDEntry, kind: nat)
    requires |e.entryType| == 2
  {
    e.entryType[0] == 48 + kind && e.level <= 1
  }

  ghost predicate SzEntries(es: seq<MDEntry>) { forall i :: 0 <= i < |es| ==> |es[i].entryType| == 2 }
  ghost predicate HkEntries(es: seq<HkMDEntry>) { forall i :: 0 <= i < |es| ==> |es[i].entryType| == 2 }

  /** `price` is that of the last entry for `kind`, or what it was if there is none. */
  ghost predicate SzPrice(es: seq<MDEntry>, kind: nat, was: int, price: int)
    requires SzEntries(es)
  {
    || (price == was && forall i :: 0 <= i < |es| ==> !SzQuotes(es[i], kind))
    || exists j :: 0 <= j < |es| && SzQuotes(es[j], kind) && price == ToInt32(es[j].px)
                && forall k :: j < k < |es| ==> !SzQuotes(es[k], kind)
  }

  ghost predicate HkPrice(es: seq<HkMDEntry>, kind: nat, was: int, price: int)
    requires HkEntries(es)
  {
    || (price == was && forall i :: 0 <= i < |es| ==> !HkQuotes(es[i], kind))
    || exists j :: 0 <= j < |es| && HkQuotes(es[j], kind) && price == ToInt32(es[j].px)
                && forall k :: j < k < |es| ==> !HkQuotes(es[k], kind)
  }

  /** Only the record of `key` is written: it has these codes and times, and is new if it was not there. */
  ghost predicate Stamped(before: Ordered, after: Ordered, key: nat, market: int, code: int, origTime: int, now: int) {
    && key in after.items && after.items == before.items[key := after.items[key]]
    && after.order == (if key in before.items then before.order else before.order + [key])
    && after.items[key].marketCode == market && after.items[key].stockCode == code
    && after.items[key].origTime == origTime && after.items[key].updateTime == now
  }

  /** The table before and after a 300111 of these fields. */
  ghost predicate SzParsed(before: Ordered, after: Ordered, p: Prefix, es: seq<MDEntry>, now: int)
    requires SzEntries(es)
  {
    var code := StockCode(p.securityId);
    var key := 2000000 + code;
    if code >= 1000000 then after == before
    else
      && Stamped(before, after, key, 2, code, p.origTime, now)
      && forall e :: 0 <= e < 10 ==> SzPrice(es, e, PriceIn(before, key, e), after.items[key].price[e])
  }

  /** And a 306311. */
  ghost predicate HkParsed(before: Ordered, after: Ordered, p: Prefix, es: seq<HkMDEntry>, now: int)
    requires HkEntries(es)
  {
    var code := StockCode(p.securityId);
    var key := 9000000 + code;
    if code >= 1000000 then after == before
    else
      && Stamped(before, after, key, 9, code, p.origTime, now)
      && forall e :: 0 <= e < 10 ==> HkPrice(es, e, PriceIn(before, key, e), after.items[key].price[e])
  }

  /** What the last quote of a kind makes of a price. */
  function Updated(quotes: seq<Quote>, kind: nat, was: int): int {
    match LastQuote(quotes, kind) case Some(v) => v case None => was
  }

  lemma SzPriceIff(md: RawSzMDData, kind: nat, was: int, price: int)
    requires SzEntries(md.entries) && kind < 10
    ensures SzPrice(md.entries, kind, was, price) <==> price == Updated(OfSz(md).quotes, kind, was)
  {
    var es, qs := md.entries, OfSz(md).quotes;
    LastQuoteMeaning(qs, kind);
    assert forall i :: 0 <= i < |es| ==> (Sets(qs[i], kind) <==> SzQuotes(es[i], kind)) && qs[i].px == es[i].px;
  }

  lemma HkPriceIff(md: RawSzHkMDData, kind: nat, was: int, price: int)
    requires HkEntries(md.entries) && kind < 10
    ensures HkPrice(md.entries, kind, was, price) <==> price == Updated(OfHk(md).quotes, kind, was)
  {
    var es, qs := md.entries, OfHk(md).quotes;
    LastQuoteMeaning(qs, kind);
    assert forall i :: 0 <= i < |es| ==> (Sets(qs[i], kind) <==> HkQuotes(es[i], kind)) && qs[i].px == es[i].px;
  }

  lemma SameRecord(before: Ordered, a: Ordered, b: Ordered, snap: Snapshot, now: int)
    requires snap.market >= 0 && Tradable(snap) && Parsed(before, a, snap, now) && Parsed(before, b, snap, now)
    ensures a == b
  {
    var key := Key(snap);
    assert a.items[key].price == b.items[key].price;
  }

  /** The fields of the table after a message determine the whole table: it is what parsing makes of it. */
  lemma ParsedIff(before: Ordered, after: Ordered, snap: Snapshot, now: int)
    requires snap.market >= 0 && Tradable(snap)
    ensures Parsed(before, after, snap, now) <==> after == ParseInto(before, snap, now)
  {
    ParseIntoEffect(before, snap, now);
    if Parsed(before, after, snap, now) {
      SameRecord(before, after, ParseInto(before, snap, now), snap, now);
    }
  }

  lemma SzParsedIff(before: Ordered, after: Ordered, md: RawSzMDData, now: int)
    requires SzEntries(md.entries)
    ensures SzParsed(before, after, md.prefix, md.entries, now) <==> after == ParseInto(before, OfSz(md), now)
  {
    var snap, code := OfSz(md), StockCode(md.prefix.securityId);
    if code < 1000000 {
      var key := Key(snap);
      ParsedIff(before, after, snap, now);
      if key in after.items {
        forall e | 0 <= e < 10
          ensures SzPrice(md.entries, e, PriceIn(before, key, e), after.items[key].price[e])
             <==> after.items[key].price[e] == Updated(snap.quotes, e, PriceIn(before, key, e))
        {
          SzPriceIff(md, e, PriceIn(before, key, e), after.items[key].price[e]);
        }
      }
    }
  }

  lemma HkParsedIff(before: Ordered, after: Ordered, md: RawSzHkMDData, now: int)
    requires HkEntries(md.entries)
    ensures HkParsed(before, after, md.prefix, md.entries, now) <==> after == ParseInto(before, OfHk(md), now)
  {
    var snap, code := OfHk(md), StockCode(md.prefix.securityId);
    if code < 1000000 {
      var key := Key(snap);
      ParsedIff(before, after, snap, now);
      if key in after.items {
        forall e | 0 <= e < 10
          ensures HkPrice(md.entries, e, PriceIn(before, key, e), after.items[key].price[e])
             <==> after.items[key].price[e] == Updated(snap.quotes, e, PriceIn(before, key, e))
        {
          HkPriceIff(md, e, PriceIn(before, key, e), after.items[key].price[e]);
        }
      }
    }
  }

  /** Written out in full. */
  lemma SzParsedMeans(before: Ordered, after: Ordered, md: RawSzMDData, now: int)
    requires SzEntries(md.entries) && after == ParseInto(before, OfSz(md), now)
    ensures StockCode(md.prefix.securityId) >= 1000000 ==> after == before
    ensures var key := 2000000 + StockCode(md.prefix.securityId);
            StockCode(md.prefix.securityId) < 1000000 ==>
              && key in after.items && after.items == before.items[key := after.items[key]]
              && after.order == (if key in before.items then before.order else before.order + [key])
              && after.items[key].marketCode == 2 && after.items[key].stockCode == StockCode(md.prefix.securityId)
              && after.items[key].origTime == md.prefix.origTime && after.items[key].updateTime == now
    ensures var key := 2000000 + StockCode(md.prefix.securityId);
            forall e, j :: StockCode(md.prefix.securityId) < 1000000 && 0 <= e < 10 && 0 <= j < |md.entries|
              && md.entries[j].entryType[0] == 48 + e && md.entries[j].level <= 1
              && (forall k :: j < k < |md.entries| && md.entries[k].entryType[0] == 48 + e ==> md.entries[k].level > 1)
              ==> after.items[key].price[e] == ToInt32(md.entries[j].px)
    ensures var key := 2000000 + StockCode(md.prefix.securityId);
            forall e :: StockCode(md.prefix.securityId) < 1000000 && 0 <= e < 10
              && (forall k :: 0 <= k < |md.entries| && md.entries[k].entryType[0] == 48 + e ==> md.entries[k].level > 1)
              ==> after.items[key].price[e] == if key in before.items then before.items[key].price[e] else 0
  {
    SzParsedIff(before, after, md, now);
  }

  /** Written out. */
  lemma HkParsedMeans(before: Ordered, after: Ordered, md: RawSzHkMDData, now: int)
    requires HkEntries(md.entries) && after == ParseInto(before, OfHk(md), now)
    ensures StockCode(md.prefix.securityId) >= 1000000 ==> after == before
    ensures var key := 9000000 + StockCode(md.prefix.securityId);
            StockCode(md.prefix.securityId) < 1000000 ==>
              && key in after.items && after.items == before.items[key := after.items[key]]
              && after.order == (if key in before.items then before.order else before.order + [key])
              && after.items[key].marketCode == 9 && after.items[key].stockCode == StockCode(md.prefix.securityId)
              && after.items[key].origTime == md.prefix.origTime && after.items[key].updateTime == now
    ensures var key := 9000000 + StockCode(md.prefix.securityId);
            forall e, j :: StockCode(md.prefix.securityId) < 1000000 && 0 <= e < 10 && 0 <= j < |md.entries|
              && md.entries[j].entryType[0] == 48 + e && md.entries[j].level <= 1
              && (forall k :: j < k < |md.entries| && md.entries[k].entryType[0] == 48 + e ==> md.entries[k].level > 1)
              ==> after.items[key].price[e] == ToInt32(md.entries[j].px)
    ensures var key := 9000000 + StockCode(md.prefix.securityId);
            forall e :: StockCode(md.prefix.securityId) < 1000000 && 0 <= e < 10
              && (forall k :: 0 <= k < |md.entries| && md.entries[k].entryType[0] == 48 + e ==> md.entries[k].level > 1)
              ==> after.items[key].price[e] == if key in before.items then before.items[key].price[e] else 0
  {
    HkParsedIff(before, after, md, now);
  }
}

/** The parser object: it finds a record in the shared store and updates it through a pointer, or
    stores a new one. */
module MdParser {
  import opened XsheTypes
  import opened ShmImage
  import opened ShmStorage
  import opened ParserSpec
  import opened ParserFields

  const TABLE_SIZE := 10 * 1000000

  /** The accumulator loop over a fixed-width field. */
  method FixedCharToInt(str: seq<byte>) returns (result: int)
    ensures result == StockCode(str)
  {
    result := 0;
    var i := 0;
    while i < |str|
      invariant 0 <= i <= DigitsEnd(str, 0)
      invariant forall j :: 0 <= j < i ==> IsDigit(str[j])
      invariant result == Decimal(str[..i])
      invariant DigitsEnd(str, i) == DigitsEnd(str, 0)
    {
      if str[i] < 48 || str[i] > 57 {
        break;
      }
      assert str[..i + 1][..i] == str[..i];
      result := result * 10 + (str[i] as int - 48);
      i := i + 1;
    }
  }

  /** What dump prints of a record: bid, ask, last, open, high and low price, in this order. */
  datatype DumpLine = DumpLine(key: int, market: int, stock: int, origTime: int, updateTime: int, prices: seq<int>)

  function LineOf(r: MyMDItem): DumpLine {
    DumpLine(MakeKey(r.marketCode, r.stockCode), r.marketCode, r.stockCode, r.origTime, r.updateTime,
             [r.price[0], r.price[1], r.price[2], r.price[4], r.price[7], r.price[8]])
  }

  lemma LinesShow(o: Ordered, lines: seq<DumpLine>)
    requires |lines| == |o.order| && forall j :: 0 <= j < |lines| ==> o.order[j] in o.items
    requires forall j :: 0 <= j < |lines| ==> lines[j] == LineOf(o.items[o.order[j]])
    ensures forall j :: 0 <= j < |lines| ==>
              var r := o.items[o.order[j]];
              && lines[j].key == MakeKey(r.marketCode, r.stockCode)
              && lines[j].market == r.marketCode && lines[j].stock == r.stockCode
              && lines[j].origTime == r.origTime && lines[j].updateTime == r.updateTime
              && lines[j].prices == [r.price[0], r.price[1], r.price[2], r.price[4], r.price[7], r.price[8]]
    ensures CodesOk(o) ==> forall j :: 0 <= j < |lines| ==> lines[j].key == o.order[j]
  {
    if CodesOk(o) {
      forall j | 0 <= j < |lines| ensures lines[j].key == o.order[j] {
        assert RightCodes(o.order[j], o.items[o.order[j]]);
      }
    }
  }

  class MDParser {
    const myMDmap: ShmStorage

    /** Memory an earlier process left in a consistent state is attached in a consistent state. */
    constructor (mem: SharedMemory)
      requires mem.index.Length == mem.table.Length
      modifies mem`size, mem.index, mem.table
      ensures fresh(myMDmap) && myMDmap.mem == mem
      ensures myMDmap.inBounds <==> ScanInBounds(old(mem.Image()))
      ensures myMDmap.inBounds ==> mem.Image() == AttachImage(old(mem.Image()))
      ensures old(Rep(mem.Image())) ==> myMDmap.inBounds && Valid()
    {
      ZeroedRep(mem.table.Length);
      if Rep(mem.Image()) { ConsistentInBounds(mem.Image()); }
      myMDmap := new ShmStorage(mem);
    }

    ghost predicate Valid()
      reads myMDmap.mem, myMDmap.mem.index, myMDmap.mem.table
    {
      myMDmap.Valid()
    }

    ghost function Map(): Ordered
      requires Valid()
      reads myMDmap.mem, myMDmap.mem.index, myMDmap.mem.table
    {
      Abs(myMDmap.mem.Image())
    }

    /** A write through the pointer `slot`. */
    method WriteItem(slot: nat, item: MyMDItem)
      requires Valid() && slot in Map().items && slot < myMDmap.mem.table.Length
      modifies myMDmap.mem.table
      ensures Valid() && Map() == Put(old(Map()), slot, item)
    {
      ghost var image := myMDmap.mem.Image();
      WriteRefines(image, slot, item);
      myMDmap.mem.table[slot] := myMDmap.mem.table[slot].(item := item);
      assert myMDmap.mem.Image() == WriteImage(image, slot, item);
    }

    /** getElement: the slot of a stock, -1 for nullptr. */
    method GetElement(marketCode: nat, stockCode: nat) returns (slot: int)
      requires Valid() && MakeKey(marketCode, stockCode) < myMDmap.mem.table.Length
      ensures var key := MakeKey(marketCode, stockCode);
              slot == if key in Map().items then key else -1
    {
      var key := MakeKey(marketCode, stockCode);
      if key == -1 {
        return -1;
      }
      slot := myMDmap.GetPtr(key);
    }

    method SavePx(marketCode: nat, stockCode: nat, entryType: nat, value: int) returns (ret: int)
      requires Valid() && MakeKey(marketCode, stockCode) < myMDmap.mem.table.Length
      requires entryType < NUM_FIELD_SIZE
      modifies myMDmap.mem`size, myMDmap.mem.index, myMDmap.mem.table
      ensures Valid()
      ensures var key := MakeKey(marketCode, stockCode);
              if key < 0 then ret == -2 && Map() == old(Map())
              else ret == 0 && Map() == SavePrice(old(Map()), key, marketCode, stockCode, entryType, value)
    {
      var index := MakeKey(marketCode, stockCode);
      if index < 0 {
        return -2;
      }
      var slot := GetElement(marketCode, stockCode);
      if slot == -1 {
        var mdItem := MakeElement(marketCode, stockCode);
        myMDmap.Set(index, WithPrice(mdItem, entryType, value));
      } else {
        WriteItem(slot, WithPrice(myMDmap.mem.table[slot].item, entryType, value));
      }
      return 0;
    }

    method SaveOrigTime(marketCode: nat, stockCode: nat, origTime: int, now: int) returns (ret: int)
      requires Valid() && MakeKey(marketCode, stockCode) < myMDmap.mem.table.Length
      modifies myMDmap.mem`size, myMDmap.mem.index, myMDmap.mem.table
      ensures Valid()
      ensures var key := MakeKey(marketCode, stockCode);
              if key < 0 then ret == -1 && Map() == old(Map())
              else ret == 0 && Map() == SaveTime(old(Map()), key, marketCode, stockCode, origTime, now)
    {
      var index := MakeKey(marketCode, stockCode);
      if index < 0 {
        return -1;
      }
      var slot := GetElement(marketCode, stockCode);
      if slot == -1 {
        var mdItem := MakeElement(marketCode, stockCode);
        myMDmap.Set(index, mdItem.(origTime := origTime, updateTime := now));
      } else {
        WriteItem(slot, myMDmap.mem.table[slot].item.(origTime := origTime, updateTime := now));
      }
      return 0;
    }

    method SaveMktStkCode(marketCode: nat, stockCode: nat) returns (ret: int)
      requires Valid() && MakeKey(marketCode, stockCode) < myMDmap.mem.table.Length
      modifies myMDmap.mem`size, myMDmap.mem.index, myMDmap.mem.table
      ensures Valid()
      ensures var key := MakeKey(marketCode, stockCode);
              if key < 0 then ret == -1 && Map() == old(Map())
              else ret == 0 && Map() == SaveCodes(old(Map()), key, marketCode, stockCode)
    {
      var index := MakeKey(marketCode, stockCode);
      if index < 0 {
        return -1;
      }
      var slot := GetElement(marketCode, stockCode);
      if slot == -1 {
        myMDmap.Set(index, MakeElement(marketCode, stockCode));
      } else {
        WriteItem(slot, myMDmap.mem.table[slot].item.(marketCode := marketCode, stockCode := stockCode));
      }
      return 0;
    }

    /** The body both parse overloads share; `now` is the clock saveOrigTime reads. */
    method Parse(snap: Snapshot, now: int) returns (ret: int)
      requires Valid() && 0 <= snap.market && STOCK_LIMIT * (snap.market + 1) <= myMDmap.mem.table.Length
      modifies myMDmap.mem`size, myMDmap.mem.index, myMDmap.mem.table
      ensures Valid()
      ensures ret == if Tradable(snap) then 0 else 1
      ensures Map() == ParseInto(old(Map()), snap, now)
    {
      var stockCode := FixedCharToInt(snap.securityId);
      if stockCode >= STOCK_LIMIT {
        return 1;
      }
      ghost var key := Key(snap);
      var _ := SaveMktStkCode(snap.market, stockCode);
      var _ := SaveOrigTime(snap.market, stockCode, snap.origTime, now);
      ParseQuotes(snap, stockCode);
      return 0;
    }

    /** One entry: letters and the second to fifth levels are skipped. */
    method ParseQuote(market: nat, stockCode: nat, q: Quote)
      requires Valid() && STOCK_LIMIT * (market + 1) <= myMDmap.mem.table.Length && stockCode < STOCK_LIMIT
      modifies myMDmap.mem`size, myMDmap.mem.index, myMDmap.mem.table
      ensures Valid()
      ensures SavesQuote(old(Map()), q, MakeKey(market, stockCode), market, stockCode, Map())
    {
      if q.entryType < 48 || q.entryType > 57 {
        return;
      }
      if q.level > 1 {
        return;
      }
      var _ := SavePx(market, stockCode, DigitValue(q.entryType), ToInt32(q.px));
    }

    /** The loop over the entries. */
    method ParseQuotes(snap: Snapshot, stockCode: nat)
      requires Valid() && 0 <= snap.market && STOCK_LIMIT * (snap.market + 1) <= myMDmap.mem.table.Length
      requires stockCode < STOCK_LIMIT
      modifies myMDmap.mem`size, myMDmap.mem.index, myMDmap.mem.table
      ensures Valid()
      ensures Map() == SaveQuotes(old(Map()), MakeKey(snap.market, stockCode), snap.market, stockCode, snap.quotes)
    {
      ghost var trail := [Map()];      // the map before each entry and after the last
      var i := 0;
      while i < |snap.quotes|
        invariant 0 <= i <= |snap.quotes| && Valid()
        invariant |trail| == i + 1 && trail[0] == old(Map()) && trail[i] == Map()
        invariant forall j :: 0 <= j < i ==> SavesQuote(trail[j], snap.quotes[j], MakeKey(snap.market, stockCode),
                                                        snap.market, stockCode, trail[j + 1])
      {
        ParseQuote(snap.market, stockCode, snap.quotes[i]);
        trail := trail + [Map()];
        i := i + 1;
      }
      TrailIsSaveQuotes(trail, snap.quotes, MakeKey(snap.market, stockCode), snap.market, stockCode);
    }

    /** parse(const RawSzMDData&). */
    method ParseSz(md: RawSzMDData, now: int) returns (ret: int)
      requires Valid() && myMDmap.mem.table.Length == TABLE_SIZE
      requires forall i :: 0 <= i < |md.entries| ==> |md.entries[i].entryType| == 2
      modifies myMDmap.mem`size, myMDmap.mem.index, myMDmap.mem.table
      ensures Valid() && Map() == ParseInto(old(Map()), OfSz(md), now)
      ensures ret == if StockCode(md.prefix.securityId) < 1000000 then 0 else 1
      ensures StockCode(md.prefix.securityId) >= 1000000 ==> Map() == old(Map())
      ensures var key := 2000000 + StockCode(md.prefix.securityId);
              StockCode(md.prefix.securityId) < 1000000 ==>
                && key in Map().items && Map().items == old(Map()).items[key := Map().items[key]]
                && Map().order == (if key in old(Map()).items then old(Map()).order else old(Map()).order + [key])
                && Map().items[key].marketCode == 2 && Map().items[key].stockCode == StockCode(md.prefix.securityId)
                && Map().items[key].origTime == md.prefix.origTime && Map().items[key].updateTime == now
      ensures var key := 2000000 + StockCode(md.prefix.securityId);
              forall e, j :: StockCode(md.prefix.securityId) < 1000000 && 0 <= e < 10 && 0 <= j < |md.entries|
                && md.entries[j].entryType[0] == 48 + e && md.entries[j].level <= 1
                && (forall k :: j < k < |md.entries| && md.entries[k].entryType[0] == 48 + e ==>
                      md.entries[k].level > 1)
                ==> Map().items[key].price[e] == ToInt32(md.entries[j].px)
      ensures var key := 2000000 + StockCode(md.prefix.securityId);
              forall e :: StockCode(md.prefix.securityId) < 1000000 && 0 <= e < 10
                && (forall k :: 0 <= k < |md.entries| && md.entries[k].entryType[0] == 48 + e ==>
                      md.entries[k].level > 1)
                ==> Map().items[key].price[e] == if key in old(Map()).items then old(Map()).items[key].price[e] else 0
    {
      ghost var before := Map();
      ret := Parse(OfSz(md), now);
      SzParsedMeans(before, Map(), md, now);
    }

    /** parse(const RawSzHkMDData&). */
    method ParseHk(md: RawSzHkMDData, now: int) returns (ret: int)
      requires Valid() && myMDmap.mem.table.Length == TABLE_SIZE
      requires forall i :: 0 <= i < |md.entries| ==> |md.entries[i].entryType| == 2
      modifies myMDmap.mem`size, myMDmap.mem.index, myMDmap.mem.table
      ensures Valid() && Map() == ParseInto(old(Map()), OfHk(md), now)
      ensures ret == if StockCode(md.prefix.securityId) < 1000000 then 0 else 1
      ensures StockCode(md.prefix.securityId) >= 1000000 ==> Map() == old(Map())
      ensures var key := 9000000 + StockCode(md.prefix.securityId);
              StockCode(md.prefix.securityId) < 1000000 ==>
                && key in Map().items && Map().items == old(Map()).items[key := Map().items[key]]
                && Map().order == (if key in old(Map()).items then old(Map()).order else old(Map()).order + [key])
                && Map().items[key].marketCode == 9 && Map().items[key].stockCode == StockCode(md.prefix.securityId)
                && Map().items[key].origTime == md.prefix.origTime && Map().items[key].updateTime == now
      ensures var key := 9000000 + StockCode(md.prefix.securityId);
              forall e, j :: StockCode(md.prefix.securityId) < 1000000 && 0 <= e < 10 && 0 <= j < |md.entries|
                && md.entries[j].entryType[0] == 48 + e && md.entries[j].level <= 1
                && (forall k :: j < k < |md.entries| && md.entries[k].entryType[0] == 48 + e ==>
                      md.entries[k].level > 1)
                ==> Map().items[key].price[e] == ToInt32(md.entries[j].px)
      ensures var key := 9000000 + StockCode(md.prefix.securityId);
              forall e :: StockCode(md.prefix.securityId) < 1000000 && 0 <= e < 10
                && (forall k :: 0 <= k < |md.entries| && md.entries[k].entryType[0] == 48 + e ==>
                      md.entries[k].level > 1)
                ==> Map().items[key].price[e] == if key in old(Map()).items then old(Map()).items[key].price[e] else 0
    {
      ghost var before := Map();
      ret := Parse(OfHk(md), now);
      HkParsedMeans(before, Map(), md, now);
    }

    /** loadPx: the price is the return value; the reference parameter is never written. */
    method LoadPx(marketCode: nat, stockCode: nat, entryType: nat, value: int) returns (ret: int, valueOut: int)
      requires Valid() && MakeKey(marketCode, stockCode) < myMDmap.mem.table.Length
      requires entryType < NUM_FIELD_SIZE
      ensures valueOut == value
      ensures var key := MakeKey(marketCode, stockCode);
              ret == if key < 0 then -2 else if key in Map().items then Map().items[key].price[entryType] else -1
    {
      valueOut := value;
      var index := MakeKey(marketCode, stockCode);
      if index < 0 {
        return -2, valueOut;
      }
      var slot := GetElement(marketCode, stockCode);
      if slot != -1 {
        return myMDmap.mem.table[slot].item.price[entryType], valueOut;
      }
      return -1, valueOut;
    }

    /** The record lines dump writes: one a record, in insertion order.  Each shows its codes and times and six of
        the ten prices, and the key those codes make, which is the record's own where they fit. */
    method Dump() returns (lines: seq<DumpLine>)
      requires Valid()
      ensures |lines| == |Map().order|
      ensures forall j :: 0 <= j < |lines| ==>
                && Map().order[j] in Map().items
                && var r := Map().items[Map().order[j]];
                   && lines[j].key == MakeKey(r.marketCode, r.stockCode)
                   && lines[j].market == r.marketCode && lines[j].stock == r.stockCode
                   && lines[j].origTime == r.origTime && lines[j].updateTime == r.updateTime
                   && lines[j].prices == [r.price[0], r.price[1], r.price[2], r.price[4], r.price[7], r.price[8]]
      ensures CodesOk(Map()) ==> forall j :: 0 <= j < |lines| ==> lines[j].key == Map().order[j]
    {
      var records := myMDmap.ForEach();
      lines := [];
      var i := 0;
      while i < |records|
        invariant |lines| == i <= |records|
        invariant forall j :: 0 <= j < i ==> lines[j] == LineOf(records[j])
      {
        lines := lines + [LineOf(records[i])];
        i := i + 1;
      }
      LinesShow(Map(), lines);
    }

    method Clear()
      requires Valid()
      modifies myMDmap.mem`size, myMDmap.mem.index, myMDmap.mem.table
      ensures Valid() && Map() == EMPTY_MAP
    {
      myMDmap.Clear();
    }
  }
}

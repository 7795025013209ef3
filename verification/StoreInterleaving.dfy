/** The business thread parsing through bare record pointers while the main thread clears or dumps.

  getPtr, set, clear and dump take the store's mutex; the field writes through a pointer do not.  A
  clear zeroes the memory one word at a time, so a field write can land anywhere in the middle. */
module StoreInterleaving {
  import opened ShmImage
  import opened ParserSpec

  /** One of the save calls of a parse. */
  datatype Save = Codes | Time(origTime: int, now: int) | Price(entry: nat, value: int)

  /** One unlocked store through a record pointer. */
  datatype FieldWrite =
    | SetMarketCode(v: int) | SetStockCode(v: int) | SetOrigTime(v: int) | SetUpdateTime(v: int)
    | SetPrice(entry: nat, v: int)

  datatype Business =
    | BIdle
    | BFind(market: nat, code: nat, todo: seq<Save>)                              // getElement is next
    | BStore(market: nat, code: nat, todo: seq<Save>)                             // it was null: set is next
    | BWrite(market: nat, code: nat, todo: seq<Save>, pending: seq<FieldWrite>)   // it was a pointer

  /** The main thread; it holds the mutex in every state but MIdle. */
  datatype Main =
    | MIdle
    | MClearIndex(i: nat)
    | MClearTable(i: nat, field: nat)
    | MDump(i: nat, keys: seq<int>)
    | MDumpRecord(i: nat, keys: seq<int>, market: int)   // marketCode read, stockCode is next

  /** One save call, with its stock. */
  datatype Call = Call(market: nat, code: nat, save: Save)

  /** `dumped`, `parsed`, `nows`, `base` and `since` are histories that no step reads: `base` is the map at the
      start or, after a clear, the empty one, and `since` the save calls that reach it since then. */
  datatype State = State(
    shm: Shm, biz: Business, main: Main, dumped: seq<int>, parsed: seq<Snapshot>, nows: seq<int>,
    base: Ordered, since: seq<Call>)

  datatype Action =
    | BeginParse(snap: Snapshot, now: int)
    | FindRecord
    | StoreRecord
    | WriteField
    | ClearStart
    | ClearWord
    | DumpStart
    | DumpMarket
    | DumpStock
    | DumpEnd

  function SetField(item: MyMDItem, w: FieldWrite): MyMDItem {
    match w
    case SetMarketCode(v) => item.(marketCode := v)
    case SetStockCode(v) => item.(stockCode := v)
    case SetOrigTime(v) => item.(origTime := v)
    case SetUpdateTime(v) => item.(updateTime := v)
    case SetPrice(e, v) => if e < NUM_FIELD_SIZE then WithPrice(item, e, v) else item
  }

  function SetFields(item: MyMDItem, ws: seq<FieldWrite>): MyMDItem
    decreases |ws|
  {
    if ws == [] then item else SetFields(SetField(item, ws[0]), ws[1..])
  }

  /** The field writes a save makes through its pointer. */
  function Fields(market: nat, code: nat, save: Save): seq<FieldWrite> {
    match save
    case Codes => [SetMarketCode(market), SetStockCode(code)]
    case Time(t, now) => [SetOrigTime(t), SetUpdateTime(now)]
    case Price(e, v) => [SetPrice(e, v)]
  }

  function QuoteSaves(quotes: seq<Quote>): seq<Save>
    decreases |quotes|
  {
    if quotes == [] then []
    else
      var q := quotes[|quotes| - 1];
      QuoteSaves(quotes[..|quotes| - 1]) + if Usable(q) then [Price(DigitValue(q.entryType), ToInt32(q.px))] else []
  }

  /** The save calls of one parse, in order. */
  function Saves(snap: Snapshot, now: int): seq<Save> {
    [Codes, Time(snap.origTime, now)] + QuoteSaves(snap.quotes)
  }

  function BizKey(b: Business): nat
    requires !b.BIdle?
  {
    b.market * STOCK_LIMIT + b.code
  }

  function AfterSave(b: Business): Business
    requires !b.BIdle? && b.todo != []
  {
    if |b.todo| == 1 then BIdle else BFind(b.market, b.code, b.todo[1..])
  }

  /** Where the business thread goes after one field write. */
  function AfterWrite(b: Business): Business
    requires b.BWrite? && b.todo != [] && b.pending != []
  {
    if |b.pending| == 1 then AfterSave(b) else b.(pending := b.pending[1..])
  }

  predicate Enabled(s: State, a: Action) {
    && |s.shm.index| == |s.shm.table|
    && match a
       case BeginParse(snap, now) =>
         s.biz.BIdle? && snap.market >= 0 && (snap.market + 1) * STOCK_LIMIT <= |s.shm.table|
       case FindRecord => s.main.MIdle? && s.biz.BFind? && s.biz.todo != [] && BizKey(s.biz) < |s.shm.table|
       case StoreRecord =>
         && s.main.MIdle? && s.biz.BStore? && s.biz.todo != [] && BizKey(s.biz) < |s.shm.table|
         && (s.shm.table[BizKey(s.biz)].valid || s.shm.size < |s.shm.index|)
       case WriteField => s.biz.BWrite? && s.biz.todo != [] && s.biz.pending != [] && BizKey(s.biz) < |s.shm.table|
       case ClearStart => s.main.MIdle?
       case ClearWord =>
         || (s.main.MClearIndex? && s.main.i <= |s.shm.index|)
         || (s.main.MClearTable? && s.main.i <= |s.shm.table|)
       case DumpStart => s.main.MIdle?
       case DumpMarket =>
         s.main.MDump? && s.main.i < s.shm.size <= |s.shm.index| && s.shm.index[s.main.i] < |s.shm.table|
       case DumpStock =>
         s.main.MDumpRecord? && s.main.i < s.shm.size <= |s.shm.index| && s.shm.index[s.main.i] < |s.shm.table|
       case DumpEnd => s.main.MDump? && s.main.i >= s.shm.size
  }

  /** The six stores memset makes over one record. */
  function ClearField(r: ShmRecord, field: nat): ShmRecord {
    if field == 0 then r.(item := r.item.(marketCode := 0))
    else if field == 1 then r.(item := r.item.(stockCode := 0))
    else if field == 2 then r.(item := r.item.(price := ZERO_ITEM.price))
    else if field == 3 then r.(item := r.item.(origTime := 0))
    else if field == 4 then r.(item := r.item.(updateTime := 0))
    else r.(valid := false)
  }

  function DoBeginParse(s: State, snap: Snapshot, now: int): State
    requires snap.market >= 0
  {
    var t := s.(parsed := s.parsed + [snap], nows := s.nows + [now]);
    if Tradable(snap) then t.(biz := BFind(snap.market, StockCode(snap.securityId), Saves(snap, now))) else t
  }

  function DoFindRecord(s: State): State
    requires s.biz.BFind? && s.biz.todo != [] && BizKey(s.biz) < |s.shm.table|
  {
    var b := s.biz;
    s.(biz := if s.shm.table[BizKey(b)].valid
              then BWrite(b.market, b.code, b.todo, Fields(b.market, b.code, b.todo[0]))
              else BStore(b.market, b.code, b.todo),
       since := s.since + [Call(b.market, b.code, b.todo[0])])
  }

  function NewItem(b: Business): MyMDItem
    requires !b.BIdle? && b.todo != []
  {
    SetFields(MakeElement(b.market, b.code), Fields(b.market, b.code, b.todo[0]))
  }

  function DoStoreRecord(s: State): State
    requires s.biz.BStore? && s.biz.todo != [] && BizKey(s.biz) < |s.shm.table|
    requires s.shm.table[BizKey(s.biz)].valid || s.shm.size < |s.shm.index|
  {
    s.(shm := SetImage(s.shm, BizKey(s.biz), NewItem(s.biz)), biz := AfterSave(s.biz))
  }

  function DoWriteField(s: State): State
    requires s.biz.BWrite? && s.biz.todo != [] && s.biz.pending != [] && BizKey(s.biz) < |s.shm.table|
  {
    var b, key := s.biz, BizKey(s.biz);
    s.(shm := WriteImage(s.shm, key, SetField(s.shm.table[key].item, b.pending[0])),
       biz := AfterWrite(b))
  }

  function DoClearWord(s: State): State
    requires (s.main.MClearIndex? && s.main.i <= |s.shm.index|) || (s.main.MClearTable? && s.main.i <= |s.shm.table|)
  {
    var i := s.main.i;
    if s.main.MClearIndex? then
      if i < |s.shm.index| then s.(shm := s.shm.(index := s.shm.index[i := 0]), main := MClearIndex(i + 1))
      else s.(main := MClearTable(0, 0))
    else
      if i < |s.shm.table| then
        s.(shm := s.shm.(table := s.shm.table[i := ClearField(s.shm.table[i], s.main.field)]),
           main := if s.main.field < 5 then MClearTable(i, s.main.field + 1) else MClearTable(i + 1, 0))
      else s.(main := MIdle, base := EMPTY_MAP, since := Surviving(s.biz))
  }

  /** Of a save begun before a clear ends, only one that is about to store a whole record still arrives. */
  function Surviving(b: Business): seq<Call> {
    if b.BStore? && b.todo != [] then [Call(b.market, b.code, b.todo[0])] else []
  }

  function Apply(s: State, a: Action): State
    requires Enabled(s, a)
  {
    match a
    case BeginParse(snap, now) => DoBeginParse(s, snap, now)
    case FindRecord => DoFindRecord(s)
    case StoreRecord => DoStoreRecord(s)
    case WriteField => DoWriteField(s)
    case ClearStart => s.(shm := s.shm.(size := 0), main := MClearIndex(0))
    case ClearWord => DoClearWord(s)
    case DumpStart => s.(main := MDump(0, []))
    case DumpMarket =>
      var market := s.shm.table[s.shm.index[s.main.i]].item.marketCode;
      s.(main := MDumpRecord(s.main.i, s.main.keys, market))
    case DumpStock =>
      var stock := s.shm.table[s.shm.index[s.main.i]].item.stockCode;
      s.(main := MDump(s.main.i + 1, s.main.keys + [MakeKey(s.main.market, stock)]))
    case DumpEnd => s.(main := MIdle, dumped := s.main.keys)
  }

  // ---------------------------------------------------------------- invariant

  /** Every valid record carries the codes of its own slot. */
  ghost predicate TableCodesOk(table: seq<ShmRecord>) {
    forall k :: 0 <= k < |table| && table[k].valid ==> RightCodes(k, table[k].item)
  }

  predicate RightWrite(market: nat, code: nat, w: FieldWrite) {
    (w.SetMarketCode? ==> w.v == market) && (w.SetStockCode? ==> w.v == code)
  }

  ghost predicate BizOk(b: Business, n: nat) {
    !b.BIdle? ==>
      && b.code < STOCK_LIMIT && BizKey(b) < n && b.todo != []
      && (b.BWrite? ==>
            b.pending != [] && forall j :: 0 <= j < |b.pending| ==> RightWrite(b.market, b.code, b.pending[j]))
  }

  /** Only the business thread stores new keys, so a record it found missing is missing still. */
  ghost predicate StoreOk(b: Business, table: seq<ShmRecord>) {
    b.BStore? && BizKey(b) < |table| ==> !table[BizKey(b)].valid
  }

  predicate Clearing(m: Main) { m.MClearIndex? || m.MClearTable? }

  /** What a clear in progress has already zeroed. */
  ghost predicate ClearOk(shm: Shm, m: Main) {
    && Clearing(m) && Shaped(shm) && shm.size == 0
    && m.i <= |shm.index|
    && (forall j :: 0 <= j < |shm.index| ==> shm.index[j] < |shm.table|)
    && (forall j :: 0 <= j < (if m.MClearIndex? then m.i else |shm.index|) ==> shm.index[j] == 0)
    && (m.MClearTable? ==> forall j :: 0 <= j < m.i ==> !shm.table[j].valid)
  }

  ghost predicate DumpOk(shm: Shm, m: Main) {
    && (m.MDump? || m.MDumpRecord? ==> m.i <= shm.size <= |shm.index| && |m.keys| == m.i)
    && (m.MDumpRecord? ==> m.i < shm.size)
  }

  /** The index is consistent, or a clear is on its way. */
  ghost predicate Inv(s: State) {
    && BizOk(s.biz, |s.shm.table|) && StoreOk(s.biz, s.shm.table)
    && (if Clearing(s.main) then ClearOk(s.shm, s.main) else Rep(s.shm) && DumpOk(s.shm, s.main))
  }

  /** The keys already dumped are the first index entries, and a market code read stays current. */
  ghost predicate DumpKeysOk(shm: Shm, m: Main)
    requires DumpOk(shm, m)
  {
    && (m.MDump? || m.MDumpRecord? ==> forall j :: 0 <= j < m.i ==> m.keys[j] == shm.index[j])
    && (m.MDumpRecord? ==> m.market == shm.index[m.i] / STOCK_LIMIT)
  }

  /** Records carry the codes of their keys.  Memory left by a process that was killed may lack this. */
  ghost predicate CodesInv(s: State)
    requires Inv(s)
  {
    !Clearing(s.main) ==> TableCodesOk(s.shm.table) && DumpKeysOk(s.shm, s.main)
  }

  lemma {:induction false} FieldsKeepCodes(key: nat, item: MyMDItem, market: nat, code: nat, ws: seq<FieldWrite>)
    requires code < STOCK_LIMIT && key == market * STOCK_LIMIT + code && RightCodes(key, item)
    requires forall j :: 0 <= j < |ws| ==> RightWrite(market, code, ws[j])
    ensures RightCodes(key, SetFields(item, ws))
    decreases |ws|
  {
    if ws != [] {
      assert RightWrite(market, code, ws[0]);
      FieldsKeepCodes(key, SetField(item, ws[0]), market, code, ws[1..]);
    }
  }

  lemma CodesAfterUpdate(table: seq<ShmRecord>, key: nat, r: ShmRecord)
    requires key < |table| && TableCodesOk(table) && (r.valid ==> RightCodes(key, r.item))
    ensures TableCodesOk(table[key := r])
  {
  }

  lemma StoreRecordInv(s: State)
    requires Inv(s) && Enabled(s, StoreRecord)
    ensures Inv(Apply(s, StoreRecord))
  {
    SetRefines(s.shm, BizKey(s.biz), NewItem(s.biz));
    assert Rep(Apply(s, StoreRecord).shm);
  }

  lemma WriteFieldInv(s: State)
    requires Inv(s) && Enabled(s, WriteField)
    ensures Inv(Apply(s, WriteField))
  {
    var t := Apply(s, WriteField);
    assert BizOk(t.biz, |t.shm.table|);
    if Clearing(s.main) {
      assert ClearOk(t.shm, t.main);
    } else {
      WriteKeepsRep(s.shm, BizKey(s.biz), SetField(s.shm.table[BizKey(s.biz)].item, s.biz.pending[0]));
    }
  }

  lemma ClearWordInv(s: State)
    requires Inv(s) && Enabled(s, ClearWord)
    ensures Inv(Apply(s, ClearWord))
  {
  }

  /** The parse, the clear and the dump keep the index consistent, step by step. */
  lemma StepInv(s: State, a: Action)
    requires Inv(s) && Enabled(s, a)
    ensures Inv(Apply(s, a))
  {
    match a
    case StoreRecord => StoreRecordInv(s);
    case WriteField => WriteFieldInv(s);
    case ClearWord => ClearWordInv(s);
    case _ =>
  }

  lemma StoreRecordCodes(s: State)
    requires Inv(s) && Enabled(s, StoreRecord) && TableCodesOk(s.shm.table)
    ensures TableCodesOk(Apply(s, StoreRecord).shm.table)
  {
    var b, key := s.biz, BizKey(s.biz);
    FieldsKeepCodes(key, MakeElement(b.market, b.code), b.market, b.code, Fields(b.market, b.code, b.todo[0]));
    CodesAfterUpdate(s.shm.table, key, ShmRecord(NewItem(b), true));
  }

  lemma WriteFieldCodes(s: State)
    requires Inv(s) && Enabled(s, WriteField) && TableCodesOk(s.shm.table)
    ensures TableCodesOk(Apply(s, WriteField).shm.table)
  {
    var b, key := s.biz, BizKey(s.biz);
    assert RightWrite(b.market, b.code, b.pending[0]);
    CodesAfterUpdate(s.shm.table, key, s.shm.table[key].(item := SetField(s.shm.table[key].item, b.pending[0])));
  }

  lemma DumpCodes(s: State, a: Action)
    requires Inv(s) && CodesInv(s) && Enabled(s, a) && (a.DumpMarket? || a.DumpStock?)
    ensures DumpOk(Apply(s, a).shm, Apply(s, a).main) && DumpKeysOk(Apply(s, a).shm, Apply(s, a).main)
  {
    var key := s.shm.index[s.main.i];
    assert RightCodes(key, s.shm.table[key].item);
  }

  /** And they keep the codes of every record those of its key. */
  lemma StepCodes(s: State, a: Action)
    requires Inv(s) && CodesInv(s) && Enabled(s, a)
    ensures Inv(Apply(s, a)) && CodesInv(Apply(s, a))
  {
    StepInv(s, a);
    match a
    case StoreRecord => StoreRecordCodes(s);
    case WriteField => if !Clearing(s.main) { WriteFieldCodes(s); }
    case DumpMarket => DumpCodes(s, a);
    case DumpStock => DumpCodes(s, a);
    case _ =>
  }

  // ---------------------------------------------------------------- what the steps do to the plain map

  function ApplySave(o: Ordered, market: nat, code: nat, save: Save): Ordered {
    var key := market * STOCK_LIMIT + code;
    Put(o, key, SetFields(GetOrMake(o, key, market, code), Fields(market, code, save)))
  }

  function ApplySaves(o: Ordered, market: nat, code: nat, saves: seq<Save>): Ordered
    decreases |saves|
  {
    if saves == [] then o else ApplySaves(ApplySave(o, market, code, saves[0]), market, code, saves[1..])
  }

  /** The map once the save in progress has run to its end undisturbed. */
  function FinishSave(o: Ordered, b: Business): Ordered
    requires !b.BIdle? ==> b.todo != []
  {
    match b
    case BIdle => o
    case BFind(_, _, _) => o
    case BStore(market, code, todo) => ApplySave(o, market, code, todo[0])
    case BWrite(market, code, todo, pending) =>
      var key := market * STOCK_LIMIT + code;
      Overwrite(o, key, SetFields(GetOrMake(o, key, market, code), pending))
  }

  /** The same for the whole parse. */
  function Finish(o: Ordered, b: Business): Ordered
    requires !b.BIdle? ==> b.todo != []
  {
    match b
    case BIdle => o
    case BFind(market, code, todo) => ApplySaves(o, market, code, todo)
    case BStore(market, code, todo) => ApplySaves(FinishSave(o, b), market, code, todo[1..])
    case BWrite(market, code, todo, _) => ApplySaves(FinishSave(o, b), market, code, todo[1..])
  }

  /** Save calls one after the other. */
  function SaveAll(o: Ordered, calls: seq<Call>): Ordered {
    if calls == [] then o
    else
      var c := calls[|calls| - 1];
      ApplySave(SaveAll(o, calls[..|calls| - 1]), c.market, c.code, c.save)
  }

  lemma {:induction false} ApplySavesAppend(o: Ordered, market: nat, code: nat, a: seq<Save>, b: seq<Save>)
    ensures ApplySaves(o, market, code, a + b) == ApplySaves(ApplySaves(o, market, code, a), market, code, b)
    decreases |a|
  {
    if a == [] {
      assert a + b == b;
    } else {
      assert (a + b)[1..] == a[1..] + b;
      ApplySavesAppend(ApplySave(o, market, code, a[0]), market, code, a[1..], b);
    }
  }

  lemma {:induction false} QuoteSavesEffect(o: Ordered, market: nat, code: nat, quotes: seq<Quote>)
    ensures ApplySaves(o, market, code, QuoteSaves(quotes))
         == SaveQuotes(o, market * STOCK_LIMIT + code, market, code, quotes)
    decreases |quotes|
  {
    if quotes != [] {
      var init, q := quotes[..|quotes| - 1], quotes[|quotes| - 1];
      QuoteSavesEffect(o, market, code, init);
      if Usable(q) {
        var save := Price(DigitValue(q.entryType), ToInt32(q.px));
        ApplySavesAppend(o, market, code, QuoteSaves(init), [save]);
        var before := ApplySaves(o, market, code, QuoteSaves(init));
        assert ApplySaves(before, market, code, [save]) == ApplySave(before, market, code, save);
        assert SetFields(GetOrMake(before, market * STOCK_LIMIT + code, market, code), Fields(market, code, save))
            == WithPrice(GetOrMake(before, market * STOCK_LIMIT + code, market, code), save.entry, save.value);
      } else {
        assert QuoteSaves(quotes) == QuoteSaves(init);
      }
    }
  }

  lemma SetFieldsOfTwo(item: MyMDItem, a: FieldWrite, b: FieldWrite)
    ensures SetFields(item, [a, b]) == SetField(SetField(item, a), b)
  {
    assert [a, b][1..] == [b] && [b][1..] == [];
    assert SetFields(SetField(item, a), [b]) == SetField(SetField(item, a), b);
  }

  lemma ApplySavesOfTwo(o: Ordered, market: nat, code: nat, a: Save, b: Save)
    ensures ApplySaves(o, market, code, [a, b]) == ApplySave(ApplySave(o, market, code, a), market, code, b)
  {
    assert [a, b][1..] == [b] && [b][1..] == [];
    var o1 := ApplySave(o, market, code, a);
    assert ApplySaves(o1, market, code, [b]) == ApplySave(o1, market, code, b);
  }

  /** The save calls of a parse, run without interruption, are the parse. */
  lemma SavesAreParse(o: Ordered, snap: Snapshot, now: int)
    requires snap.market >= 0 && Tradable(snap)
    ensures ApplySaves(o, snap.market, StockCode(snap.securityId), Saves(snap, now)) == ParseInto(o, snap, now)
  {
    var market, code, key := snap.market, StockCode(snap.securityId), Key(snap);
    var codes, time := Codes, Time(snap.origTime, now);
    var stamped := SaveTime(SaveCodes(o, key, market, code), key, market, code, snap.origTime, now);
    var quotes := QuoteSaves(snap.quotes);
    assert ApplySaves(o, market, code, [codes, time]) == stamped by { StampSaves(o, market, code, snap.origTime, now); }
    assert ApplySaves(stamped, market, code, quotes) == SaveQuotes(stamped, key, market, code, snap.quotes) by {
      QuoteSavesEffect(stamped, market, code, snap.quotes);
    }
    SavesInTwo(o, stamped, market, code, [codes, time], quotes);
  }

  lemma SavesInTwo(o: Ordered, mid: Ordered, market: nat, code: nat, a: seq<Save>, b: seq<Save>)
    requires mid == ApplySaves(o, market, code, a)
    ensures ApplySaves(o, market, code, a + b) == ApplySaves(mid, market, code, b)
  {
    ApplySavesAppend(o, market, code, a, b);
  }

  lemma StampSaves(o: Ordered, market: nat, code: nat, origTime: int, now: int)
    ensures var key := market * STOCK_LIMIT + code;
            ApplySaves(o, market, code, [Codes, Time(origTime, now)])
            == SaveTime(SaveCodes(o, key, market, code), key, market, code, origTime, now)
  {
    var key := market * STOCK_LIMIT + code;
    SetFieldsOfTwo(GetOrMake(o, key, market, code), SetMarketCode(market), SetStockCode(code));
    var o1 := SaveCodes(o, key, market, code);
    SetFieldsOfTwo(GetOrMake(o1, key, market, code), SetOrigTime(origTime), SetUpdateTime(now));
    ApplySavesOfTwo(o, market, code, Codes, Time(origTime, now));
  }

  lemma AfterSaveFinish(o: Ordered, b: Business)
    requires !b.BIdle? && b.todo != []
    ensures Finish(o, AfterSave(b)) == ApplySaves(o, b.market, b.code, b.todo[1..])
  {
  }

  /** Looking up the record decides how the save is done, not what it does. */
  lemma FindFinish(o: Ordered, b: Business)
    requires b.BFind? && b.todo != []
    ensures var writes := Fields(b.market, b.code, b.todo[0]);
            var after := if BizKey(b) in o.items then BWrite(b.market, b.code, b.todo, writes)
                         else BStore(b.market, b.code, b.todo);
            && FinishSave(o, after) == ApplySave(o, b.market, b.code, b.todo[0])
            && Finish(o, after) == Finish(o, b)
  {
  }

  lemma StoreFinish(o: Ordered, b: Business)
    requires b.BStore? && b.todo != [] && BizKey(b) !in o.items
    ensures var after := Put(o, BizKey(b), NewItem(b));
            FinishSave(after, AfterSave(b)) == FinishSave(o, b) && Finish(after, AfterSave(b)) == Finish(o, b)
  {
    AfterSaveFinish(Put(o, BizKey(b), NewItem(b)), b);
  }

  /** A field write through a pointer moves one pending write from the thread into the map; through a
      stale pointer it does nothing. */
  lemma WriteFinish(o: Ordered, b: Business, item: MyMDItem)
    requires b.BWrite? && b.todo != [] && b.pending != []
    requires BizKey(b) in o.items ==> item == o.items[BizKey(b)]
    ensures var after := Overwrite(o, BizKey(b), SetField(item, b.pending[0]));
            FinishSave(after, AfterWrite(b)) == FinishSave(o, b) && Finish(after, AfterWrite(b)) == Finish(o, b)
  {
    var key := BizKey(b);
    var o1 := Overwrite(o, key, SetField(item, b.pending[0]));
    var done := FinishSave(o, b);
    if |b.pending| == 1 {
      assert b.pending[1..] == [];
      assert key in o.items ==> SetFields(item, b.pending) == SetField(item, b.pending[0]);
      assert o1 == done;
      AfterSaveFinish(o1, b);
    } else if key in o.items {
      var item1 := SetFields(SetField(item, b.pending[0]), b.pending[1..]);
      assert o.items[key := SetField(item, b.pending[0])][key := item1] == o.items[key := item1];
      assert FinishSave(o1, AfterWrite(b)) == done;
    }
  }

  /** Outside a clear every step leaves the map that the parse in progress is heading for unchanged:
      interrupting a parse anywhere, or dumping in the middle of it, changes nothing. */
  lemma FinishConstant(s: State, a: Action)
    requires Inv(s) && Enabled(s, a) && !Clearing(s.main) && !a.ClearStart? && !a.BeginParse?
    ensures var t := Apply(s, a);
            && Inv(t) && !Clearing(t.main)
            && Finish(Abs(t.shm), t.biz) == Finish(Abs(s.shm), s.biz)
            && FinishSave(Abs(t.shm), t.biz)
               == if a.FindRecord?
                  then ApplySave(FinishSave(Abs(s.shm), s.biz), s.biz.market, s.biz.code, s.biz.todo[0])
                  else FinishSave(Abs(s.shm), s.biz)
  {
    StepInv(s, a);
    var o, t := Abs(s.shm), Apply(s, a);
    match a
    case FindRecord => FindFinish(o, s.biz);
    case StoreRecord =>
      SetRefines(s.shm, BizKey(s.biz), NewItem(s.biz));
      StoreFinish(o, s.biz);
    case WriteField =>
      var item := s.shm.table[BizKey(s.biz)].item;
      WriteRefines(s.shm, BizKey(s.biz), SetField(item, s.biz.pending[0]));
      WriteFinish(o, s.biz, item);
    case _ =>
  }

  /** Clearing ends with an empty map, whatever was written meanwhile. */
  lemma ClearEmpties(s: State)
    requires Inv(s) && Enabled(s, ClearWord) && Apply(s, ClearWord).main.MIdle?
    ensures Rep(Apply(s, ClearWord).shm) && Abs(Apply(s, ClearWord).shm) == EMPTY_MAP
  {
    ClearWordInv(s);
  }

  /** A set never finds the index full. */
  lemma StoreNeverBlocked(s: State)
    requires Inv(s) && s.biz.BStore? && s.main.MIdle?
    ensures Enabled(s, StoreRecord)
  {
    RoomForNewKey(s.shm, BizKey(s.biz));
  }

  /** A dump writes the true key of every record it visits: exactly the keys present, each once, in
      first-insertion order, although the records may be written meanwhile. */
  lemma DumpExact(s: State)
    requires Inv(s) && CodesInv(s) && Enabled(s, DumpEnd)
    ensures var keys := Apply(s, DumpEnd).dumped;
            && |keys| == s.shm.size
            && (forall j :: 0 <= j < |keys| ==> keys[j] == Abs(s.shm).order[j])
            && (forall k: nat :: k in Abs(s.shm).items <==> k in keys)
            && (forall i, j :: 0 <= i < j < |keys| ==> keys[i] != keys[j])
  {
    var keys := Apply(s, DumpEnd).dumped;
    forall k: nat ensures k in Abs(s.shm).items <==> k in keys {
      if k in Abs(s.shm).items {
        var j :| 0 <= j < s.shm.size && s.shm.index[..s.shm.size][j] == k;
        assert keys[j] == k;
      }
    }
  }

  // ---------------------------------------------------------------- runs

  predicate Feasible(s: State, run: seq<Action>)
    decreases |run|
  {
    run == [] || (Enabled(s, run[0]) && Feasible(Apply(s, run[0]), run[1..]))
  }

  function Run(s: State, run: seq<Action>): State
    requires Feasible(s, run)
    decreases |run|
  {
    if run == [] then s else Run(Apply(s, run[0]), run[1..])
  }

  /** A process that has just attached to what an earlier one left. */
  function Attached(left: Shm): State
    requires Rep(left)
  {
    var shm := AttachImage(left);
    State(shm, BIdle, MIdle, [], [], [], Abs(shm), [])
  }

  lemma AttachedInv(left: Shm)
    requires Rep(left)
    ensures Inv(Attached(left)) && (TableCodesOk(left.table) ==> CodesInv(Attached(left)))
  {
    ZeroedRep(|left.table|);
  }

  lemma {:induction false} RunInv(s: State, run: seq<Action>)
    requires Inv(s) && Feasible(s, run)
    ensures Inv(Run(s, run)) && (CodesInv(s) ==> CodesInv(Run(s, run)))
    decreases |run|
  {
    if run != [] {
      StepInv(s, run[0]);
      if CodesInv(s) { StepCodes(s, run[0]); }
      RunInv(Apply(s, run[0]), run[1..]);
    }
  }

  /** From whatever consistent memory a process starts, in every state it reaches that no clear holds the index
      is consistent; and if the records it found carried the codes of their slots, every valid one does. */
  lemma ReachableConsistent(left: Shm, run: seq<Action>)
    requires Rep(left) && Feasible(Attached(left), run) && !Clearing(Run(Attached(left), run).main)
    ensures var s := Run(Attached(left), run); Rep(s.shm) && (TableCodesOk(left.table) ==> CodesOk(Abs(s.shm)))
  {
    AttachedInv(left);
    RunInv(Attached(left), run);
  }

  // ---------------------------------------------------------------- runs without a clear

  ghost predicate NoClear(run: seq<Action>) {
    forall i :: 0 <= i < |run| ==> !run[i].ClearStart?
  }

  /** The map that the messages begun so far make of the one at the start. */
  ghost predicate OnTrack(s: State) {
    && Inv(s) && !Clearing(s.main)
    && |s.parsed| == |s.nows| && (forall i :: 0 <= i < |s.parsed| ==> s.parsed[i].market >= 0)
    && Finish(Abs(s.shm), s.biz) == ParseAll(s.base, s.parsed, s.nows)
  }

  lemma BeginOnTrack(s: State, snap: Snapshot, now: int)
    requires OnTrack(s) && Enabled(s, BeginParse(snap, now))
    ensures OnTrack(Apply(s, BeginParse(snap, now)))
  {
    ParseAllSnoc(s.base, s.parsed, s.nows, snap, now);
    if Tradable(snap) {
      SavesAreParse(Abs(s.shm), snap, now);
    }
  }

  lemma StepOnTrack(s: State, a: Action)
    requires OnTrack(s) && Enabled(s, a) && !a.ClearStart?
    ensures OnTrack(Apply(s, a)) && Apply(s, a).base == s.base
  {
    if a.BeginParse? {
      BeginOnTrack(s, a.snap, a.now);
    } else {
      FinishConstant(s, a);
    }
  }

  lemma {:induction false} RunOnTrack(s: State, run: seq<Action>)
    requires OnTrack(s) && Feasible(s, run) && NoClear(run)
    ensures OnTrack(Run(s, run)) && Run(s, run).base == s.base
    decreases |run|
  {
    if run != [] {
      StepOnTrack(s, run[0]);
      RunOnTrack(Apply(s, run[0]), run[1..]);
    }
  }

  /** Without a clear the store between parses holds exactly what parsing the messages one after the other
      makes of the memory attached to, however the field writes and dumps were interleaved. */
  lemma InterleavedParseIsSequential(left: Shm, run: seq<Action>)
    requires Rep(left) && Feasible(Attached(left), run) && NoClear(run) && Run(Attached(left), run).biz.BIdle?
    ensures var s := Run(Attached(left), run);
            && Rep(s.shm) && |s.parsed| == |s.nows| && (forall i :: 0 <= i < |s.parsed| ==> s.parsed[i].market >= 0)
            && Abs(s.shm) == ParseAll(Abs(AttachImage(left)), s.parsed, s.nows)
  {
    AttachedInv(left);
    RunOnTrack(Attached(left), run);
  }

  // ---------------------------------------------------------------- runs with clears

  /** Some step of the run ends a clear. */
  predicate ClearEnded(s: State, run: seq<Action>)
    requires Feasible(s, run)
    decreases |run|
  {
    run != [] &&
    ((run[0].ClearWord? && Apply(s, run[0]).main.MIdle?) || ClearEnded(Apply(s, run[0]), run[1..]))
  }

  ghost predicate SinceOk(s: State)
    requires Inv(s)
  {
    !Clearing(s.main) ==> FinishSave(Abs(s.shm), s.biz) == SaveAll(s.base, s.since)
  }

  lemma SaveAllSnoc(o: Ordered, calls: seq<Call>, c: Call)
    ensures SaveAll(o, calls + [c]) == ApplySave(SaveAll(o, calls), c.market, c.code, c.save)
  {
    assert (calls + [c])[..|calls|] == calls;
  }

  lemma ClearEndSince(s: State)
    requires Inv(s) && Enabled(s, ClearWord) && Apply(s, ClearWord).main.MIdle?
    ensures Inv(Apply(s, ClearWord)) && SinceOk(Apply(s, ClearWord))
  {
    ClearWordInv(s);
    ClearEmpties(s);
    var t := Apply(s, ClearWord);
    assert t.since == Surviving(s.biz) && t.biz == s.biz && t.base == EMPTY_MAP;
    if s.biz.BStore? {
      SaveAllSnoc(EMPTY_MAP, [], Call(s.biz.market, s.biz.code, s.biz.todo[0]));
      assert [] + t.since == t.since;
    }
  }

  lemma StepSince(s: State, a: Action)
    requires Inv(s) && SinceOk(s) && Enabled(s, a)
    ensures Inv(Apply(s, a)) && SinceOk(Apply(s, a))
  {
    StepInv(s, a);
    if a.ClearWord? {
      if Apply(s, a).main.MIdle? { ClearEndSince(s); }
    } else if !Clearing(s.main) && !a.ClearStart? && !a.BeginParse? {
      FinishConstant(s, a);
      if a.FindRecord? { SaveAllSnoc(s.base, s.since, Call(s.biz.market, s.biz.code, s.biz.todo[0])); }
    }
  }

  lemma {:induction false} RunSince(s: State, run: seq<Action>)
    requires Inv(s) && SinceOk(s) && Feasible(s, run)
    ensures Inv(Run(s, run)) && SinceOk(Run(s, run))
    ensures Run(s, run).base == if ClearEnded(s, run) then EMPTY_MAP else s.base
    decreases |run|
  {
    if run != [] {
      StepSince(s, run[0]);
      RunSince(Apply(s, run[0]), run[1..]);
    }
  }

  /** With clears: between two saves the table is the fold of the save calls since the last clear ended, from
      the empty map, or from the memory attached to if no clear has ended. */
  lemma TableSinceClear(left: Shm, run: seq<Action>)
    requires Rep(left) && Feasible(Attached(left), run)
    ensures var s := Run(Attached(left), run);
            && s.base == (if ClearEnded(Attached(left), run) then EMPTY_MAP else Abs(AttachImage(left)))
            && (!Clearing(s.main) && (s.biz.BIdle? || s.biz.BFind?) ==>
                  Rep(s.shm) && Abs(s.shm) == SaveAll(s.base, s.since))
  {
    AttachedInv(left);
    RunSince(Attached(left), run);
  }
}

/** The shared-memory store as a value: the size word, the dense index and the sparse table, with
    the plain insertion-ordered map it stands for. */
module ShmImage {

  const NUM_FIELD_SIZE := 10

  /** The prices of a record, indexed by entry type. */
  type Prices = p: seq<int> | |p| == NUM_FIELD_SIZE witness [0, 0, 0, 0, 0, 0, 0, 0, 0, 0]

  datatype MyMDItem = MyMDItem(marketCode: int, stockCode: int, price: Prices, origTime: int, updateTime: int)

  const ZERO_ITEM := MyMDItem(0, 0, [0, 0, 0, 0, 0, 0, 0, 0, 0, 0], 0, 0)

  datatype ShmRecord = ShmRecord(item: MyMDItem, valid: bool)

  const ZERO_RECORD := ShmRecord(ZERO_ITEM, false)

  datatype Shm = Shm(size: nat, index: seq<nat>, table: seq<ShmRecord>)

  /** Freshly zeroed memory of `n` slots. */
  function Zeroed(n: nat): Shm {
    Shm(0, seq(n, _ => 0), seq(n, _ => ZERO_RECORD))
  }

  ghost predicate Shaped(s: Shm) {
    |s.index| == |s.table|
  }

  /** The representation invariant: index[..size] lists exactly the valid slots, each once, and the
      unused index entries are 0. */
  ghost predicate Rep(s: Shm) {
    && Shaped(s) && s.size <= |s.index|
    && (forall i :: 0 <= i < s.size ==> s.index[i] < |s.table| && s.table[s.index[i]].valid)
    && (forall i, j :: 0 <= i < j < s.size ==> s.index[i] != s.index[j])
    && (forall k :: 0 <= k < |s.table| && s.table[k].valid ==> k in s.index[..s.size])
    && (forall i :: s.size <= i < |s.index| ==> s.index[i] == 0)
  }

  /** Storing under `key`: a new key is appended to the index, an old one is overwritten. */
  function SetImage(s: Shm, key: nat, item: MyMDItem): Shm
    requires key < |s.table| && (s.table[key].valid || s.size < |s.index|)
  {
    var table := s.table[key := ShmRecord(item, true)];
    if s.table[key].valid then s.(table := table)
    else Shm(s.size + 1, s.index[s.size := key], table)
  }

  /** A write through a pointer obtained from getPtr, valid or not by now. */
  function WriteImage(s: Shm, key: nat, item: MyMDItem): Shm
    requires key < |s.table|
  {
    s.(table := s.table[key := s.table[key].(item := item)])
  }

  /** What the constructor's scan demands of every position. */
  predicate ScanAccepts(s: Shm, i: nat)
    requires |s.index| == |s.table| && i < |s.index|
  {
    if i < s.size then s.index[i] < |s.table| && s.table[s.index[i]].valid
    else s.index[i] == 0 && !s.table[s.index[i]].valid
  }

  predicate ScanOk(s: Shm)
    requires |s.index| == |s.table|
  {
    forall i :: 0 <= i < |s.index| ==> ScanAccepts(s, i)
  }

  /** The line the scan prints about the first position it refuses reads the record the entry there names, in
      whatever range that is. */
  ghost predicate ScanInBounds(s: Shm)
    requires |s.index| == |s.table|
  {
    forall i :: 0 <= i < |s.index| && !ScanAccepts(s, i) && (forall j :: 0 <= j < i ==> ScanAccepts(s, j)) ==>
      s.index[i] < |s.table|
  }

  /** Attaching keeps the memory if the scan accepts it and zeroes it otherwise, as long as the scan stays
      inside the table. */
  function AttachImage(s: Shm): Shm
    requires |s.index| == |s.table|
  {
    if ScanOk(s) then s else Zeroed(|s.table|)
  }

  /** The records forEach passes on, from index position `i`. */
  function Visits(s: Shm, i: nat): seq<MyMDItem>
    requires i <= s.size <= |s.index|
    requires forall j :: 0 <= j < s.size ==> s.index[j] < |s.table|
    decreases s.size - i
  {
    if i == s.size then []
    else (if s.table[s.index[i]].valid then [s.table[s.index[i]].item] else []) + Visits(s, i + 1)
  }

  // ---------------------------------------------------------------- the plain map

  /** A map that remembers the order in which its keys were first inserted. */
  datatype Ordered = Ordered(order: seq<nat>, items: map<nat, MyMDItem>)

  const EMPTY_MAP := Ordered([], map[])

  function Put(o: Ordered, key: nat, item: MyMDItem): Ordered {
    Ordered(if key in o.items then o.order else o.order + [key], o.items[key := item])
  }

  /** A pointer write reaches the map only while the key is present. */
  function Overwrite(o: Ordered, key: nat, item: MyMDItem): Ordered {
    if key in o.items then o.(items := o.items[key := item]) else o
  }

  function Items(table: seq<ShmRecord>): map<nat, MyMDItem> {
    map k: nat | k < |table| && table[k].valid :: table[k].item
  }

  function Abs(s: Shm): Ordered
    requires s.size <= |s.index|
  {
    Ordered(s.index[..s.size], Items(s.table))
  }

  /** Pigeonhole: distinct numbers below `n` are at most `n` many. */
  lemma {:induction false} Pigeonhole(xs: seq<nat>, n: nat)
    requires forall i :: 0 <= i < |xs| ==> xs[i] < n
    requires forall i, j :: 0 <= i < j < |xs| ==> xs[i] != xs[j]
    ensures |xs| <= n
    decreases n
  {
    if xs != [] {
      assert xs[0] < n;
      if i :| 0 <= i < |xs| && xs[i] == n - 1 {
        Pigeonhole(xs[..i] + xs[i + 1..], n - 1);
      } else {
        Pigeonhole(xs, n - 1);
      }
    }
  }

  /** A key with no record leaves room in the index. */
  lemma RoomForNewKey(s: Shm, key: nat)
    requires Rep(s) && key < |s.table| && !s.table[key].valid
    ensures s.size < |s.index|
  {
    var xs := s.index[..s.size] + [key];
    Pigeonhole(xs, |s.table|);
  }

  lemma ZeroedRep(n: nat)
    ensures Rep(Zeroed(n)) && Abs(Zeroed(n)) == EMPTY_MAP
  {
    assert Items(Zeroed(n).table) == map[];
  }

  lemma SameValidity(s: Shm, t: Shm)
    requires Rep(s) && t.size == s.size && t.index == s.index && |t.table| == |s.table|
    requires forall k :: 0 <= k < |s.table| ==> t.table[k].valid == s.table[k].valid
    ensures Rep(t)
  {
    assert t.index[..t.size] == s.index[..s.size];
  }

  lemma SetKnown(s: Shm, key: nat, item: MyMDItem)
    requires Rep(s) && key < |s.table| && s.table[key].valid
    ensures var t := SetImage(s, key, item); Rep(t) && |t.table| == |s.table| && Abs(t) == Put(Abs(s), key, item)
  {
    var t := SetImage(s, key, item);
    assert Rep(t) by { SameValidity(s, t); }
    assert Items(t.table) == Items(s.table)[key := item];
  }

  lemma SetNew(s: Shm, key: nat, item: MyMDItem)
    requires Rep(s) && key < |s.table| && !s.table[key].valid && s.size < |s.index|
    ensures var t := SetImage(s, key, item); Rep(t) && |t.table| == |s.table| && Abs(t) == Put(Abs(s), key, item)
  {
    var t := SetImage(s, key, item);
    assert Items(t.table) == Items(s.table)[key := item];
    assert t.index[..t.size] == s.index[..s.size] + [key];
    forall k | 0 <= k < |t.table| && t.table[k].valid ensures k in t.index[..t.size] {
      assert k == key || s.table[k].valid;
    }
  }

  /** set keeps the representation and is insertion into the ordered map. */
  lemma SetRefines(s: Shm, key: nat, item: MyMDItem)
    requires Rep(s) && key < |s.table|
    ensures s.table[key].valid || s.size < |s.index|
    ensures var t := SetImage(s, key, item); Rep(t) && |t.table| == |s.table| && Abs(t) == Put(Abs(s), key, item)
  {
    if s.table[key].valid {
      SetKnown(s, key, item);
    } else {
      RoomForNewKey(s, key);
      SetNew(s, key, item);
    }
  }

  lemma WriteKeepsRep(s: Shm, key: nat, item: MyMDItem)
    requires Rep(s) && key < |s.table|
    ensures Rep(WriteImage(s, key, item))
  {
    SameValidity(s, WriteImage(s, key, item));
  }

  /** A pointer write keeps the representation, and reaches the map only if the slot is valid. */
  lemma WriteRefines(s: Shm, key: nat, item: MyMDItem)
    requires Rep(s) && key < |s.table|
    ensures var t := WriteImage(s, key, item);
            Rep(t) && |t.table| == |s.table| && Abs(t) == Overwrite(Abs(s), key, item)
  {
    var t := WriteImage(s, key, item);
    WriteKeepsRep(s, key, item);
    ItemsAfterWrite(s.table, key, item);
  }

  lemma ItemsAfterWrite(table: seq<ShmRecord>, key: nat, item: MyMDItem)
    requires key < |table|
    ensures var t := table[key := table[key].(item := item)];
            Items(t) == if key in Items(table) then Items(table)[key := item] else Items(table)
  {
  }

  /** The first `size` index entries name valid slots. */
  ghost predicate Listing(s: Shm) {
    s.size <= |s.index| && forall j :: 0 <= j < s.size ==> s.index[j] < |s.table| && s.table[s.index[j]].valid
  }

  lemma VisitsStep(s: Shm, i: nat)
    requires Listing(s) && i < s.size
    ensures Visits(s, i) == [s.table[s.index[i]].item] + Visits(s, i + 1)
  {
  }

  lemma {:induction false} VisitAt(s: Shm, i: nat, j: nat)
    requires Listing(s) && i <= j <= s.size
    ensures |Visits(s, i)| == s.size - i
    ensures j < s.size ==> Visits(s, i)[j - i] == s.table[s.index[j]].item
    decreases s.size - i
  {
    if i < s.size {
      VisitsStep(s, i);
      VisitAt(s, i + 1, if i < j then j else s.size);
    }
  }

  /** forEach visits the value of every key exactly once, in first-insertion order. */
  lemma VisitsInOrder(s: Shm, i: nat)
    requires Rep(s) && i <= s.size
    ensures |Visits(s, i)| == s.size - i
    ensures forall j :: i <= j < s.size ==>
              s.index[j] in Items(s.table) && Visits(s, i)[j - i] == Items(s.table)[s.index[j]]
  {
    VisitAt(s, i, s.size);
    forall j | i <= j < s.size ensures Visits(s, i)[j - i] == s.table[s.index[j]].item {
      VisitAt(s, i, j);
    }
  }

  lemma VisitsAll(s: Shm)
    requires Rep(s)
    ensures var o, vs := Abs(s), Visits(s, 0);
            && |vs| == |o.order| <= |s.table|
            && forall j :: 0 <= j < |vs| ==> o.order[j] in o.items && vs[j] == o.items[o.order[j]]
  {
    VisitsInOrder(s, 0);
  }

  // ---------------------------------------------------------------- runs

  datatype Op = Set(key: nat, item: MyMDItem) | Write(key: nat, item: MyMDItem) | Clear | Attach

  ghost predicate InRange(ops: seq<Op>, n: nat) {
    forall i :: 0 <= i < |ops| && (ops[i].Set? || ops[i].Write?) ==> ops[i].key < n
  }

  /** One operation on the memory; Write goes through a pointer that may be stale. */
  ghost function Step(s: Shm, op: Op): Shm
    requires Rep(s) && (op.Set? || op.Write? ==> op.key < |s.table|)
    ensures Rep(Step(s, op)) && |Step(s, op).table| == |s.table|
  {
    match op
    case Set(key, item) => SetRefines(s, key, item); SetImage(s, key, item)
    case Write(key, item) => WriteRefines(s, key, item); WriteImage(s, key, item)
    case Clear => ZeroedRep(|s.table|); Zeroed(|s.table|)
    case Attach => ZeroedRep(|s.table|); AttachImage(s)
  }

  /** The same operation on the plain map; re-attaching `n` slots forgets everything once key 0 is
      present without the table being full. */
  ghost function MapStep(o: Ordered, op: Op, n: nat): Ordered {
    match op
    case Set(key, item) => Put(o, key, item)
    case Write(key, item) => Overwrite(o, key, item)
    case Clear => EMPTY_MAP
    case Attach => if 0 in o.items && |o.order| < n then EMPTY_MAP else o
  }

  ghost function Run(s: Shm, ops: seq<Op>): Shm
    requires Rep(s) && InRange(ops, |s.table|)
    decreases |ops|
  {
    if ops == [] then s else Run(Step(s, ops[0]), ops[1..])
  }

  ghost function MapRun(o: Ordered, ops: seq<Op>, n: nat): Ordered
    decreases |ops|
  {
    if ops == [] then o else MapRun(MapStep(o, ops[0], n), ops[1..], n)
  }

  /** Re-attaching reachable memory keeps it exactly when slot 0 is free or every slot is used. */
  lemma AttachExact(s: Shm)
    requires Rep(s) && |s.table| > 0
    ensures ScanOk(s) <==> !s.table[0].valid || s.size == |s.table|
    ensures AttachImage(s) == s <==> !s.table[0].valid || s.size == |s.table|
    ensures Rep(AttachImage(s)) && (AttachImage(s) == s || Abs(AttachImage(s)) == EMPTY_MAP)
  {
    ZeroedRep(|s.table|);
    if s.table[0].valid && s.size < |s.table| {
      assert !ScanAccepts(s, s.size);
    }
  }

  /** After any scan that stayed inside the table a second one does too, and changes nothing. */
  lemma AttachIdempotent(s: Shm)
    requires Shaped(s)
    ensures AttachImage(AttachImage(s)) == AttachImage(s) && ScanInBounds(AttachImage(s))
  {
    assert ScanOk(Zeroed(|s.table|));
  }

  /** The scan stays inside the table when all entries do, as they do in consistent memory... */
  lemma EntriesInBounds(s: Shm)
    requires Shaped(s) && forall j :: 0 <= j < |s.index| ==> s.index[j] < |s.table|
    ensures ScanInBounds(s)
  {
  }

  lemma ConsistentInBounds(s: Shm)
    requires Rep(s)
    ensures ScanInBounds(s)
  {
    EntriesInBounds(s);
  }

  /** ...but not when the very first names a record beyond it, whatever the rest of the memory holds. */
  lemma FirstEntryOutOfBounds(s: Shm)
    requires Shaped(s) && |s.table| > 0 && s.index[0] >= |s.table|
    ensures !ScanInBounds(s)
  {
    assert !ScanAccepts(s, 0);
  }

  lemma StepRefines(s: Shm, op: Op)
    requires Rep(s) && (op.Set? || op.Write? ==> op.key < |s.table|) && |s.table| > 0
    ensures Abs(Step(s, op)) == MapStep(Abs(s), op, |s.table|)
  {
    match op
    case Set(key, item) => SetRefines(s, key, item);
    case Write(key, item) => WriteRefines(s, key, item);
    case Clear => ZeroedRep(|s.table|);
    case Attach => AttachExact(s); ZeroedRep(|s.table|);
  }

  /** Over every run the memory is the insertion-ordered map, and never holds more keys than slots. */
  lemma {:induction false} RunRefines(s: Shm, ops: seq<Op>)
    requires Rep(s) && InRange(ops, |s.table|) && |s.table| > 0
    ensures Rep(Run(s, ops)) && |Run(s, ops).table| == |s.table|
    ensures Abs(Run(s, ops)) == MapRun(Abs(s), ops, |s.table|)
    decreases |ops|
  {
    if ops != [] {
      StepRefines(s, ops[0]);
      RunRefines(Step(s, ops[0]), ops[1..]);
    }
  }

  ghost predicate Distinct(s: Shm)
    requires s.size <= |s.index|
  {
    forall i, j :: 0 <= i < j < s.size ==> s.index[i] != s.index[j]
  }

  /** Every valid slot is in the index. */
  ghost predicate AllListed(s: Shm)
    requires s.size <= |s.index|
  {
    forall k :: 0 <= k < |s.table| && s.table[k].valid ==> k in s.index[..s.size]
  }

  /** On any memory whatever on which the scan stays inside the table: what it leaves is consistent exactly when
      it refuses the memory, or the size word is in range, no slot is listed twice and no valid slot is
      unlisted.  It tests none of the three.  Memory it keeps never leads it out. */
  lemma AttachConsistentIff(s: Shm)
    requires Shaped(s)
    ensures ScanOk(s) ==> ScanInBounds(s)
    ensures Rep(AttachImage(s)) <==> !ScanOk(s) || (s.size <= |s.index| && Distinct(s) && AllListed(s))
  {
    ZeroedRep(|s.table|);
    if ScanOk(s) && s.size <= |s.index| {
      forall i | 0 <= i < s.size ensures s.index[i] < |s.table| && s.table[s.index[i]].valid {
        assert ScanAccepts(s, i);
      }
      forall i | s.size <= i < |s.index| ensures s.index[i] == 0 {
        assert ScanAccepts(s, i);
      }
    }
  }

  /** Each of the three is missed by itself: a slot listed twice, a size word beyond the table, and a valid
      slot that is not listed. */
  lemma ScanMissesEach(item: MyMDItem)
    ensures var r := ShmRecord(item, true);
            var twice, unlisted := Shm(2, [1, 1, 0], [ZERO_RECORD, r, ZERO_RECORD]), Shm(0, [0, 0], [ZERO_RECORD, r]);
            var beyond := Shm(3, [0, 1], [r, r]);
            && AttachImage(twice) == twice && !Distinct(twice) && AllListed(twice)
            && AttachImage(beyond) == beyond && beyond.size > |beyond.index|
            && AttachImage(unlisted) == unlisted && Distinct(unlisted) && !AllListed(unlisted)
  {
    var r := ShmRecord(item, true);
    var twice, unlisted := Shm(2, [1, 1, 0], [ZERO_RECORD, r, ZERO_RECORD]), Shm(0, [0, 0], [ZERO_RECORD, r]);
    assert twice.index[0] == twice.index[1];
    assert twice.index[..2] == [1, 1];
    assert unlisted.table[1].valid && 1 !in unlisted.index[..0];
  }

  /** A valid slot the index does not list stays unlisted, whatever is set or written afterwards. */
  lemma UnlistedStaysUnlisted(s: Shm, k: nat, key: nat, item: MyMDItem)
    requires Shaped(s) && s.size <= |s.index| && k < |s.table| && s.table[k].valid && k !in s.index[..s.size]
    requires key < |s.table| && (s.table[key].valid || s.size < |s.index|)
    ensures var t := SetImage(s, key, item); t.table[k].valid && t.size <= |t.index| && k !in t.index[..t.size]
    ensures var t := WriteImage(s, key, item); t.table[k].valid && k !in t.index[..t.size]
  {
    if !s.table[key].valid {
      assert SetImage(s, key, item).index[..s.size + 1] == s.index[..s.size] + [key];
    }
  }

  /** Storing key 0 in an empty store and restarting loses it. */
  lemma KeyZeroLostOnRestart(n: nat, item: MyMDItem)
    requires n >= 2
    ensures var s := Zeroed(n); AttachImage(SetImage(s, 0, item)) == s
  {
    ZeroedRep(n);
    SetRefines(Zeroed(n), 0, item);
    AttachExact(SetImage(Zeroed(n), 0, item));
  }
}

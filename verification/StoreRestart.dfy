/** A process killed anywhere, and what the next one makes of the memory it left.

  The lock that covers set covers it against other threads only; a kill falls between any two of its four
  stores.  So the machine of StoreInterleaving is refined here: set stores the index entry, the size word, the
  valid flag and the record one after the other, the record itself field by field. */
module StoreRestart {
  import opened ShmImage
  import opened ParserSpec
  import S = StoreInterleaving
  import StoreRuns

  /** How far the set in progress has come. */
  datatype SetPc = Outside | IndexStored | SizeStored | ValidStored

  /** While a set is in progress the business thread stays where it called it. */
  datatype Fine = Fine(at: S.State, pc: SetPc)

  datatype Action =
    | Other(a: S.Action)
    | StoreIndex
    | StoreSize
    | StoreValid
    | StorePart(field: nat)   // part of the record copied
    | StoreItem               // all of it copied

  /** A set in progress, by whom and where. */
  predicate InSet(f: Fine) {
    && f.at.biz.BStore? && f.at.biz.todo != [] && S.BizKey(f.at.biz) < |f.at.shm.table|
    && f.at.main.MIdle? && |f.at.shm.index| == |f.at.shm.table|
  }

  predicate Enabled(f: Fine, a: Action) {
    match a
    case Other(x) => f.pc.Outside? && !x.StoreRecord? && S.Enabled(f.at, x)
    case StoreIndex => f.pc.Outside? && S.Enabled(f.at, S.StoreRecord)
    case StoreSize => f.pc.IndexStored? && InSet(f)
    case StoreValid => f.pc.SizeStored? && InSet(f)
    case StorePart(_) => f.pc.ValidStored? && InSet(f)
    case StoreItem => f.pc.ValidStored? && InSet(f)
  }

  /** One field of a record copied. */
  function CopyField(to: MyMDItem, from: MyMDItem, field: nat): MyMDItem {
    if field == 0 then to.(marketCode := from.marketCode)
    else if field == 1 then to.(stockCode := from.stockCode)
    else if field == 2 then to.(origTime := from.origTime)
    else if field == 3 then to.(updateTime := from.updateTime)
    else if field - 4 < NUM_FIELD_SIZE then WithPrice(to, field - 4, from.price[field - 4])
    else to
  }

  function Apply(f: Fine, a: Action): Fine
    requires Enabled(f, a)
  {
    var s, shm := f.at, f.at.shm;
    match a
    case Other(x) => f.(at := S.Apply(s, x))
    case StoreIndex =>
      if shm.table[S.BizKey(s.biz)].valid then f.(pc := SizeStored)
      else Fine(s.(shm := shm.(index := shm.index[shm.size := S.BizKey(s.biz)])), IndexStored)
    case StoreSize => Fine(s.(shm := shm.(size := shm.size + 1)), SizeStored)
    case StoreValid =>
      var key := S.BizKey(s.biz);
      Fine(s.(shm := shm.(table := shm.table[key := shm.table[key].(valid := true)])), ValidStored)
    case StorePart(field) =>
      var key := S.BizKey(s.biz);
      var item := CopyField(shm.table[key].item, S.NewItem(s.biz), field);
      f.(at := s.(shm := shm.(table := shm.table[key := shm.table[key].(item := item)])))
    case StoreItem =>
      var key := S.BizKey(s.biz);
      var table := shm.table[key := shm.table[key].(item := S.NewItem(s.biz))];
      Fine(s.(shm := shm.(table := table), biz := S.AfterSave(s.biz)), Outside)
  }

  predicate Feasible(f: Fine, run: seq<Action>)
    decreases |run|
  {
    run == [] || (Enabled(f, run[0]) && Feasible(Apply(f, run[0]), run[1..]))
  }

  function Run(f: Fine, run: seq<Action>): Fine
    requires Feasible(f, run)
    decreases |run|
  {
    if run == [] then f else Run(Apply(f, run[0]), run[1..])
  }

  function Attached(left: Shm): Fine
    requires Rep(left)
  {
    Fine(S.Attached(left), Outside)
  }

  // ---------------------------------------------------------------- the four stores are one set

  /** The state once the set in progress is done. */
  function Completed(f: Fine): S.State
    requires !f.pc.Outside? ==> InSet(f)
  {
    if f.pc.Outside? then f.at
    else
      var shm := f.at.shm;
      var table := shm.table[S.BizKey(f.at.biz) := ShmRecord(S.NewItem(f.at.biz), true)];
      f.at.(shm := Shm(if f.pc.IndexStored? then shm.size + 1 else shm.size, shm.index, table),
            biz := S.AfterSave(f.at.biz))
  }

  /** What the stores made so far look like in memory. */
  ghost predicate SetOk(f: Fine)
    requires InSet(f)
  {
    var shm, key := f.at.shm, S.BizKey(f.at.biz);
    match f.pc
    case Outside => true
    case IndexStored => shm.size < |shm.index| && shm.index[shm.size] == key && !shm.table[key].valid
    case SizeStored => 0 < shm.size <= |shm.index| && shm.index[shm.size - 1] == key && !shm.table[key].valid
    case ValidStored => shm.table[key].valid
  }

  ghost predicate Inv(f: Fine) {
    (!f.pc.Outside? ==> InSet(f) && SetOk(f)) && S.Inv(Completed(f))
  }

  /** The first store is the whole set of the coarser machine, the others change nothing there. */
  lemma StepRefines(f: Fine, a: Action)
    requires Inv(f) && Enabled(f, a)
    ensures var t := Apply(f, a); !t.pc.Outside? ==> InSet(t) && SetOk(t)
    ensures match a
            case Other(x) => Completed(Apply(f, a)) == S.Apply(Completed(f), x)
            case StoreIndex => Completed(Apply(f, a)) == S.Apply(Completed(f), S.StoreRecord)
            case _ => Completed(Apply(f, a)) == Completed(f)
  {
  }

  lemma StepInv(f: Fine, a: Action)
    requires Inv(f) && Enabled(f, a)
    ensures Inv(Apply(f, a)) && (S.CodesInv(Completed(f)) ==> S.CodesInv(Completed(Apply(f, a))))
  {
    StepRefines(f, a);
    if a.Other? || a.StoreIndex? {
      var x := if a.Other? then a.a else S.StoreRecord;
      S.StepInv(f.at, x);
      if S.CodesInv(f.at) { S.StepCodes(f.at, x); }
    }
  }

  lemma {:induction false} RunInv(f: Fine, run: seq<Action>)
    requires Inv(f) && Feasible(f, run)
    ensures Inv(Run(f, run)) && (S.CodesInv(Completed(f)) ==> S.CodesInv(Completed(Run(f, run))))
    decreases |run|
  {
    if run != [] {
      StepInv(f, run[0]);
      RunInv(Apply(f, run[0]), run[1..]);
    }
  }

  /** Every run of the finer machine, its set completed, is one of the coarser: what is proved there holds here. */
  lemma {:induction false} RunRefines(f: Fine, run: seq<Action>) returns (coarse: seq<S.Action>)
    requires Inv(f) && Feasible(f, run)
    ensures Inv(Run(f, run))
    ensures S.Feasible(Completed(f), coarse) && S.Run(Completed(f), coarse) == Completed(Run(f, run))
    decreases |run|
  {
    if run == [] {
      coarse := [];
    } else {
      var a, t := run[0], Apply(f, run[0]);
      StepRefines(f, a);
      StepInv(f, a);
      coarse := RunRefines(t, run[1..]);
      if a.Other? || a.StoreIndex? {
        var x := if a.Other? then a.a else S.StoreRecord;
        assert ([x] + coarse)[1..] == coarse;
        coarse := [x] + coarse;
      }
    }
  }

  // ---------------------------------------------------------------- killed anywhere

  /** Whether the scan keeps the memory of a process killed here, from its first slot, its index and how far
      its set or clear had come. */
  predicate Kept(f: Fine)
    requires |f.at.shm.table| > 0
  {
    var shm := f.at.shm;
    if S.Clearing(f.at.main) then !shm.table[0].valid && forall j :: 0 <= j < |shm.index| ==> shm.index[j] == 0
    else
      match f.pc
      case Outside => !shm.table[0].valid || shm.size == |shm.table|
      case IndexStored => !f.at.biz.BIdle? && S.BizKey(f.at.biz) == 0
      case SizeStored => false
      case ValidStored => !shm.table[0].valid || shm.size == |shm.table|
  }

  ghost predicate SomeValid(table: seq<ShmRecord>) {
    exists k :: 0 <= k < |table| && table[k].valid
  }

  lemma AttachKeepsIff(s: Shm)
    requires Shaped(s)
    ensures AttachImage(s) == s <==> ScanOk(s)
  {
    AttachIdempotent(s);
  }

  lemma ClearingKept(shm: Shm, m: S.Main)
    requires S.ClearOk(shm, m) && |shm.table| > 0
    ensures ScanOk(shm) <==> !shm.table[0].valid && forall j :: 0 <= j < |shm.index| ==> shm.index[j] == 0
  {
    if ScanOk(shm) {
      forall j | 0 <= j < |shm.index| ensures shm.index[j] == 0 { assert ScanAccepts(shm, j); }
      assert ScanAccepts(shm, 0);
    }
  }

  lemma IndexStoredDistinct(f: Fine, i: nat)
    requires Inv(f) && f.pc.IndexStored? && i < f.at.shm.size
    ensures f.at.shm.index[i] != S.BizKey(f.at.biz) && f.at.shm.index[i] < |f.at.shm.table|
    ensures f.at.shm.table[f.at.shm.index[i]].valid
  {
    var done := Completed(f).shm;
    assert done.index[i] != done.index[f.at.shm.size];
  }

  /** Killed behind the index store: the new entry gives the memory away, unless it is 0. */
  lemma IndexStoredKept(f: Fine)
    requires Inv(f) && f.pc.IndexStored?
    ensures ScanOk(f.at.shm) <==> S.BizKey(f.at.biz) == 0
  {
    var shm, key := f.at.shm, S.BizKey(f.at.biz);
    if key == 0 {
      forall i | 0 <= i < |shm.index| ensures ScanAccepts(shm, i) {
        if i < shm.size { IndexStoredDistinct(f, i); } else { assert Completed(f).shm.index[i] == shm.index[i]; }
      }
    } else {
      assert !ScanAccepts(shm, shm.size);
    }
  }

  lemma IndexStoredListed(f: Fine)
    requires Inv(f) && f.pc.IndexStored?
    ensures f.at.shm.size <= |f.at.shm.index| && Distinct(f.at.shm) && AllListed(f.at.shm)
  {
    var shm, done := f.at.shm, Completed(f).shm;
    forall i, j | 0 <= i < j < shm.size ensures shm.index[i] != shm.index[j] {
      assert done.index[i] != done.index[j];
    }
    forall k | 0 <= k < |shm.table| && shm.table[k].valid ensures k in shm.index[..shm.size] {
      assert done.table[k].valid && k in done.index[..done.size];
      assert done.index[..done.size] == shm.index[..shm.size] + [S.BizKey(f.at.biz)];
    }
  }

  lemma ValidStoredRep(f: Fine)
    requires Inv(f) && (f.pc.ValidStored? || (f.pc.Outside? && !S.Clearing(f.at.main)))
    ensures Rep(f.at.shm)
  {
    if f.pc.ValidStored? { SameValidity(Completed(f).shm, f.at.shm); }
  }

  /** What the next process finds is what was there exactly when Kept. */
  lemma KeptExact(f: Fine)
    requires Inv(f) && |f.at.shm.table| > 0
    ensures Shaped(f.at.shm) && (AttachImage(f.at.shm) == f.at.shm <==> Kept(f))
  {
    AttachKeepsIff(f.at.shm);
    if S.Clearing(f.at.main) {
      ClearingKept(f.at.shm, f.at.main);
    } else {
      match f.pc
      case IndexStored => IndexStoredKept(f);
      case SizeStored => assert !ScanAccepts(f.at.shm, f.at.shm.size - 1);
      case _ => ValidStoredRep(f); AttachExact(f.at.shm);
    }
  }

  /** And it is consistent unless the kill fell into a clear, the scan keeps the memory and some record is left. */
  lemma ConsistentExact(f: Fine)
    requires Inv(f) && |f.at.shm.table| > 0
    ensures Shaped(f.at.shm)
    ensures Rep(AttachImage(f.at.shm)) <==> !(Kept(f) && S.Clearing(f.at.main) && SomeValid(f.at.shm.table))
  {
    var shm := f.at.shm;
    KeptExact(f);
    AttachKeepsIff(shm);
    AttachConsistentIff(shm);
    if S.Clearing(f.at.main) {
      assert shm.size == 0 && shm.index[..shm.size] == [];
    } else {
      match f.pc
      case IndexStored => IndexStoredListed(f);
      case SizeStored =>
      case _ => ValidStoredRep(f);
    }
  }

  /** Outside a clear the records found carry the codes of their slots, unless the kill fell between the valid
      flag and the end of the copy of a new key's record and what lay in the slot so far did not fit. */
  lemma CodesExact(f: Fine)
    requires Inv(f) && S.CodesInv(Completed(f)) && |f.at.shm.table| > 0 && !S.Clearing(f.at.main)
    ensures Shaped(f.at.shm)
    ensures S.TableCodesOk(AttachImage(f.at.shm).table) <==>
            !(Kept(f) && f.pc.ValidStored? && !RightCodes(S.BizKey(f.at.biz), f.at.shm.table[S.BizKey(f.at.biz)].item))
  {
    var table := f.at.shm.table;
    KeptExact(f);
    forall k | 0 <= k < |table| && table[k].valid && !(f.pc.ValidStored? && k == S.BizKey(f.at.biz))
      ensures RightCodes(k, table[k].item)
    {
      assert Completed(f).shm.table[k] == table[k];
    }
  }

  /** Consistent, and every record with the codes of its slot. */
  ghost predicate Sound(s: Shm) { Rep(s) && S.TableCodesOk(s.table) }

  lemma AttachedInv(left: Shm)
    requires Rep(left)
    ensures Inv(Attached(left)) && (Sound(left) ==> S.CodesInv(Completed(Attached(left))))
  {
    S.AttachedInv(left);
  }

  /** Started on sound memory and killed after any steps: when the next process keeps the memory, when what it
      works on is consistent, and when it is sound. */
  lemma RestartAfterKill(left: Shm, run: seq<Action>)
    requires Sound(left) && |left.table| > 0 && Feasible(Attached(left), run)
    ensures var f := Run(Attached(left), run);
            var shm, clearing, key := f.at.shm, S.Clearing(f.at.main), if InSet(f) then S.BizKey(f.at.biz) else 0;
            && Shaped(shm) && |shm.table| > 0 && ScanInBounds(shm)
            && (AttachImage(shm) == shm <==> Kept(f))
            && (Rep(AttachImage(shm)) <==> !(Kept(f) && clearing && SomeValid(shm.table)))
            && (f.pc.ValidStored? ==> InSet(f))
            && (Sound(AttachImage(shm)) <==>
                  !(Kept(f) && if clearing then SomeValid(shm.table)
                               else f.pc.ValidStored? && !RightCodes(key, shm.table[key].item)))
  {
    AttachedInv(left);
    RunInv(Attached(left), run);
    SizeConstant(Attached(left), run);
    var f := Run(Attached(left), run);
    KeptExact(f);
    KilledInBounds(f);
    ConsistentExact(f);
    if !S.Clearing(f.at.main) { CodesExact(f); }
  }

  /** No kill leads the next scan out of the table. */
  lemma KilledInBounds(f: Fine)
    requires Inv(f)
    ensures Shaped(f.at.shm) && ScanInBounds(f.at.shm)
  {
    var shm := f.at.shm;
    assert shm.index == Completed(f).shm.index && |shm.table| == |Completed(f).shm.table|;
    EntriesInBounds(shm);
  }

  lemma {:induction false} SizeConstant(f: Fine, run: seq<Action>)
    requires Feasible(f, run)
    ensures |Run(f, run).at.shm.table| == |f.at.shm.table|
    decreases |run|
  {
    if run != [] { SizeConstant(Apply(f, run[0]), run[1..]); }
  }

  /** A kill once a clear has passed the first slot leaves the next process every record not yet cleared, valid
      but in no index. */
  lemma KilledInClear(s: S.State)
    requires S.Inv(s) && s.main.MClearTable? && s.main.i > 0 && SomeValid(s.shm.table)
    ensures Shaped(s.shm) && AttachImage(s.shm) == s.shm && !Rep(s.shm)
  {
    ConsistentExact(Fine(s, Outside));
    KeptExact(Fine(s, Outside));
  }

  /** A kill behind the valid flag of a new key leaves the next process a listed record of all zeros. */
  lemma KilledInSet(f: Fine)
    requires Inv(f) && f.pc.ValidStored? && f.at.shm.table[S.BizKey(f.at.biz)].item == ZERO_ITEM
    requires S.BizKey(f.at.biz) > 0 && !f.at.shm.table[0].valid
    ensures Shaped(f.at.shm) && AttachImage(f.at.shm) == f.at.shm && Rep(f.at.shm) && !Sound(f.at.shm)
  {
    KeptExact(f);
    ValidStoredRep(f);
    var key := S.BizKey(f.at.biz);
    assert !RightCodes(key, ZERO_ITEM);
  }

  // ---------------------------------------------------------------- such kills are reached

  lemma RunCons(f: Fine, a: Action, rest: seq<Action>)
    requires Enabled(f, a) && Feasible(Apply(f, a), rest)
    ensures Feasible(f, [a] + rest) && Run(f, [a] + rest) == Run(Apply(f, a), rest)
  {
    assert ([a] + rest)[1..] == rest;
  }

  lemma {:induction false} Lift(f: Fine, run: seq<S.Action>) returns (fine: seq<Action>)
    requires f.pc.Outside? && S.Feasible(f.at, run) && StoreRuns.OnlyClears(run)
    ensures Feasible(f, fine) && Run(f, fine) == Fine(S.Run(f.at, run), Outside)
    decreases |run|
  {
    if run == [] {
      fine := [];
    } else {
      fine := Lift(Apply(f, Other(run[0])), run[1..]);
      RunCons(f, Other(run[0]), fine);
      fine := [Other(run[0])] + fine;
    }
  }

  /** From every state with the lock free and a record above slot 0, a clear may be killed so that the next process
      finds records no index entry lists. */
  lemma ClearMayBeKilled(f: Fine, k: nat) returns (more: seq<Action>)
    requires Inv(f) && f.pc.Outside? && f.at.main.MIdle? && 0 < k < |f.at.shm.table| && f.at.shm.table[k].valid
    ensures Feasible(f, more)
    ensures var shm := Run(f, more).at.shm;
            && Shaped(shm) && AttachImage(shm) == shm && !Rep(shm)
            && k < |shm.table| && shm.table[k] == f.at.shm.table[k] && shm.size == 0
  {
    var run := StoreRuns.ClearBehindFirst(f.at);
    var t := S.Run(f.at, run);
    assert t.shm.table[k].valid;
    KilledInClear(t);
    more := Lift(f, run);
  }

  lemma StartSet(f: Fine, snap: Snapshot, now: int) returns (more: seq<Action>)
    requires Inv(f) && f.pc.Outside? && f.at.main.MIdle? && f.at.biz.BIdle?
    requires snap.market >= 0 && Tradable(snap) && (snap.market + 1) * STOCK_LIMIT <= |f.at.shm.table|
    requires !f.at.shm.table[Key(snap)].valid
    ensures Feasible(f, more)
    ensures var g := Run(f, more);
            && Inv(g) && g.pc.IndexStored? && S.BizKey(g.at.biz) == Key(snap) && g.at.shm.table == f.at.shm.table
  {
    var a, b := Other(S.BeginParse(snap, now)), Other(S.FindRecord);
    var f1 := Apply(f, a);
    StepInv(f, a);
    var f2 := Apply(f1, b);
    StepInv(f1, b);
    S.StoreNeverBlocked(f2.at);
    StepInv(f2, StoreIndex);
    RunCons(f2, StoreIndex, []);
    RunCons(f1, b, [StoreIndex]);
    RunCons(f, a, [b] + [StoreIndex]);
    more := [a] + ([b] + [StoreIndex]);
  }

  lemma SizeAndValid(f: Fine)
    requires Inv(f) && f.pc.IndexStored?
    ensures Feasible(f, [StoreSize] + [StoreValid])
    ensures var g, key := Run(f, [StoreSize] + [StoreValid]), S.BizKey(f.at.biz);
            && Inv(g) && g.pc.ValidStored? && g.at.biz == f.at.biz && key < |f.at.shm.table|
            && g.at.shm.table == f.at.shm.table[key := f.at.shm.table[key].(valid := true)]
  {
    var f1 := Apply(f, StoreSize);
    StepInv(f, StoreSize);
    StepInv(f1, StoreValid);
    RunCons(f1, StoreValid, []);
    RunCons(f, StoreSize, [StoreValid]);
  }

  lemma {:induction false} RunAppend(f: Fine, a: seq<Action>, b: seq<Action>)
    requires Feasible(f, a) && Feasible(Run(f, a), b)
    ensures Feasible(f, a + b) && Run(f, a + b) == Run(Run(f, a), b)
    decreases |a|
  {
    if a == [] {
      assert a + b == b;
    } else {
      assert (a + b)[1..] == a[1..] + b;
      RunAppend(Apply(f, a[0]), a[1..], b);
    }
  }

  /** From every idle state, the first message about a stock whose slot was never written may be killed so that
      the next process finds a listed record of zeros in its place. */
  lemma SetMayBeKilled(f: Fine, snap: Snapshot, now: int) returns (more: seq<Action>)
    requires Inv(f) && f.pc.Outside? && f.at.main.MIdle? && f.at.biz.BIdle?
    requires snap.market > 0 && Tradable(snap) && (snap.market + 1) * STOCK_LIMIT <= |f.at.shm.table|
    requires f.at.shm.table[Key(snap)] == ZERO_RECORD && !f.at.shm.table[0].valid
    ensures Feasible(f, more)
    ensures var shm := Run(f, more).at.shm;
            && Shaped(shm) && AttachImage(shm) == shm && Rep(shm) && !Sound(shm)
            && Key(snap) < |shm.table| && shm.table[Key(snap)] == ShmRecord(ZERO_ITEM, true)
  {
    more := StartSet(f, snap, now);
    var g := Run(f, more);
    SizeAndValid(g);
    RunAppend(f, more, [StoreSize] + [StoreValid]);
    KilledInSet(Run(g, [StoreSize] + [StoreValid]));
    more := more + ([StoreSize] + [StoreValid]);
  }

  // ---------------------------------------------------------------- what a kept table holds

  ghost predicate NoClear(run: seq<Action>) { forall i :: 0 <= i < |run| ==> run[i] != Other(S.ClearStart) }

  lemma StepOnTrack(f: Fine, a: Action)
    requires Inv(f) && S.OnTrack(Completed(f)) && Enabled(f, a) && a != Other(S.ClearStart)
    ensures Inv(Apply(f, a)) && S.OnTrack(Completed(Apply(f, a)))
    ensures Completed(Apply(f, a)).base == Completed(f).base
  {
    StepInv(f, a);
    StepRefines(f, a);
    if a.Other? || a.StoreIndex? {
      S.StepOnTrack(f.at, if a.Other? then a.a else S.StoreRecord);
    }
  }

  lemma {:induction false} RunOnTrack(f: Fine, run: seq<Action>)
    requires Inv(f) && S.OnTrack(Completed(f)) && Feasible(f, run) && NoClear(run)
    ensures Inv(Run(f, run)) && S.OnTrack(Completed(Run(f, run)))
    ensures Completed(Run(f, run)).base == Completed(f).base
    decreases |run|
  {
    if run != [] {
      StepOnTrack(f, run[0]);
      RunOnTrack(Apply(f, run[0]), run[1..]);
    }
  }

  /** Two maps hold the same under a key. */
  ghost predicate SameAt(a: Ordered, b: Ordered, k: nat) {
    (k in a.items <==> k in b.items) && (k in a.items ==> a.items[k] == b.items[k])
  }

  lemma {:induction false} SavesOther(o: Ordered, market: nat, code: nat, saves: seq<S.Save>, k: nat)
    requires k != market * STOCK_LIMIT + code
    ensures SameAt(S.ApplySaves(o, market, code, saves), o, k)
    decreases |saves|
  {
    if saves != [] { SavesOther(S.ApplySave(o, market, code, saves[0]), market, code, saves[1..], k); }
  }

  lemma FinishOther(o: Ordered, b: S.Business, k: nat)
    requires (!b.BIdle? ==> b.todo != []) && (b.BIdle? || k != S.BizKey(b))
    ensures SameAt(S.Finish(o, b), o, k)
  {
    match b
    case BIdle =>
    case BFind(market, code, todo) => SavesOther(o, market, code, todo, k);
    case BStore(market, code, todo) => SavesOther(S.FinishSave(o, b), market, code, todo[1..], k);
    case BWrite(market, code, todo, _) => SavesOther(S.FinishSave(o, b), market, code, todo[1..], k);
  }

  lemma CompletedOther(f: Fine, k: nat)
    requires Inv(f) && (f.at.biz.BIdle? || k != S.BizKey(f.at.biz))
    requires f.at.shm.size <= |f.at.shm.index| && Completed(f).shm.size <= |Completed(f).shm.index|
    ensures SameAt(Abs(f.at.shm), Abs(Completed(f).shm), k)
    ensures Completed(f).biz.BIdle? || k != S.BizKey(Completed(f).biz)
  {
  }

  /** Without a clear, killed after any step and kept: every stock but the one in progress has, for the next
      process, just what parsing the messages begun one after the other makes of the memory found. */
  lemma KeptContent(left: Shm, run: seq<Action>, k: nat)
    requires Rep(left) && |left.table| > 0 && Feasible(Attached(left), run) && NoClear(run)
    requires var b := Run(Attached(left), run).at.biz; b.BIdle? || k != S.BizKey(b)
    ensures var s := Run(Attached(left), run).at;
            && Shaped(s.shm) && |s.parsed| == |s.nows| && (forall i :: 0 <= i < |s.parsed| ==> s.parsed[i].market >= 0)
            && (AttachImage(s.shm) == s.shm ==>
                  && s.shm.size <= |s.shm.index|
                  && SameAt(Abs(s.shm), ParseAll(Abs(AttachImage(left)), s.parsed, s.nows), k))
  {
    AttachedInv(left);
    RunOnTrack(Attached(left), run);
    SizeConstant(Attached(left), run);
    var f := Run(Attached(left), run);
    KeptExact(f);
    if Kept(f) {
      CompletedOther(f, k);
      FinishOther(Abs(Completed(f).shm), Completed(f).biz, k);
    }
  }
}

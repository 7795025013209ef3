/** Runs of the store machine that show the failing cases are reached: a clear stopped behind its first slot,
    and a message whose time a clear has swallowed. */
module StoreRuns {
  import opened ShmImage
  import opened ParserSpec
  import opened StoreInterleaving
  import opened StoreClears
  import S = StoreInterleaving

  lemma RunCons(s: State, a: Action, rest: seq<Action>)
    requires Enabled(s, a) && Feasible(Apply(s, a), rest)
    ensures Feasible(s, [a] + rest) && S.Run(s, [a] + rest) == S.Run(Apply(s, a), rest)
    ensures ClearEnded(s, [a] + rest) <==> (a.ClearWord? && Apply(s, a).main.MIdle?) || ClearEnded(Apply(s, a), rest)
  {
    assert ([a] + rest)[1..] == rest;
  }

  lemma {:induction false} RunAppend(s: State, a: seq<Action>, b: seq<Action>)
    requires Feasible(s, a) && Feasible(S.Run(s, a), b)
    ensures Feasible(s, a + b) && S.Run(s, a + b) == S.Run(S.Run(s, a), b)
    ensures ClearEnded(s, a + b) <==> ClearEnded(s, a) || ClearEnded(S.Run(s, a), b)
    decreases |a|
  {
    if a == [] {
      assert a + b == b;
    } else {
      assert (a + b)[1..] == a[1..] + b;
      RunAppend(Apply(s, a[0]), a[1..], b);
    }
  }

  ghost predicate Quiet(s: State) { Inv(s) && s.main.MIdle? }

  predicate SameHistory(s: State, t: State) {
    t.parsed == s.parsed && t.nows == s.nows && |t.shm.table| == |s.shm.table|
  }

  // ---------------------------------------------------------------- saves

  lemma {:induction false} WriteAll(s: State) returns (run: seq<Action>)
    requires Quiet(s) && s.biz.BWrite?
    ensures Feasible(s, run)
    ensures var t := S.Run(s, run); Quiet(t) && t.biz == AfterSave(s.biz) && t.since == s.since && SameHistory(s, t)
    decreases |s.biz.pending|
  {
    var t := Apply(s, WriteField);
    StepInv(s, WriteField);
    if |s.biz.pending| == 1 {
      run := [];
    } else {
      run := WriteAll(t);
    }
    RunCons(s, WriteField, run);
    run := [WriteField] + run;
  }

  lemma StoreIt(s: State) returns (run: seq<Action>)
    requires Quiet(s) && s.biz.BStore?
    ensures Feasible(s, run)
    ensures var t := S.Run(s, run); Quiet(t) && t.biz == AfterSave(s.biz) && t.since == s.since && SameHistory(s, t)
  {
    StoreNeverBlocked(s);
    StepInv(s, StoreRecord);
    RunCons(s, StoreRecord, []);
    run := [StoreRecord] + [];
  }

  lemma OneSave(s: State) returns (run: seq<Action>)
    requires Quiet(s) && s.biz.BFind?
    ensures Feasible(s, run)
    ensures var t := S.Run(s, run);
            && Quiet(t) && t.biz == AfterSave(s.biz) && SameHistory(s, t)
            && t.since == s.since + [Call(s.biz.market, s.biz.code, s.biz.todo[0])]
  {
    var t := Apply(s, FindRecord);
    StepInv(s, FindRecord);
    if t.biz.BStore? { run := StoreIt(t); } else { run := WriteAll(t); }
    RunCons(s, FindRecord, run);
    run := [FindRecord] + run;
  }

  lemma {:induction false} AllSaves(s: State) returns (run: seq<Action>)
    requires Quiet(s) && s.biz.BFind?
    ensures Feasible(s, run)
    ensures var t := S.Run(s, run);
            Quiet(t) && t.biz.BIdle? && t.since == s.since + Rest(s.biz) && SameHistory(s, t)
    decreases |s.biz.todo|
  {
    run := OneSave(s);
    var b, t := s.biz, S.Run(s, run);
    assert Rest(b) == [Call(b.market, b.code, b.todo[0])] + Tag(b.market, b.code, b.todo[1..]);
    if |b.todo| > 1 {
      var more := AllSaves(t);
      RunAppend(s, run, more);
      run := run + more;
    }
  }

  // ---------------------------------------------------------------- clears

  predicate SameBusiness(s: State, t: State) { t.biz == s.biz && SameHistory(s, t) }

  predicate OnlyClears(run: seq<Action>) { forall i :: 0 <= i < |run| ==> run[i].ClearStart? || run[i].ClearWord? }

  lemma {:induction false} ClearIndexRun(s: State) returns (run: seq<Action>)
    requires Inv(s) && s.main.MClearIndex?
    ensures Feasible(s, run) && OnlyClears(run)
    ensures var t := S.Run(s, run);
            Inv(t) && t.main == MClearTable(0, 0) && t.shm.table == s.shm.table && SameBusiness(s, t)
    decreases |s.shm.index| - s.main.i
  {
    var t := Apply(s, ClearWord);
    StepInv(s, ClearWord);
    if t.main.MClearIndex? {
      run := ClearIndexRun(t);
    } else {
      run := [];
    }
    RunCons(s, ClearWord, run);
    run := [ClearWord] + run;
  }

  lemma {:induction false} ClearTableRun(s: State) returns (run: seq<Action>)
    requires Inv(s) && s.main.MClearTable?
    ensures Feasible(s, run) && ClearEnded(s, run)
    ensures var t := S.Run(s, run);
            Quiet(t) && SameBusiness(s, t) && t.base == EMPTY_MAP && t.since == Surviving(s.biz)
    decreases |s.shm.table| - s.main.i, if s.main.field < 5 then 5 - s.main.field else 0
  {
    var t := Apply(s, ClearWord);
    StepInv(s, ClearWord);
    if t.main.MIdle? {
      run := [];
    } else {
      run := ClearTableRun(t);
    }
    RunCons(s, ClearWord, run);
    run := [ClearWord] + run;
  }

  /** A clear may run through at any time the lock is free. */
  lemma FullClear(s: State) returns (run: seq<Action>)
    requires Quiet(s) && !s.biz.BStore?
    ensures Feasible(s, run) && ClearEnded(s, run)
    ensures var t := S.Run(s, run); Quiet(t) && SameBusiness(s, t) && t.base == EMPTY_MAP && t.since == []
  {
    var t := Apply(s, ClearStart);
    StepInv(s, ClearStart);
    var index := ClearIndexRun(t);
    var table := ClearTableRun(S.Run(t, index));
    RunAppend(t, index, table);
    RunCons(s, ClearStart, index + table);
    run := [ClearStart] + (index + table);
  }

  lemma {:induction false} ClearFirst(s: State) returns (run: seq<Action>)
    requires Inv(s) && s.main.MClearTable? && s.main.i == 0 && s.main.field <= 5 && |s.shm.table| > 0
    ensures Feasible(s, run) && OnlyClears(run)
    ensures var t := S.Run(s, run);
            && Inv(t) && t.main == MClearTable(1, 0) && |t.shm.table| == |s.shm.table|
            && forall k :: 0 < k < |s.shm.table| ==> t.shm.table[k] == s.shm.table[k]
    decreases 5 - s.main.field
  {
    var t := Apply(s, ClearWord);
    StepInv(s, ClearWord);
    if s.main.field < 5 {
      run := ClearFirst(t);
    } else {
      run := [];
    }
    RunCons(s, ClearWord, run);
    run := [ClearWord] + run;
  }

  /** From every state with the lock free, a clear may come just behind the first slot with every other record
      still there. */
  lemma ClearBehindFirst(s: State) returns (run: seq<Action>)
    requires Quiet(s) && |s.shm.table| > 0
    ensures Feasible(s, run) && OnlyClears(run)
    ensures var t := S.Run(s, run);
            && Inv(t) && t.main == MClearTable(1, 0) && |t.shm.table| == |s.shm.table|
            && forall k :: 0 < k < |s.shm.table| ==> t.shm.table[k] == s.shm.table[k]
  {
    var t := Apply(s, ClearStart);
    StepInv(s, ClearStart);
    var index := ClearIndexRun(t);
    var first := ClearFirst(S.Run(t, index));
    RunAppend(t, index, first);
    RunCons(s, ClearStart, index + first);
    run := [ClearStart] + (index + first);
  }

  // ---------------------------------------------------------------- a time lost

  lemma BeginAndStamp(left: Shm, snap: Snapshot, now: int) returns (run: seq<Action>)
    requires Rep(left) && snap.market >= 0 && Tradable(snap) && (snap.market + 1) * STOCK_LIMIT <= |left.table|
    requires QuoteSaves(snap.quotes) != []
    ensures Feasible(Attached(left), run)
    ensures var t := S.Run(Attached(left), run);
            && Quiet(t) && t.parsed == [snap]
            && t.biz == BFind(snap.market, StockCode(snap.securityId), QuoteSaves(snap.quotes))
  {
    AttachedInv(left);
    var s, a := Attached(left), BeginParse(snap, now);
    var s1 := Apply(s, a);
    StepInv(s, a);
    assert s1.biz.todo[1..][1..] == QuoteSaves(snap.quotes);
    var codes := OneSave(s1);
    var time := OneSave(S.Run(s1, codes));
    RunAppend(s1, codes, time);
    RunCons(s, a, codes + time);
    run := [a] + (codes + time);
  }

  lemma ClearBetween(left: Shm, snap: Snapshot, now: int) returns (run: seq<Action>)
    requires Rep(left) && snap.market >= 0 && Tradable(snap) && (snap.market + 1) * STOCK_LIMIT <= |left.table|
    requires QuoteSaves(snap.quotes) != []
    ensures Feasible(Attached(left), run) && ClearEnded(Attached(left), run)
    ensures var t := S.Run(Attached(left), run);
            && Quiet(t) && t.biz.BIdle? && t.parsed == [snap]
            && t.since == Tag(snap.market, StockCode(snap.securityId), QuoteSaves(snap.quotes))
  {
    run := BeginAndStamp(left, snap, now);
    var more := ClearAndGoOn(S.Run(Attached(left), run));
    RunAppend(Attached(left), run, more);
    run := run + more;
  }

  lemma ClearAndGoOn(s: State) returns (run: seq<Action>)
    requires Quiet(s) && s.biz.BFind?
    ensures Feasible(s, run) && ClearEnded(s, run)
    ensures var t := S.Run(s, run); Quiet(t) && t.biz.BIdle? && t.parsed == s.parsed && t.since == Rest(s.biz)
  {
    run := FullClear(s);
    var saves := AllSaves(S.Run(s, run));
    RunAppend(s, run, saves);
    run := run + saves;
  }

  /** The price saves alone make a record with time 0. */
  lemma QuotesSetNoTime(market: nat, code: nat, quotes: seq<Quote>)
    requires QuoteSaves(quotes) != []
    ensures var o, key := SaveAll(EMPTY_MAP, Tag(market, code, QuoteSaves(quotes))), market * STOCK_LIMIT + code;
            key in o.items && o.items[key].origTime == 0
  {
    var calls, key := Tag(market, code, QuoteSaves(quotes)), market * STOCK_LIMIT + code;
    assert LastSet(calls, key, TimeField).None? by { QuoteCalls(market, code, quotes, TimeField); }
    assert CallKey(calls[0]) == key;
    assert Called(calls, key);
    SavedField(EMPTY_MAP, calls, key, TimeField);
  }

  /** On any memory: a message that quotes at least one usable price, with a whole clear between its time and its
      prices, leaves a record with time 0. */
  lemma TimeLost(left: Shm, snap: Snapshot, now: int) returns (run: seq<Action>)
    requires Rep(left) && snap.market >= 0 && Tradable(snap) && (snap.market + 1) * STOCK_LIMIT <= |left.table|
    requires QuoteSaves(snap.quotes) != []
    ensures Feasible(Attached(left), run) && ClearEnded(Attached(left), run)
    ensures var t := S.Run(Attached(left), run);
            && Quiet(t) && t.biz.BIdle? && t.parsed == [snap] && Rep(t.shm)
            && Key(snap) in Abs(t.shm).items && Abs(t.shm).items[Key(snap)].origTime == 0
  {
    run := ClearBetween(left, snap, now);
    var t, key := S.Run(Attached(left), run), Key(snap);
    var o := SaveAll(EMPTY_MAP, t.since);
    assert Rep(t.shm) && Abs(t.shm) == o by { TableSinceClear(left, run); }
    assert key in o.items && o.items[key].origTime == 0 by {
      QuotesSetNoTime(snap.market, StockCode(snap.securityId), snap.quotes);
    }
  }
}

/** The IO thread's connect, logon and receive loops against an arbitrary environment.

  Time counts the calls and flag reads made so far.  The environment is any function from time to
  return codes, and any time at which the exit flag goes up; it stays up. */
module IoThread {
  datatype Event =
    | ReadFlag(up: bool)
    | Connect(ret: int)
    | SendLogon(ret: int)
    | RecvLogon(ret: int)
    | RecvMsg(ret: int)
    | SendLogout(ret: int)
    | Close

  /** Connect, send and receive of the logon have all succeeded, in this order, and so has every receive since. */
  predicate LoggedOn(tr: seq<Event>) {
    tr != [] &&
    var n := |tr| - 1;
    match tr[n]
    case ReadFlag(_) => LoggedOn(tr[..n])
    case RecvMsg(ret) => ret == 0 && LoggedOn(tr[..n])
    case RecvLogon(ret) => ret == 0 && n >= 2 && tr[n - 1] == SendLogon(0) && tr[n - 2] == Connect(0)
    case _ => false
  }

  ghost predicate LogonAt(tr: seq<Event>, k: nat) {
    && k + 3 <= |tr| && tr[k..k + 3] == [Connect(0), SendLogon(0), RecvLogon(0)]
    && forall i :: k + 3 <= i < |tr| ==> tr[i].ReadFlag? || tr[i] == RecvMsg(0)
  }

  lemma {:induction false} LogonFound(tr: seq<Event>) returns (k: nat)
    requires LoggedOn(tr)
    ensures LogonAt(tr, k)
    decreases |tr|
  {
    var n := |tr| - 1;
    if tr[n].RecvLogon? {
      k := n - 2;
      assert tr[k..k + 3] == [Connect(0), SendLogon(0), RecvLogon(0)];
    } else {
      k := LogonFound(tr[..n]);
      assert tr[..n][k..k + 3] == tr[k..k + 3];
    }
  }

  lemma {:induction false} LogonHolds(tr: seq<Event>, k: nat)
    requires LogonAt(tr, k)
    ensures LoggedOn(tr)
    decreases |tr|
  {
    var n := |tr| - 1;
    if n == k + 2 {
      var answered := tr[k..k + 3];
      assert tr[n] == answered[2] && tr[n - 1] == answered[1] && tr[n - 2] == answered[0];
    } else {
      assert tr[..n][k..k + 3] == tr[k..k + 3];
      LogonHolds(tr[..n], k);
    }
  }

  /** So some logon went through, and only flag reads and successful receives have been made since. */
  lemma LoggedOnExact(tr: seq<Event>)
    ensures LoggedOn(tr) <==> exists k: nat :: LogonAt(tr, k)
  {
    if LoggedOn(tr) {
      var k := LogonFound(tr);
    }
    if k: nat :| LogonAt(tr, k) {
      LogonHolds(tr, k);
    }
  }

  /** What the thread does next, after everything it did so far: a flag read behind a receive is that of the outer
      loop, any other that of the inner. */
  datatype Turn = FlagTurn | ConnectTurn | SendTurn | LogonTurn | ReceiveTurn | LogoutTurn | CloseTurn | NoTurn

  function TurnOf(e: Event): Turn {
    match e
    case ReadFlag(_) => FlagTurn
    case Connect(_) => ConnectTurn
    case SendLogon(_) => SendTurn
    case RecvLogon(_) => LogonTurn
    case RecvMsg(_) => ReceiveTurn
    case SendLogout(_) => LogoutTurn
    case Close => CloseTurn
  }

  predicate Outer(tr: seq<Event>) { tr == [] || tr[|tr| - 1].RecvMsg? }

  function Due(tr: seq<Event>): Turn {
    if tr == [] then FlagTurn
    else
      var n := |tr| - 1;
      match tr[n]
      case ReadFlag(up) =>
        if Outer(tr[..n]) then (if up then LogoutTurn else if LoggedOn(tr) then ReceiveTurn else FlagTurn)
        else if up then ReceiveTurn else ConnectTurn
      case Connect(ret) => if ret == 0 then SendTurn else FlagTurn
      case SendLogon(ret) => if ret == 0 then LogonTurn else FlagTurn
      case RecvLogon(ret) => if ret == 0 then ReceiveTurn else FlagTurn
      case RecvMsg(_) => FlagTurn
      case SendLogout(_) => CloseTurn
      case Close => NoTurn
  }

  /** Every event so far was the one due. */
  ghost predicate Proper(tr: seq<Event>) { forall i :: 0 <= i < |tr| ==> TurnOf(tr[i]) == Due(tr[..i]) }

  lemma ProperSnoc(tr: seq<Event>, e: Event)
    requires Proper(tr) && TurnOf(e) == Due(tr)
    ensures Proper(tr + [e]) && (tr + [e])[..|tr|] == tr
  {
    var t := tr + [e];
    forall i | 0 <= i < |t| ensures TurnOf(t[i]) == Due(t[..i]) {
      assert t[..i] == tr[..i];
      if i == |tr| { assert tr[..i] == tr; }
    }
    assert t[..|tr|] == tr;
  }

  /** The event before an event that is due. */
  lemma Preceding(tr: seq<Event>, i: nat)
    requires Proper(tr) && 0 < i <= |tr|
    ensures tr[..i][i - 1] == tr[i - 1] && tr[..i][..i - 1] == tr[..i - 1]
    ensures TurnOf(tr[i - 1]) == Due(tr[..i - 1])
  {
    assert tr[..i][..i - 1] == tr[..i - 1];
  }

  /** A completed logon answer has the connect and the logon that were answered right before it. */
  lemma AnswerIsLogon(tr: seq<Event>, i: nat)
    requires Proper(tr) && 0 < i <= |tr| && tr[i - 1] == RecvLogon(0)
    ensures LoggedOn(tr[..i])
  {
    Preceding(tr, i);
    Preceding(tr, i - 1);
    Preceding(tr, i - 2);
    assert tr[..i][i - 2] == tr[i - 2] && tr[..i][i - 3] == tr[i - 3];
  }

  /** A receive is made on a completed logon, or because the inner loop just found the flag up. */
  lemma ReceiveDue(tr: seq<Event>, i: nat)
    requires Proper(tr) && i < |tr| && tr[i].RecvMsg?
    ensures LoggedOn(tr[..i]) || (i > 1 && tr[i - 1] == ReadFlag(true))
  {
    if i > 0 {
      Preceding(tr, i);
      if tr[i - 1] == RecvLogon(0) { AnswerIsLogon(tr, i); }
    }
  }

  /** No new connection is made on a completed logon. */
  lemma ConnectDue(tr: seq<Event>, i: nat)
    requires Proper(tr) && i < |tr| && tr[i].Connect?
    ensures !LoggedOn(tr[..i])
  {
    if i > 0 {
      Preceding(tr, i);
      if i > 1 { Preceding(tr, i - 1); }
    }
  }

  /** On a completed logon the next thing is a receive, as long as the flag is down. */
  lemma ReceiveFollows(tr: seq<Event>, i: nat)
    requires Proper(tr) && i + 1 < |tr|
    requires tr[i] == RecvLogon(0) || (tr[i] == ReadFlag(false) && LoggedOn(tr[..i]))
    ensures tr[i + 1].RecvMsg?
  {
    Preceding(tr, i + 1);
    if i > 0 { Preceding(tr, i); }
  }

  /** Behind a receive comes a look at the flag, and nothing but logout and close once that is up. */
  lemma ReceiveThenFlag(tr: seq<Event>, i: nat)
    requires Proper(tr) && i < |tr| && tr[i].RecvMsg?
    ensures i + 1 < |tr| ==> tr[i + 1].ReadFlag?
    ensures i + 2 < |tr| && tr[i + 1] == ReadFlag(true) ==> tr[i + 2].SendLogout?
    ensures i + 3 < |tr| && tr[i + 1] == ReadFlag(true) ==> tr[i + 3] == Close && |tr| == i + 4
  {
    if i + 1 < |tr| { Preceding(tr, i + 1); }
    if i + 2 < |tr| && tr[i + 1] == ReadFlag(true) {
      Preceding(tr, i + 2);
      if i + 3 < |tr| {
        Preceding(tr, i + 3);
        if i + 4 < |tr| { Preceding(tr, i + 4); }
      }
    }
  }

  /** The calls the thread makes, answered by the environment and recorded. */
  class Environment {
    const upAt: nat
    const answer: nat -> int
    var trace: seq<Event>

    constructor (upAt: nat, answer: nat -> int)
      ensures this.upAt == upAt && this.answer == answer && trace == [] && Valid()
    {
      this.upAt, this.answer, trace := upAt, answer, [];
    }

    /** What the environment answers at time `i`. */
    predicate Answered(e: Event, i: nat) {
      match e
      case ReadFlag(up) => up <==> i >= upAt
      case Connect(ret) => ret == answer(i)
      case SendLogon(ret) => ret == answer(i)
      case RecvLogon(ret) => ret == answer(i)
      case RecvMsg(ret) => ret == answer(i)
      case SendLogout(ret) => ret == answer(i)
      case Close => true
    }

    ghost predicate Valid()
      reads this
    {
      Proper(trace) && forall i :: 0 <= i < |trace| ==> Answered(trace[i], i)
    }

    method GetExitFlag() returns (up: bool)
      requires Valid() && Due(trace) == FlagTurn
      modifies this
      ensures Valid() && up == (|old(trace)| >= upAt) && trace == old(trace) + [ReadFlag(up)]
      ensures trace[..|old(trace)|] == old(trace) && LoggedOn(trace) == old(LoggedOn(trace))
    {
      up := |trace| >= upAt;
      ProperSnoc(trace, ReadFlag(up));
      trace := trace + [ReadFlag(up)];
    }

    method Call(make: int -> Event) returns (ret: int)
      requires Valid() && forall r :: TurnOf(make(r)) == Due(trace)
      requires Answered(make(answer(|trace|)), |trace|)
      modifies this
      ensures Valid() && ret == answer(|old(trace)|) && trace == old(trace) + [make(ret)]
      ensures trace[..|old(trace)|] == old(trace)
    {
      ret := answer(|trace|);
      ProperSnoc(trace, make(ret));
      trace := trace + [make(ret)];
    }
  }

  /** One attempt: connect, send the logon, receive the answer. */
  method TryLogon(env: Environment) returns (ret: int)
    requires env.Valid() && Due(env.trace) == ConnectTurn
    modifies env
    ensures env.Valid() && |env.trace| > |old(env.trace)|
    ensures Due(env.trace) == if ret == 0 then ReceiveTurn else FlagTurn
    ensures ret == 0 ==> LoggedOn(env.trace)
    ensures ret != 0 ==> !Outer(env.trace) && !LoggedOn(env.trace)
  {
    ret := env.Call(r => Connect(r));
    if ret != 0 { return; }
    ret := env.Call(r => SendLogon(r));
    if ret != 0 { return; }
    ret := env.Call(r => RecvLogon(r));
    if ret == 0 {
      AnswerIsLogon(env.trace, |env.trace|);
      assert env.trace[..|env.trace|] == env.trace;
    }
  }

  /** Connect and log on until it works or the flag is up. */
  method Reconnect(env: Environment, needReconnect: int) returns (need: int)
    requires env.Valid() && Due(env.trace) == if needReconnect == 0 then ReceiveTurn else FlagTurn
    requires needReconnect == 0 ==> LoggedOn(env.trace)
    requires needReconnect != 0 ==> !Outer(env.trace)
    modifies env
    ensures env.Valid() && |env.trace| >= |old(env.trace)|
    ensures Due(env.trace) == ReceiveTurn && (LoggedOn(env.trace) || |env.trace| > env.upAt)
  {
    need := needReconnect;
    while need != 0
      invariant env.Valid() && |env.trace| >= |old(env.trace)|
      invariant Due(env.trace) == if need == 0 then ReceiveTurn else FlagTurn
      invariant need == 0 ==> LoggedOn(env.trace)
      invariant need != 0 ==> !Outer(env.trace)
      decreases need != 0, env.upAt - |env.trace|
    {
      var up := env.GetExitFlag();
      if up { return; }
      var ret := TryLogon(env);
      if ret != 0 { continue; }
      need := 0;
    }
  }

  /** The thread function.  Everything it does is the one thing due, so that answers and flag determine the run:
      it receives on a connection whose logon was completed and on which every receive has succeeded, with a look
      at the flag between receives, and connects again only without such a connection.  Only the last receive may
      be made otherwise, when the flag goes up inside the inner loop.  Then come logout and close. */
  method SzIoThreadFunc(env: Environment)
    requires env.Valid() && env.trace == []
    modifies env
    ensures env.Valid() && |env.trace| >= 3
    ensures env.trace[|env.trace| - 3] == ReadFlag(true) && env.trace[|env.trace| - 2].SendLogout?
            && env.trace[|env.trace| - 1] == Close
    ensures forall i :: 0 <= i < |env.trace| && env.trace[i].RecvMsg? ==>
              LoggedOn(env.trace[..i]) || (i == |env.trace| - 4 && i > env.upAt)
    ensures forall i :: 0 <= i < |env.trace| && env.trace[i].Connect? ==> !LoggedOn(env.trace[..i])
    ensures forall i :: 0 <= i < |env.trace| && env.trace[i] == RecvLogon(0) ==>
              i + 1 < |env.trace| && env.trace[i + 1].RecvMsg?
    ensures forall i :: 0 <= i < |env.trace| && env.trace[i] == ReadFlag(false) && LoggedOn(env.trace[..i]) ==>
              i + 1 < |env.trace| && env.trace[i + 1].RecvMsg?
  {
    var needReconnect := 1;
    var up := env.GetExitFlag();
    while !up
      invariant env.Valid() && AtOuterFlag(env.trace, needReconnect, up) && up == (|env.trace| > env.upAt)
      decreases env.upAt + 1 - |env.trace|
    {
      needReconnect, up := ReceiveOnce(env, needReconnect);
    }
    Leave(env);
    FlagsExact(env);
    RunExact(env.trace, env.upAt);
  }

  /** The outer loop has just read the flag. */
  ghost predicate AtOuterFlag(tr: seq<Event>, needReconnect: int, up: bool) {
    && tr != [] && tr[|tr| - 1] == ReadFlag(up)
    && Due(tr) == (if up then LogoutTurn else if needReconnect == 0 then ReceiveTurn else FlagTurn)
    && (!up && needReconnect == 0 ==> LoggedOn(tr))
  }

  /** The body of the outer loop and the look at the flag behind it. */
  method ReceiveOnce(env: Environment, needReconnect: int) returns (need: int, up: bool)
    requires env.Valid() && AtOuterFlag(env.trace, needReconnect, false)
    modifies env
    ensures env.Valid() && |env.trace| > |old(env.trace)|
    ensures AtOuterFlag(env.trace, need, up) && up == (|env.trace| > env.upAt)
  {
    need := Reconnect(env, needReconnect);
    ghost var before := env.trace;
    need := env.Call(r => RecvMsg(r));
    up := env.GetExitFlag();
    BehindReceive(before, need, up);
    assert env.trace == before + [RecvMsg(need)] + [ReadFlag(up)];
  }

  /** Logout and close. */
  method Leave(env: Environment)
    requires env.Valid() && AtOuterFlag(env.trace, 0, true)
    modifies env
    ensures env.Valid() && |env.trace| >= 3
    ensures env.trace[|env.trace| - 3] == ReadFlag(true) && env.trace[|env.trace| - 2].SendLogout?
            && env.trace[|env.trace| - 1] == Close
  {
    var _ := env.Call(r => SendLogout(r));
    var _ := env.Call(_ => Close);
  }

  lemma BehindReceive(tr: seq<Event>, ret: int, up: bool)
    ensures var t := tr + [RecvMsg(ret)] + [ReadFlag(up)];
            && LoggedOn(t) == (ret == 0 && LoggedOn(tr))
            && Due(t) == if up then LogoutTurn else if ret == 0 && LoggedOn(tr) then ReceiveTurn else FlagTurn
  {
    var t1 := tr + [RecvMsg(ret)];
    assert t1[..|tr|] == tr && (t1 + [ReadFlag(up)])[..|t1|] == t1;
  }

  lemma FlagsExact(env: Environment)
    requires env.Valid()
    ensures forall i :: 0 <= i < |env.trace| && env.trace[i].ReadFlag? ==> (env.trace[i].up <==> i >= env.upAt)
  {
    forall i | 0 <= i < |env.trace| && env.trace[i].ReadFlag? ensures env.trace[i].up <==> i >= env.upAt {
      assert env.Answered(env.trace[i], i);
    }
  }

  lemma RunExact(tr: seq<Event>, upAt: nat)
    requires Proper(tr) && |tr| >= 3 && tr[|tr| - 1] == Close
    requires forall i :: 0 <= i < |tr| && tr[i].ReadFlag? ==> (tr[i].up <==> i >= upAt)
    ensures forall i :: 0 <= i < |tr| && tr[i].RecvMsg? ==> LoggedOn(tr[..i]) || (i == |tr| - 4 && i > upAt)
    ensures forall i :: 0 <= i < |tr| && tr[i].Connect? ==> !LoggedOn(tr[..i])
    ensures forall i :: 0 <= i < |tr| && tr[i] == RecvLogon(0) ==> i + 1 < |tr| && tr[i + 1].RecvMsg?
    ensures forall i :: 0 <= i < |tr| && tr[i] == ReadFlag(false) && LoggedOn(tr[..i]) ==>
              i + 1 < |tr| && tr[i + 1].RecvMsg?
  {
    forall i | 0 <= i < |tr| && tr[i].RecvMsg? ensures LoggedOn(tr[..i]) || (i == |tr| - 4 && i > upAt) {
      ReceiveDue(tr, i);
      ReceiveThenFlag(tr, i);
    }
    forall i | 0 <= i < |tr| && tr[i].Connect? ensures !LoggedOn(tr[..i]) {
      ConnectDue(tr, i);
    }
    forall i | 0 <= i < |tr| - 1 && (tr[i] == RecvLogon(0) || (tr[i] == ReadFlag(false) && LoggedOn(tr[..i])))
      ensures tr[i + 1].RecvMsg?
    {
      ReceiveFollows(tr, i);
    }
  }
}

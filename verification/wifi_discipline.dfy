/**
 The discipline of the callers is exact: a step that breaks it opens a way to the use of a deleted command along steps
 that all keep it, and a step that keeps it opens none. The ways are built backwards, from the fault to the step.
 */
module WifiDiscipline {
  import opened WifiLifetime
  import opened WifiSafety

  /** Some disciplined continuation uses a deleted command. */
  ghost predicate CanFault(s: State) {
    exists trace :: Possible(s, trace) && DisciplinedRun(s, trace) && Run(s, trace).fault
  }

  lemma CanFaultNow(s: State)
    requires s.fault
    ensures CanFault(s)
  {
    assert Possible(s, []) && DisciplinedRun(s, []) && Run(s, []).fault;
  }

  lemma CanFaultVia(s: State, a: Action)
    requires Enabled(s, a) && Disciplined(s, a) && CanFault(Apply(s, a))
    ensures CanFault(s)
  {
    hide Apply, Enabled, Disciplined;
    var rest :| Possible(Apply(s, a), rest) && DisciplinedRun(Apply(s, a), rest) && Run(Apply(s, a), rest).fault;
    var trace := [a] + rest;
    assert trace[1..] == rest;
    assert Possible(s, trace) && DisciplinedRun(s, trace) && Run(s, trace).fault;
  }

  lemma SafeCannotFault(s: State)
    requires Inv(s)
    ensures !CanFault(s)
  {
    forall trace | Possible(s, trace) && DisciplinedRun(s, trace)
      ensures !Run(s, trace).fault
    {
      RunKeeps(s, trace);
    }
  }

  // ----- A dispatch handled to its end -----

  predicate KeysOk(s: State) {
    forall k :: 0 <= k < |s.handlers| ==> InRange(s, s.handlers[k].cmd) && s.handlers[k].key == KeyOf(s, s.handlers[k].cmd)
  }

  /** The commands are the same, and none is undeleted. */
  predicate Later(before: seq<Cmd>, now: seq<Cmd>) {
    && |before| == |now|
    && forall c :: 0 <= c < |now| ==>
         now[c].id == before[c].id && now[c].key == before[c].key && now[c].deletions >= before[c].deletions
  }

  /** A dispatch that takes what it can reach leaves this command alone. */
  predicate Aside(s: State, t: Thread, n: nat) {
    !Mentions(t, n) && !InTable(s.table, n)
  }

  /** Thread `j` went on with its dispatch, and nothing else did anything. */
  ghost predicate WentOn(s: State, s': State, j: nat) {
    && |s'.threads| == |s.threads| && s'.handlers == s.handlers && Later(s.cmds, s'.cmds)
    && (forall i :: 0 <= i < |s.threads| && i != j ==> s'.threads[i] == s.threads[i])
    && (forall n: nat :: InTable(s'.table, n) ==> InTable(s.table, n))
    && (j < |s.threads| ==>
          forall n: nat :: Aside(s, s.threads[j], n) ==>
            Aside(s', s'.threads[j], n) && (n < |s.cmds| ==> s'.cmds[n] == s.cmds[n]))
  }

  lemma WentOnAgain(s: State, s1: State, s2: State, j: nat)
    requires WentOn(s, s1, j) && WentOn(s1, s2, j)
    ensures WentOn(s, s2, j)
  {
    hide Aside, InTable;
  }

  /** The next step of a dispatch, without completing its command. */
  function NextStep(t: Thread, j: nat): Action
    requires InDispatch(t)
  {
    match t
    case DispCallback(_) => HandleEvent(j, false)
    case DispUnregistered(_) => TakeOwn(j)
    case DispTook(_, _) => DropOwner(j)
    case _ => DropDispatch(j)
  }

  function StepsLeft(t: Thread): nat {
    match t
    case DispUnregistered(_) => 3
    case DispTook(_, _) => 2
    case DispCallback(_) => 2
    case DispReleasing(_) => 1
    case _ => 0
  }

  lemma ReleaseIsLater(s: State, c: nat)
    ensures Later(s.cmds, ReleaseRef(s, c).cmds)
    ensures forall n: nat :: n < |s.cmds| && n != c ==> ReleaseRef(s, c).cmds[n] == s.cmds[n]
  {}

  lemma StepGoesOn(s: State, j: nat)
    requires j < |s.threads| && InDispatch(s.threads[j])
    ensures var s' := Apply(s, NextStep(s.threads[j], j));
      && WentOn(s, s', j) && StepsLeft(s'.threads[j]) < StepsLeft(s.threads[j])
      && (InDispatch(s'.threads[j]) || s'.threads[j].Done?)
  {
    match s.threads[j] {
      case DispUnregistered(_) => TakeOwnGoesOn(s, j);
      case DispTook(_, owned) => ReleaseIsLater(s, owned);
      case DispReleasing(c) => ReleaseIsLater(s, c);
      case _ =>
    }
  }

  lemma TakeOwnGoesOn(s: State, j: nat)
    requires j < |s.threads| && s.threads[j].DispUnregistered?
    ensures var s' := Apply(s, TakeOwn(j));
      && WentOn(s, s', j) && StepsLeft(s'.threads[j]) < StepsLeft(s.threads[j]) && InDispatch(s'.threads[j])
  {
    var s' := Apply(s, TakeOwn(j));
    var k := FindEntry(s.table, IdOf(s, s.threads[j].c));
    hide FindEntry, RemoveEntry;
    if k < |s.table| {
      forall n: nat
        ensures InTable(s'.table, n) ==> InTable(s.table, n)
      {
        InTableAfterRemoval(s.table, k, n);
      }
    }
  }

  /** Every dispatch comes to its end. */
  lemma {:induction false} SettleOne(s: State, j: nat) returns (s': State)
    requires j < |s.threads| && InDispatch(s.threads[j])
    ensures WentOn(s, s', j) && |s'.threads| == |s.threads| && s'.threads[j].Done? && (CanFault(s') ==> CanFault(s))
    decreases StepsLeft(s.threads[j])
  {
    hide CanFault, WentOn;
    var a := NextStep(s.threads[j], j);
    var s1 := Apply(s, a);
    StepGoesOn(s, j);
    WentOnSize(s, s1, j);
    if s1.threads[j].Done? {
      s' := s1;
    } else {
      s' := SettleOne(s1, j);
      WentOnAgain(s, s1, s', j);
    }
    if CanFault(s') {
      StepAllowed(s, j);
      CanFaultVia(s, a);
    }
  }

  lemma StepAllowed(s: State, j: nat)
    requires j < |s.threads| && InDispatch(s.threads[j])
    ensures var a := NextStep(s.threads[j], j); Enabled(s, a) && Disciplined(s, a)
  {}

  /** The dispatches under way are over, and nothing else did anything. */
  ghost predicate Settled(s: State, s': State) {
    && |s'.threads| == |s.threads| && s'.handlers == s.handlers && Later(s.cmds, s'.cmds)
    && (forall i :: 0 <= i < |s.threads| && !InDispatch(s.threads[i]) ==> s'.threads[i] == s.threads[i])
    && (forall n: nat :: InTable(s'.table, n) ==> InTable(s.table, n))
    && forall n: nat :: Untouched(s, n) ==> Untouched(s', n) && (n < |s.cmds| ==> s'.cmds[n] == s.cmds[n])
  }

  /** No dispatch under way can reach the command. */
  predicate Untouched(s: State, n: nat) {
    !InTable(s.table, n) && forall i :: 0 <= i < |s.threads| && InDispatch(s.threads[i]) ==> !Mentions(s.threads[i], n)
  }

  lemma SettledByOne(s: State, s': State, j: nat)
    requires j < |s.threads| && InDispatch(s.threads[j]) && WentOn(s, s', j) && s'.threads[j].Done?
    ensures Settled(s, s')
  {
    hide InTable;
    forall n: nat | Untouched(s, n)
      ensures Untouched(s', n) && (n < |s.cmds| ==> s'.cmds[n] == s.cmds[n])
    {
      assert Aside(s, s.threads[j], n);
    }
  }

  lemma SettledAgain(s: State, s1: State, s2: State)
    requires Settled(s, s1) && Settled(s1, s2)
    ensures Settled(s, s2)
  {
    hide Untouched, InTable;
  }

  /** All of them, one after the other. */
  lemma {:induction false} Settle(s: State, j: nat) returns (s': State)
    requires j <= |s.threads| && forall i :: 0 <= i < j ==> !InDispatch(s.threads[i])
    ensures Settled(s, s') && Waiting(s'.threads) && (CanFault(s') ==> CanFault(s))
    decreases |s.threads| - j
  {
    hide CanFault, WentOn, Settled;
    if j == |s.threads| {
      s' := s;
      SettledAlready(s);
    } else if InDispatch(s.threads[j]) {
      var s1 := SettleOne(s, j);
      SettledByOne(s, s1, j);
      OneSettled(s, s1, j);
      s' := Settle(s1, j + 1);
      SettledAgain(s, s1, s');
    } else {
      s' := Settle(s, j + 1);
    }
  }

  lemma SettledAlready(s: State)
    ensures Settled(s, s)
  {}

  lemma WentOnSize(s: State, s': State, j: nat)
    requires WentOn(s, s', j)
    ensures |s'.threads| == |s.threads|
  {}

  lemma OneSettled(s: State, s': State, j: nat)
    requires WentOn(s, s', j)
    ensures |s'.threads| == |s.threads| && forall i :: 0 <= i < |s.threads| && i != j ==> s'.threads[i] == s.threads[i]
  {}

  // ----- An event that completes its command -----

  /** An event is dispatched to the handler at `k`, and completes it. */
  function Completed(s: State, k: nat): State
    requires KeysOk(s) && k < |s.handlers|
  {
    var c := s.handlers[k].cmd;
    var x := s.cmds[c];
    s.(cmds := s.cmds[c := x.(refs := x.refs + 1)], handlers := s.handlers[..k] + s.handlers[k + 1..],
       threads := s.threads + [DispUnregistered(c)], fault := s.fault || x.deletions != 0)
  }

  lemma KeysStay(s: State, s': State)
    requires KeysOk(s) && Later(s.cmds, s'.cmds) && forall j :: 0 <= j < |s'.handlers| ==> s'.handlers[j] in s.handlers
    ensures KeysOk(s')
  {}

  lemma CanFaultByEvent(s: State, key: Key)
    requires KeysOk(s) && Waiting(s.threads) && FindHandler(s.handlers, key) < |s.handlers|
    requires CanFault(Completed(s, FindHandler(s.handlers, key)))
    ensures CanFault(s)
  {
    var k, n := FindHandler(s.handlers, key), |s.threads|;
    var c := s.handlers[k].cmd;
    var s1 := Apply(s, Dispatch(key));
    hide FindHandler, CanFault;
    assert s1.threads[n] == DispCallback(c) && KeyOf(s1, c) == key;
    var s2 := Apply(s1, HandleEvent(n, true));
    assert s2.threads == s.threads + [DispUnregistered(c)];
    assert s2 == Completed(s, k);
    assert Disciplined(s, Dispatch(key)) && Disciplined(s1, HandleEvent(n, true));
    hide Apply, Completed, Disciplined;
    CanFaultVia(s1, HandleEvent(n, true));
    CanFaultVia(s, Dispatch(key));
  }

  /** The event is handled to its end: the handler is gone, and the event loop waits for the next. */
  ghost predicate Handled(s: State, s': State, k: nat)
    requires k < |s.handlers|
  {
    && s'.handlers == s.handlers[..k] + s.handlers[k + 1..] && s'.threads == s.threads + [Done]
    && Later(s.cmds, s'.cmds) && (forall n: nat :: InTable(s'.table, n) ==> InTable(s.table, n))
    && forall n: nat :: !InTable(s.table, n) && n != s.handlers[k].cmd && n < |s.cmds| ==> s'.cmds[n] == s.cmds[n]
  }

  lemma EventHandled(s: State, key: Key) returns (s': State)
    requires KeysOk(s) && Waiting(s.threads) && FindHandler(s.handlers, key) < |s.handlers|
    ensures Handled(s, s', FindHandler(s.handlers, key)) && Waiting(s'.threads) && KeysOk(s')
    ensures CanFault(s') ==> CanFault(s)
  {
    var k, n := FindHandler(s.handlers, key), |s.threads|;
    hide FindHandler, CanFault, WentOn;
    var s1 := Completed(s, k);
    assert s1.threads[n] == DispUnregistered(s.handlers[k].cmd);
    s' := SettleOne(s1, n);
    CompletedHandled(s, s', k);
    KeysStay(s, s');
    if CanFault(s') {
      CanFaultByEvent(s, key);
    }
  }

  lemma CompletedHandled(s: State, s': State, k: nat)
    requires KeysOk(s) && Waiting(s.threads) && k < |s.handlers|
    requires WentOn(Completed(s, k), s', |s.threads|) && |s'.threads| > |s.threads| && s'.threads[|s.threads|].Done?
    ensures Handled(s, s', k) && Waiting(s'.threads)
    ensures forall j :: 0 <= j < |s'.handlers| ==> s'.handlers[j] in s.handlers
  {
    var s1, n := Completed(s, k), |s.threads|;
    assert s'.threads == s.threads + [Done];
    forall m: nat | !InTable(s.table, m) && m != s.handlers[k].cmd && m < |s.cmds|
      ensures s'.cmds[m] == s.cmds[m]
    {
      assert Aside(s1, s1.threads[n], m);
    }
    hide InTable, Aside;
    assert forall j :: 0 <= j < |s'.handlers| ==> s'.handlers[j] == s.handlers[if j < k then j else j + 1];
  }

  // ----- A handler whose command is deleted -----

  /** Events for its key reach it in the end, as each one that completes takes the handler before it away. */
  lemma {:induction false} DeletedIsReached(s: State, p: nat)
    requires KeysOk(s) && Waiting(s.threads) && p < |s.handlers| && s.cmds[s.handlers[p].cmd].deletions > 0
    ensures CanFault(s)
    decreases p
  {
    var key := s.handlers[p].key;
    var k := FindHandler(s.handlers, key);
    assert k <= p;
    if k == p {
      CanFaultNow(Apply(s, Dispatch(key)));
      CanFaultVia(s, Dispatch(key));
    } else {
      hide FindHandler, CanFault, Waiting;
      var s' := EventHandled(s, key);
      assert s'.handlers[p - 1] == s.handlers[p];
      DeletedIsReached(s', p - 1);
    }
  }

  lemma DeletedHandlerFaults(s: State, p: nat)
    requires KeysOk(s) && p < |s.handlers| && s.cmds[s.handlers[p].cmd].deletions > 0
    ensures CanFault(s)
  {
    hide CanFault, Waiting;
    var s' := Settle(s, 0);
    KeysStay(s, s');
    DeletedIsReached(s', p);
  }

  // ----- A cancel while the request is inside start() -----

  lemma OthersHoldNothing(threads: seq<Thread>, i: nat)
    requires i < |threads| && threads[i].ReqInTable? && RequestsAlone(threads)
    ensures Held(threads, threads[i].c) == 0
  {
    var c := threads[i].c;
    HeldUpdate(threads, i, Done, c);
    HeldNone(threads[i := Done], c);
  }

  /** The one token of a command inside start() is its table entry. */
  lemma OnlyTheTable(s: State, i: nat)
    requires Inv(s) && i < |s.threads| && s.threads[i].ReqInTable? && InTable(s.table, s.threads[i].c)
    ensures s.threads[i].c < |s.cmds| && s.cmds[s.threads[i].c].refs == 1
  {
    var c := s.threads[i].c;
    ListedIff(s.table, c);
    OthersHoldNothing(s.threads, i);
    assert Owner(s, c) <= 1;
    HeldSplits(s.threads, c);
    assert s.cmds[c].refs == Tokens(s, c);
  }

  /** A cancel that has taken the one token goes through, and deletes the command. */
  lemma CancelDeletes(s: State, n: nat, c: nat)
    requires n < |s.threads| && s.threads[n] == CancelTook(c) && c < |s.cmds| && s.cmds[c].refs == 1
    ensures var s1 := Apply(s, CancelUnregister(n)); Enabled(s1, CancelRelease(n)) && var s2 := Apply(s1, CancelRelease(n));
      && s2.cmds == s.cmds[c := s.cmds[c].(refs := 0, deletions := s.cmds[c].deletions + 1)]
      && s2.handlers == RemoveHandler(s.handlers, KeyOf(s, c)) && s2.threads == s.threads[n := Done]
      && (CanFault(s2) ==> CanFault(s))
  {
    hide RemoveHandler, CanFault;
    var s1 := Apply(s, CancelUnregister(n));
    assert s1.threads == s.threads[n := CancelUnregistered(c)];
    var s2 := Apply(s1, CancelRelease(n));
    assert s2.threads == s.threads[n := Done];
    if CanFault(s2) {
      CanFaultVia(s1, CancelRelease(n));
      CanFaultVia(s, CancelUnregister(n));
    }
  }

  /** A cancel that deletes a command leaves its request to use it. */
  lemma CancelledRequestFaults(s: State, n: nat, c: nat, i: nat)
    requires n < |s.threads| && s.threads[n] == CancelTook(c) && c < |s.cmds| && s.cmds[c].refs == 1
    requires i < |s.threads| && s.threads[i] == ReqInTable(c)
    ensures CanFault(s)
  {
    CancelDeletes(s, n, c);
    var e := Apply(Apply(s, CancelUnregister(n)), CancelRelease(n));
    hide RemoveHandler, CanFault;
    assert e.threads[i] == ReqInTable(c) && e.cmds[c].deletions > 0;
    CanFaultNow(Apply(e, FinishStart(i, false)));
    CanFaultVia(e, FinishStart(i, false));
  }

  lemma CancelDuringRequestFaults(s: State, id: int)
    requires Inv(s) && !Disciplined(s, CancelBegin(id))
    ensures CanFault(Apply(s, CancelBegin(id)))
  {
    var c := s.table[FindEntry(s.table, id)].cmd;
    var i :| 0 <= i < |s.threads| && s.threads[i] == ReqInTable(c);
    OnlyTheTable(s, i);
    hide Inv, FindEntry, RemoveEntry, CanFault;
    CancelledRequestFaults(Apply(s, CancelBegin(id)), |s.threads|, c, i);
  }

  // ----- A second handler for an event -----

  /** `c` is in the table, held by that alone, and its handler stands last, behind another of its event. */
  predicate Hidden(s: State, c: nat) {
    && KeysOk(s) && c < |s.cmds| && s.cmds[c].refs == 1 && s.cmds[c].deletions == 0
    && |s.handlers| > 0 && s.handlers[|s.handlers| - 1].cmd == c
    && FindHandler(s.handlers, KeyOf(s, c)) < |s.handlers| - 1
  }

  /** No request stands in the way of cancelling the commands of this id. */
  predicate Cancellable(s: State, id: int) {
    forall i, k :: 0 <= i < |s.threads| && 0 <= k < |s.table| && s.threads[i] == ReqInTable(s.table[k].cmd) ==>
      s.table[k].id != id
  }

  lemma HiddenCancelled(s: State, n: nat, c: nat)
    requires Hidden(s, c) && n < |s.threads| && s.threads[n] == CancelTook(c)
    ensures CanFault(s)
  {
    CancelDeletes(s, n, c);
    var e := Apply(Apply(s, CancelUnregister(n)), CancelRelease(n));
    var key := KeyOf(s, c);
    RemovalLeaves(s.handlers, key);
    hide FindHandler, RemoveHandler, CanFault;
    assert forall j :: 0 <= j < |e.handlers| ==> e.handlers[j] in s.handlers;
    assert KeysOk(e);
    assert e.handlers[|e.handlers| - 1].cmd == c;
    DeletedHandlerFaults(e, |e.handlers| - 1);
  }

  /** Cancels by the id take the entries before that of `c`, and then its own. */
  lemma {:induction false} HiddenFaults(s: State, c: nat, p: nat)
    requires Hidden(s, c) && p < |s.table| && s.table[p] == Entry(IdOf(s, c), c) && Cancellable(s, IdOf(s, c))
    ensures CanFault(s)
    decreases p
  {
    var id := IdOf(s, c);
    var k := FindEntry(s.table, id);
    var s' := Apply(s, CancelBegin(id));
    hide FindEntry, FindHandler, CanFault;
    assert k <= p;
    var d := s.table[k].cmd;
    assert s'.threads == s.threads + [CancelTook(d)] && s'.table == s.table[..k] + s.table[k + 1..];
    assert Hidden(s', c) && IdOf(s', c) == id;
    if d == c {
      HiddenCancelled(s', |s.threads|, c);
    } else {
      assert s'.table[p - 1] == s.table[p];
      assert Cancellable(s', id) by {
        assert forall j :: 0 <= j < |s'.table| ==> s'.table[j] == s.table[if j < k then j else j + 1];
      }
      HiddenFaults(s', c, p - 1);
    }
    assert Disciplined(s, CancelBegin(id));
    CanFaultVia(s, CancelBegin(id));
  }

  lemma SecondIsHidden(h: seq<Handler>, x: Handler)
    requires FindHandler(h, x.key) < |h|
    ensures FindHandler(h + [x], x.key) < |h|
  {
    var k := FindHandler(h, x.key);
    assert (h + [x])[k].key == x.key;
  }

  /** Only the request itself is under way for its id. */
  lemma RequestsOfId(s: State, i: nat)
    requires Inv(s) && i < |s.threads| && s.threads[i].ReqInTable?
    ensures Cancellable(s.(threads := s.threads[i := Done]), IdOf(s, s.threads[i].c))
  {
    var c, t := s.threads[i].c, s.threads[i := Done];
    assert UsesId(s.threads[i], c) && Active(s, c);
    forall j, k | 0 <= j < |t| && 0 <= k < |s.table| && t[j] == ReqInTable(s.table[k].cmd)
      ensures s.table[k].id != IdOf(s, c)
    {
      var d := s.table[k].cmd;
      assert j != i && Mentions(s.threads[j], d) && InRequest(s.threads[i]) && d != c;
      assert UsesId(s.threads[j], d) && Active(s, d);
    }
  }

  lemma SecondRegistrationFaults(s: State, i: nat)
    requires Inv(s) && Enabled(s, FinishStart(i, true)) && !Disciplined(s, FinishStart(i, true))
    ensures CanFault(Apply(s, FinishStart(i, true)))
  {
    var c := s.threads[i].c;
    var x := Handler(KeyOf(s, c), c);
    OnlyTheTable(s, i);
    RequestsOfId(s, i);
    SecondIsHidden(s.handlers, x);
    assert s.cmds[c].deletions == 0;
    var p :| 0 <= p < |s.table| && s.table[p].cmd == c;
    assert s.table[p] == Entry(IdOf(s, c), c);
    assert KeysOk(s);
    var s' := Apply(s, FinishStart(i, true));
    hide Inv, FindHandler, CanFault;
    assert s' == s.(threads := s.threads[i := Done], handlers := s.handlers + [x]);
    hide Apply, Disciplined, Enabled, Listed;
    assert KeysOk(s');
    assert Hidden(s', c) && Cancellable(s', IdOf(s', c));
    HiddenFaults(s', c, p);
  }

  // ----- Two commands with one id -----

  /** Request `m` has made `n`, and nothing else knows of it. */
  predicate Newcomer(s: State, m: nat, n: nat) {
    && KeysOk(s) && m < |s.threads| && s.threads[m] == ReqCreated(n) && n < |s.cmds| && s.cmds[n].refs == 1
    && (forall k :: 0 <= k < |s.handlers| ==> s.handlers[k].cmd != n) && Untouched(s, n)
  }

  lemma NewcomerStays(s: State, s': State, m: nat, n: nat)
    requires Newcomer(s, m, n) && s'.cmds == s.cmds && m < |s'.threads| && s'.threads[m] == s.threads[m]
    requires (forall j :: 0 <= j < |s'.handlers| ==> s'.handlers[j] in s.handlers) && Untouched(s', n)
    ensures Newcomer(s', m, n)
  {
    hide Untouched;
  }

  /** Thread `t` is about to look for a command of the newcomer's id. */
  predicate Seeks(s: State, t: nat, n: nat) {
    t < |s.threads| && s.threads[t].DispUnregistered? && s.threads[t].c < |s.cmds| && IdOf(s, s.threads[t].c) == IdOf(s, n)
  }

  /** It finds the newcomer's entry instead of its own, and takes its one reference. */
  lemma NewcomerIsTaken(s: State, m: nat, n: nat, t: nat)
    requires Newcomer(s, m, n) && Seeks(s, t, n) && s.table == []
    ensures CanFault(s)
  {
    hide CanFault;
    var s1 := Apply(s, RegisterCmd(m));
    assert s1.table == [Entry(IdOf(s, n), n)] && s1.threads == s.threads[m := ReqInTable(n)] && s1.cmds == s.cmds;
    EntryIsTaken(s1, m, n, t);
    CanFaultVia(s, RegisterCmd(m));
  }

  lemma EntryIsTaken(s: State, m: nat, n: nat, t: nat)
    requires m < |s.threads| && s.threads[m] == ReqInTable(n) && n < |s.cmds| && s.cmds[n].refs == 1
    requires Seeks(s, t, n) && s.table == [Entry(IdOf(s, n), n)]
    ensures CanFault(s)
  {
    hide CanFault;
    var d := s.threads[t].c;
    var s2 := Apply(s, TakeOwn(t));
    assert FindEntry(s.table, IdOf(s, d)) == 0;
    assert s2.threads == s.threads[t := DispTook(d, n)] && s2.cmds == s.cmds;
    TakenIsReleased(s2, m, n, t);
    CanFaultVia(s, TakeOwn(t));
  }

  lemma TakenIsReleased(s: State, m: nat, n: nat, t: nat)
    requires m < |s.threads| && s.threads[m] == ReqInTable(n) && n < |s.cmds| && s.cmds[n].refs == 1
    requires t < |s.threads| && s.threads[t].DispTook? && s.threads[t].owned == n
    ensures CanFault(s)
  {
    hide CanFault;
    var s3 := Apply(s, DropOwner(t));
    assert s3.threads[m] == ReqInTable(n) && s3.cmds[n].deletions > 0;
    CanFaultNow(Apply(s3, FinishStart(m, false)));
    CanFaultVia(s3, FinishStart(m, false));
    CanFaultVia(s, DropOwner(t));
  }

  /** With no request inside start() the table can be cancelled empty. */
  lemma {:induction false} TableEmptied(s: State, m: nat, n: nat, t: nat)
    requires Newcomer(s, m, n) && Seeks(s, t, n) && forall j :: 0 <= j < |s.threads| ==> !s.threads[j].ReqInTable?
    ensures CanFault(s)
    decreases |s.table|
  {
    hide CanFault;
    if s.table == [] {
      NewcomerIsTaken(s, m, n, t);
    } else {
      var a := CancelBegin(s.table[0].id);
      assert FindEntry(s.table, s.table[0].id) == 0;
      var s' := Apply(s, a);
      assert s'.table == s.table[1..] && s'.threads == s.threads + [CancelTook(s.table[0].cmd)];
      NewcomerStays(s, s', m, n);
      TableEmptied(s', m, n, t);
      CanFaultVia(s, a);
    }
  }

  /** The requests inside start() from `j` on fail. */
  lemma {:induction false} RequestsFail(s: State, m: nat, n: nat, t: nat, j: nat)
    requires Newcomer(s, m, n) && Seeks(s, t, n) && j <= |s.threads|
    requires forall i :: 0 <= i < j ==> !s.threads[i].ReqInTable?
    ensures CanFault(s)
    decreases |s.threads| - j
  {
    hide CanFault;
    if j == |s.threads| {
      TableEmptied(s, m, n, t);
    } else if s.threads[j].ReqInTable? {
      var s' := Apply(s, FinishStart(j, false));
      assert s'.threads == s.threads[j := Done] && s'.cmds == s.cmds && s'.handlers == s.handlers;
      NewcomerStays(s, s', m, n);
      RequestsFail(s', m, n, t, j + 1);
      CanFaultVia(s, FinishStart(j, false));
    } else {
      RequestsFail(s, m, n, t, j + 1);
    }
  }

  /** Another command of the newcomer's id. */
  predicate Namesake(s: State, d: nat, n: nat) {
    d < |s.cmds| && d != n && IdOf(s, d) == IdOf(s, n)
  }

  lemma HandledNewcomer(s: State, s': State, m: nat, n: nat, d: nat, k: nat)
    requires Newcomer(s, m, n) && Namesake(s, d, n) && k < |s.handlers| && Handled(s, s', k) && KeysOk(s')
    ensures Newcomer(s', m, n) && Namesake(s', d, n)
  {
    hide KeysOk, InTable;
    assert forall j :: 0 <= j < |s'.handlers| ==> s'.handlers[j] == s.handlers[if j < k then j else j + 1];
  }

  lemma SettledNewcomer(s: State, s': State, m: nat, n: nat, d: nat)
    requires Newcomer(s, m, n) && Namesake(s, d, n) && Settled(s, s')
    ensures Newcomer(s', m, n) && Namesake(s', d, n)
  {
    KeysStay(s, s');
    hide KeysOk, InTable, Untouched;
  }

  /** A namesake completes by an event of its own. */
  lemma NamesakeCompletes(s: State, m: nat, n: nat, d: nat, k: nat)
    requires Newcomer(s, m, n) && Namesake(s, d, n) && Waiting(s.threads)
    requires k < |s.handlers| && s.handlers[k].cmd == d && FindHandler(s.handlers, s.handlers[k].key) == k
    ensures CanFault(s)
  {
    hide FindHandler, CanFault, InTable;
    var s' := Completed(s, k);
    assert s'.threads[|s.threads|] == DispUnregistered(d);
    assert forall j :: 0 <= j < |s'.handlers| ==> s'.handlers[j] == s.handlers[if j < k then j else j + 1];
    KeysStay(s, s');
    assert Newcomer(s', m, n);
    RequestsFail(s', m, n, |s.threads|, 0);
    CanFaultByEvent(s, s.handlers[k].key);
  }

  /** A namesake with a handler is reached. */
  lemma {:induction false} HandlerReached(s: State, m: nat, n: nat, d: nat, p: nat)
    requires Newcomer(s, m, n) && Namesake(s, d, n) && Waiting(s.threads) && p < |s.handlers| && s.handlers[p].cmd == d
    ensures CanFault(s)
    decreases p
  {
    var key := s.handlers[p].key;
    var k := FindHandler(s.handlers, key);
    hide FindHandler, CanFault, Waiting, Newcomer;
    assert k <= p && s.handlers[k].key == key;
    if s.handlers[k].cmd == d {
      NamesakeCompletes(s, m, n, d, k);
    } else {
      KeysOfNewcomer(s, m, n);
      var s' := EventHandled(s, key);
      HandledNewcomer(s, s', m, n, d, k);
      assert s'.handlers[p - 1] == s.handlers[p];
      HandlerReached(s', m, n, d, p - 1);
    }
  }

  lemma KeysOfNewcomer(s: State, m: nat, n: nat)
    requires Newcomer(s, m, n)
    ensures KeysOk(s)
  {}

  /** A namesake inside start() gets a handler, once no other is left. */
  lemma {:induction false} StartReached(s: State, m: nat, n: nat, d: nat, i: nat)
    requires Newcomer(s, m, n) && Namesake(s, d, n) && Waiting(s.threads)
    requires i < |s.threads| && s.threads[i] == ReqInTable(d)
    ensures CanFault(s)
    decreases |s.handlers|
  {
    hide CanFault, Waiting, Newcomer;
    if s.handlers == [] {
      NamesakeStarts(s, m, n, d, i);
    } else {
      var key := s.handlers[0].key;
      assert FindHandler(s.handlers, key) == 0;
      KeysOfNewcomer(s, m, n);
      var s' := EventHandled(s, key);
      HandledNewcomer(s, s', m, n, d, 0);
      StartReached(s', m, n, d, i);
    }
  }

  lemma StartedNewcomer(s: State, s': State, m: nat, n: nat, d: nat, i: nat)
    requires Newcomer(s, m, n) && Namesake(s, d, n) && Waiting(s.threads) && s.handlers == []
    requires i < |s.threads| && s.threads[i] == ReqInTable(d) && s'.threads == s.threads[i := Done]
    requires s'.handlers == [Handler(KeyOf(s, d), d)] && s'.cmds == s.cmds && s'.table == s.table && s'.leaked == s.leaked
    ensures Newcomer(s', m, n) && Waiting(s'.threads)
  {
    hide InTable;
  }

  lemma NamesakeStarts(s: State, m: nat, n: nat, d: nat, i: nat)
    requires Newcomer(s, m, n) && Namesake(s, d, n) && Waiting(s.threads)
    requires i < |s.threads| && s.threads[i] == ReqInTable(d) && s.handlers == []
    ensures CanFault(s)
  {
    hide CanFault, InTable, Newcomer;
    var s' := Apply(s, FinishStart(i, true));
    assert s'.handlers == [Handler(KeyOf(s, d), d)] && s'.cmds == s.cmds && s'.threads == s.threads[i := Done];
    assert s'.table == s.table && s'.leaked == s.leaked;
    hide Apply;
    StartedNewcomer(s, s', m, n, d, i);
    HandlerReached(s', m, n, d, 0);
    CanFaultVia(s, FinishStart(i, true));
  }

  lemma NamesakeRegisters(s: State, m: nat, n: nat, d: nat, i: nat)
    requires Newcomer(s, m, n) && Namesake(s, d, n) && Waiting(s.threads)
    requires i < |s.threads| && s.threads[i] == ReqCreated(d)
    ensures CanFault(s)
  {
    hide CanFault;
    var s' := Apply(s, RegisterCmd(i));
    assert s'.threads == s.threads[i := ReqInTable(d)] && s'.cmds == s.cmds && s'.handlers == s.handlers;
    InTableAppend(s, s', n, d);
    hide InTable;
    assert Newcomer(s', m, n);
    StartReached(s', m, n, d, i);
    CanFaultVia(s, RegisterCmd(i));
  }

  /** A namesake that can still complete looks for its entry by the id in the end. */
  lemma NamesakeFaults(s: State, m: nat, n: nat, d: nat)
    requires Newcomer(s, m, n) && Namesake(s, d, n) && Active(s, d)
    ensures CanFault(s)
  {
    hide CanFault, Waiting, Newcomer, InTable, Untouched;
    var s' := Settle(s, 0);
    SettledNewcomer(s, s', m, n, d);
    if HasHandler(s, d) {
      var p :| 0 <= p < |s.handlers| && s.handlers[p].cmd == d;
      HandlerReached(s', m, n, d, p);
    } else {
      var i :| 0 <= i < |s.threads| && UsesId(s.threads[i], d);
      match s.threads[i] {
        case ReqCreated(_) => NamesakeRegisters(s', m, n, d, i);
        case ReqInTable(_) => StartReached(s', m, n, d, i);
        case DispCallback(_) => CallbackCompletes(s, m, n, d, i);
        case DispUnregistered(_) => RequestsFail(s, m, n, i, 0);
      }
    }
  }

  lemma CallbackDone(s: State, i: nat, d: nat)
    requires i < |s.threads| && s.threads[i] == DispCallback(d)
    ensures var s' := Apply(s, HandleEvent(i, true));
      && s'.threads == s.threads[i := DispUnregistered(d)] && s'.cmds == s.cmds && s'.table == s.table
      && forall j :: 0 <= j < |s'.handlers| ==> s'.handlers[j] in s.handlers
    ensures Disciplined(s, HandleEvent(i, true))
  {
    RemovalLeaves(s.handlers, KeyOf(s, d));
    hide FindHandler, RemoveHandler;
  }

  lemma CallbackCompletes(s: State, m: nat, n: nat, d: nat, i: nat)
    requires Newcomer(s, m, n) && Namesake(s, d, n) && i < |s.threads| && s.threads[i] == DispCallback(d)
    ensures CanFault(s)
  {
    assert Enabled(s, HandleEvent(i, true)) && Mentions(s.threads[i], d);
    CallbackDone(s, i, d);
    hide CanFault, Apply, Enabled, Disciplined, KeysOk, InTable;
    var s' := Apply(s, HandleEvent(i, true));
    assert Untouched(s', n);
    NewcomerStays(s, s', m, n);
    RequestsFail(s', m, n, i, 0);
    CanFaultVia(s, HandleEvent(i, true));
  }

  lemma LiveDuplicateFaults(s: State, id: int, key: Key)
    requires Inv(s) && !Disciplined(s, NewRequest(id, key))
    ensures CanFault(Apply(s, NewRequest(id, key)))
  {
    var s' := Apply(s, NewRequest(id, key));
    var d :| 0 <= d < |s.cmds| && Active(s, d) && s.cmds[d].id == id;
    assert KeysOk(s) && forall k :: 0 <= k < |s.handlers| ==> s.handlers[k].cmd < |s.cmds|;
    FreshIsUnknown(s);
    assert Untouched(s', |s.cmds|);
    hide Inv, CanFault, Untouched;
    assert Newcomer(s', |s.threads|, |s.cmds|) && Namesake(s', d, |s.cmds|);
    assert Active(s', d) by {
      if !HasHandler(s, d) {
        var i :| 0 <= i < |s.threads| && UsesId(s.threads[i], d);
        assert UsesId(s'.threads[i], d);
      }
    }
    NamesakeFaults(s', |s.threads|, |s.cmds|, d);
  }

  // ----- The discipline is exact -----

  /**
   From every state that a disciplined run reaches: a step keeps every disciplined continuation free of the use of a
   deleted command if and only if the step keeps the discipline.
   */
  lemma StepSafeIff(s: State, a: Action)
    requires Inv(s) && Enabled(s, a)
    ensures Disciplined(s, a) <==> !CanFault(Apply(s, a))
  {
    hide CanFault, Inv;
    if Disciplined(s, a) {
      hide Apply, Enabled, Disciplined;
      StepKeeps(s, a);
      SafeCannotFault(Apply(s, a));
    } else {
      match a {
        case NewRequest(id, key) => LiveDuplicateFaults(s, id, key);
        case FinishStart(i, ok) => SecondRegistrationFaults(s, i);
        case CancelBegin(id) => CancelDuringRequestFaults(s, id);
      }
    }
  }

  /** No step of the run opens a way to the use of a deleted command. */
  ghost predicate NeverExposed(s: State, trace: seq<Action>)
    requires Possible(s, trace)
    decreases |trace|
  {
    trace == [] || (!CanFault(Apply(s, trace[0])) && NeverExposed(Apply(s, trace[0]), trace[1..]))
  }

  lemma {:induction false} RunSafeIff(s: State, trace: seq<Action>)
    requires Inv(s) && Possible(s, trace)
    ensures DisciplinedRun(s, trace) <==> NeverExposed(s, trace)
    decreases |trace|
  {
    hide Inv, Apply, Enabled, Disciplined, CanFault;
    if trace != [] {
      StepSafeIff(s, trace[0]);
      if Disciplined(s, trace[0]) {
        StepKeeps(s, trace[0]);
        RunSafeIff(Apply(s, trace[0]), trace[1..]);
      }
    }
  }
}

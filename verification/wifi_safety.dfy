/**
 Under the discipline of the callers no interleaving uses a deleted command. Where the token of a command is, says
 whether it is safe to use; where its handler stands among those of its event, says that removing one removes its.
 */
module WifiSafety {
  import opened WifiLifetime

  // ----- The invariant -----

  predicate Mentions(t: Thread, c: nat) {
    !t.Done? && (t.c == c || (t.DispTook? && t.owned == c))
  }

  predicate InRequest(t: Thread) {
    t.ReqCreated? || t.ReqInTable?
  }

  /** The thread has removed the handler of its command and goes on to release a reference of an owner. */
  predicate PastRemoval(t: Thread) {
    t.DispUnregistered? || t.DispTook? || t.CancelUnregistered?
  }

  predicate RangesOk(s: State) {
    && (forall i :: 0 <= i < |s.handlers| ==> InRange(s, s.handlers[i].cmd) && s.handlers[i].key == KeyOf(s, s.handlers[i].cmd))
    && (forall i :: 0 <= i < |s.table| ==> InRange(s, s.table[i].cmd) && s.table[i].id == IdOf(s, s.table[i].cmd))
    && (forall i :: 0 <= i < |s.threads| && !s.threads[i].Done? ==> InRange(s, s.threads[i].c))
    && (forall i :: 0 <= i < |s.threads| && s.threads[i].DispTook? ==> InRange(s, s.threads[i].owned))
    && (forall c :: c in s.leaked ==> InRange(s, c))
  }

  /** A reference count is the number of its tokens, and only zero means deleted. */
  predicate CountsOk(s: State) {
    forall c :: 0 <= c < |s.cmds| ==>
      s.cmds[c].refs == Tokens(s, c) && s.cmds[c].deletions == if s.cmds[c].refs == 0 then 1 else 0
  }

  /** The owner's token of `c` is where the handler's removal still comes before its release. */
  predicate Anchored(s: State, c: nat) {
    InTable(s.table, c) || c in s.leaked || exists i :: 0 <= i < |s.threads| && s.threads[i] == CancelTook(c)
  }

  /** A command whose request is under way is known to no other thread. */
  predicate RequestsAlone(threads: seq<Thread>) {
    forall i, j :: 0 <= i < |threads| && 0 <= j < |threads| && i != j && InRequest(threads[i]) ==>
      !Mentions(threads[j], threads[i].c)
  }

  /** Nor has it a handler; it is in the table, or found it full, as soon as it has been there. */
  predicate RequestOk(s: State, t: Thread) {
    InRequest(t) ==>
      && !HasHandler(s, t.c)
      && (t.ReqInTable? <==> InTable(s.table, t.c) || t.c in s.leaked)
  }

  predicate RequestsOk(s: State) {
    RequestsAlone(s.threads) && forall i :: 0 <= i < |s.threads| ==> RequestOk(s, s.threads[i])
  }

  /** A handler's command is anchored; a thread past the removal has none. */
  predicate HandlersOk(s: State) {
    && (forall i :: 0 <= i < |s.handlers| ==> Anchored(s, s.handlers[i].cmd))
    && (forall i :: 0 <= i < |s.threads| && PastRemoval(s.threads[i]) ==> !HasHandler(s, s.threads[i].c))
  }

  /** What the references say. */
  predicate Core(s: State) {
    !s.fault && RangesOk(s) && CountsOk(s) && RequestsOk(s) && HandlersOk(s)
  }

  /** A handler of `c` is the first for its event. */
  predicate FirstOfKey(h: seq<Handler>, c: nat) {
    forall j, k :: 0 <= j < k < |h| && h[k].cmd == c ==> h[j].key != h[k].key
  }

  predicate Distinct(h: seq<Handler>) {
    forall j, k :: 0 <= j < k < |h| ==> h[j].cmd != h[k].cmd
  }

  /** No command has two handlers, and only one that found the command table full stands behind another of its event. */
  predicate OrderOk(s: State) {
    && Distinct(s.handlers)
    && (forall k :: 0 <= k < |s.handlers| && s.handlers[k].cmd !in s.leaked ==> FirstOfKey(s.handlers, s.handlers[k].cmd))
    && (forall i :: 0 <= i < |s.threads| && s.threads[i].DispCallback? ==> FirstOfKey(s.handlers, s.threads[i].c))
  }

  /** Of the commands with one id at most one can still complete. */
  predicate IdsOk(s: State) {
    forall c, d :: 0 <= c < d < |s.cmds| && Active(s, c) && Active(s, d) ==> s.cmds[c].id != s.cmds[d].id
  }

  ghost predicate OwnersOk(s: State) {
    forall c: nat :: Owner(s, c) <= 1
  }

  /** The one event loop handles one event after the other. */
  predicate OneDispatch(threads: seq<Thread>) {
    forall i, j :: 0 <= i < j < |threads| ==> !InDispatch(threads[i]) || !InDispatch(threads[j])
  }

  ghost predicate Inv(s: State) {
    Core(s) && OrderOk(s) && IdsOk(s) && OwnersOk(s) && OneDispatch(s.threads)
  }

  lemma InitInv(s: State)
    requires Init(s)
    ensures Inv(s)
  {}

  // ----- Counts -----

  lemma CountsAfterGo(s: State, i: nat, t: Thread)
    requires i < |s.threads|
    ensures forall c: nat :: Held(s.threads[i := t], c) + HeldBy(s.threads[i], c) == Held(s.threads, c) + HeldBy(t, c)
  {
    forall c: nat
      ensures Held(s.threads[i := t], c) + HeldBy(s.threads[i], c) == Held(s.threads, c) + HeldBy(t, c)
    {
      HeldUpdate(s.threads, i, t, c);
    }
  }

  lemma CountsAfterAppend(s: State, t: Thread)
    ensures forall c: nat :: Held(s.threads + [t], c) == Held(s.threads, c) + HeldBy(t, c)
  {
    forall c: nat
      ensures Held(s.threads + [t], c) == Held(s.threads, c) + HeldBy(t, c)
    {
      HeldAppend(s.threads, t, c);
    }
  }

  lemma CountsAfterRemove(s: State, k: nat)
    requires k < |s.table|
    ensures forall c: nat ::
      Listed(RemoveEntry(s.table, k), c) + (if s.table[k].cmd == c then 1 else 0) == Listed(s.table, c)
  {
    forall c: nat
      ensures Listed(RemoveEntry(s.table, k), c) + (if s.table[k].cmd == c then 1 else 0) == Listed(s.table, c)
    {
      ListedRemove(s.table, k, c);
    }
  }

  /** Whoever holds a token of a command may use it. */
  lemma HolderIsSafe(s: State, i: nat, c: nat)
    requires CountsOk(s) && i < |s.threads| && c < |s.cmds| && HeldBy(s.threads[i], c) > 0
    ensures s.cmds[c].refs >= HeldBy(s.threads[i], c) && s.cmds[c].deletions == 0
  {
    HeldAtLeast(s.threads, i, c);
    assert s.cmds[c].refs == Tokens(s, c);
  }

  lemma AnchorIsSafe(s: State, c: nat)
    requires CountsOk(s) && c < |s.cmds| && Anchored(s, c)
    ensures s.cmds[c].refs > 0 && s.cmds[c].deletions == 0
  {
    ListedIff(s.table, c);
    if !InTable(s.table, c) && c !in s.leaked {
      var i :| 0 <= i < |s.threads| && s.threads[i] == CancelTook(c);
      HeldAtLeast(s.threads, i, c);
    }
    assert s.cmds[c].refs == Tokens(s, c);
  }

  lemma {:induction false} HeldNone(threads: seq<Thread>, c: nat)
    requires forall i :: 0 <= i < |threads| ==> !Mentions(threads[i], c)
    ensures Held(threads, c) == 0
  {
    if threads != [] {
      assert !Mentions(threads[0], c);
      HeldNone(threads[1..], c);
    }
  }

  /** A number not yet given out is known nowhere. */
  lemma FreshIsUnknown(s: State)
    requires RangesOk(s)
    ensures Tokens(s, |s.cmds|) == 0 && !HasHandler(s, |s.cmds|) && !InTable(s.table, |s.cmds|)
    ensures forall i :: 0 <= i < |s.threads| ==> !Mentions(s.threads[i], |s.cmds|)
  {
    HeldNone(s.threads, |s.cmds|);
    ListedIff(s.table, |s.cmds|);
  }

  // ----- Tables, anchors and threads after a step -----

  lemma AnchorSurvives(s: State, s': State, c: nat)
    requires Anchored(s, c) && s'.table == s.table && s.leaked <= s'.leaked && s.threads <= s'.threads
    ensures Anchored(s', c)
  {
    if !InTable(s.table, c) && c !in s.leaked {
      var i :| 0 <= i < |s.threads| && s.threads[i] == CancelTook(c);
      assert s'.threads[i] == CancelTook(c);
    }
  }

  /** Anchors outlast a step that moves a thread on, and loses no table entry, leak or other cancel. */
  lemma AnchorMoves(s: State, s': State, i: nat, d: nat)
    requires Anchored(s, d) && i < |s.threads| == |s'.threads|
    requires InTable(s.table, d) ==> InTable(s'.table, d)
    requires s.leaked <= s'.leaked
    requires s.threads[i] != CancelTook(d) && forall j :: 0 <= j < |s.threads| && j != i ==> s'.threads[j] == s.threads[j]
    ensures Anchored(s', d)
  {
    if !InTable(s.table, d) && d !in s.leaked {
      var j :| 0 <= j < |s.threads| && s.threads[j] == CancelTook(d);
      assert s'.threads[j] == CancelTook(d);
    }
  }

  lemma SameHandlers(s: State, s': State)
    requires s'.handlers == s.handlers
    ensures forall d: nat :: HasHandler(s', d) == HasHandler(s, d)
  {}

  lemma InTableAppend(s: State, s': State, d: nat, c: nat)
    requires s'.table == s.table || (exists id :: s'.table == s.table + [Entry(id, c)])
    ensures InTable(s'.table, d) <==> InTable(s.table, d) || (s'.table != s.table && d == c)
  {
    if InTable(s.table, d) {
      var k :| 0 <= k < |s.table| && s.table[k].cmd == d;
      assert s'.table[k].cmd == d;
    }
    if s'.table != s.table {
      assert s'.table[|s.table|].cmd == c;
    }
  }

  lemma InTableAfterRemoval(table: seq<Entry>, k: nat, d: nat)
    requires k < |table|
    ensures InTable(RemoveEntry(table, k), d) ==> InTable(table, d)
    ensures table[k].cmd != d ==> (InTable(RemoveEntry(table, k), d) <==> InTable(table, d))
  {
    ListedRemove(table, k, d);
    ListedIff(table, d);
    ListedIff(RemoveEntry(table, k), d);
  }

  lemma RemovalInRange(s: State, k: nat)
    requires RangesOk(s) && k < |s.table|
    ensures forall i :: 0 <= i < |RemoveEntry(s.table, k)| ==> RemoveEntry(s.table, k)[i] in s.table
  {
    var t := RemoveEntry(s.table, k);
    assert forall i :: 0 <= i < |t| ==> t[i] == s.table[if i < k then i else i + 1];
  }

  /** A thread that moves on with its command, and gets to know none that is requested. */
  predicate MovesOn(before: Thread, t: Thread) {
    && (InRequest(t) ==> InRequest(before) && t.c == before.c)
    && (!t.Done? ==> !before.Done? && t.c == before.c)
    && (t.CancelTook? ==> before.CancelTook?)
  }

  lemma AloneAfterGo(threads: seq<Thread>, i: nat, t: Thread)
    requires i < |threads| && RequestsAlone(threads) && MovesOn(threads[i], t)
    requires t.DispTook? ==> forall j :: 0 <= j < |threads| && InRequest(threads[j]) ==> threads[j].c != t.owned
    ensures RequestsAlone(threads[i := t])
  {}

  // ----- Every step keeps the core -----

  lemma NewRequestKeeps(s: State, id: int, key: Key)
    requires Core(s)
    ensures Core(Apply(s, NewRequest(id, key)))
  {
    var s', t := Apply(s, NewRequest(id, key)), ReqCreated(|s.cmds|);
    FreshIsUnknown(s);
    CountsAfterAppend(s, t);
    hide Held, Listed;
    assert CountsOk(s') by {
      forall c | 0 <= c < |s'.cmds|
        ensures s'.cmds[c].refs == Tokens(s', c)
      {
        assert Tokens(s', c) == Tokens(s, c) + HeldBy(t, c);
      }
    }
    forall h: nat | Anchored(s, h)
      ensures Anchored(s', h)
    {
      AnchorSurvives(s, s', h);
    }
    SameHandlers(s, s');
    hide Anchored, CountsOk;
    assert RangesOk(s');
    assert HandlersOk(s');
  }

  lemma RegisterCmdCounts(s: State, i: nat)
    requires Core(s) && Enabled(s, RegisterCmd(i))
    ensures CountsOk(Apply(s, RegisterCmd(i)))
  {
    var s', c := Apply(s, RegisterCmd(i)), s.threads[i].c;
    CountsAfterGo(s, i, ReqInTable(c));
    ListedIff(s.table, c);
    assert RequestOk(s, s.threads[i]);
    hide Held, Listed, RequestsOk, HandlersOk, HasHandler;
    if |s.table| < TABLE_SIZE {
      forall d: nat
        ensures Listed(s'.table, d) == Listed(s.table, d) + if d == c then 1 else 0
      {
        ListedAppend(s.table, Entry(IdOf(s, c), c), d);
      }
    }
    assert forall d :: 0 <= d < |s.cmds| ==> Tokens(s', d) == Tokens(s, d);
    assert CountsOk(s');
  }

  lemma RegisterCmdKeeps(s: State, i: nat)
    requires Core(s) && Enabled(s, RegisterCmd(i))
    ensures Core(Apply(s, RegisterCmd(i)))
  {
    var s', c := Apply(s, RegisterCmd(i)), s.threads[i].c;
    RegisterCmdCounts(s, i);
    AloneAfterGo(s.threads, i, ReqInTable(c));
    hide CountsOk;
    forall d: nat
      ensures InTable(s'.table, d) <==> InTable(s.table, d) || (d == c && |s.table| < TABLE_SIZE)
    {
      InTableAppend(s, s', d, c);
    }
    forall d: nat | Anchored(s, d)
      ensures Anchored(s', d)
    {
      AnchorMoves(s, s', i, d);
    }
    hide Anchored;
    assert HandlersOk(s');
    hide HandlersOk;
    assert RangesOk(s');
    assert RequestsOk(s') by {
      hide InTable, HasHandler;
      assert forall j :: 0 <= j < |s.threads| && j != i && InRequest(s.threads[j]) ==> s.threads[j].c != c;
      hide RequestsAlone;
      SameHandlers(s, s');
      assert forall j :: 0 <= j < |s.threads| ==> RequestOk(s, s.threads[j]);
      assert forall j :: 0 <= j < |s'.threads| ==> RequestOk(s', s'.threads[j]);
    }
  }

  lemma FinishStartCounts(s: State, i: nat, ok: bool)
    requires Core(s) && Enabled(s, FinishStart(i, ok))
    ensures CountsOk(Apply(s, FinishStart(i, ok))) && !Apply(s, FinishStart(i, ok)).fault
  {
    var s', c := Apply(s, FinishStart(i, ok)), s.threads[i].c;
    assert RequestOk(s, s.threads[i]);
    AnchorIsSafe(s, c);
    CountsAfterGo(s, i, Done);
    hide Held, Listed, RequestsOk, HandlersOk, HasHandler;
    assert forall d :: 0 <= d < |s.cmds| ==> Tokens(s', d) == Tokens(s, d);
  }

  lemma FinishStartRequests(s: State, i: nat, ok: bool)
    requires Core(s) && Enabled(s, FinishStart(i, ok))
    ensures RequestsOk(Apply(s, FinishStart(i, ok)))
    ensures forall d: nat :: HasHandler(Apply(s, FinishStart(i, ok)), d) ==> HasHandler(s, d) || d == s.threads[i].c
  {
    var s', c := Apply(s, FinishStart(i, ok)), s.threads[i].c;
    AloneAfterGo(s.threads, i, Done);
    assert forall j :: 0 <= j < |s.threads| && j != i && InRequest(s.threads[j]) ==> s.threads[j].c != c;
    hide CountsOk, RequestsAlone, HandlersOk;
    forall d: nat | HasHandler(s', d)
      ensures HasHandler(s, d) || d == c
    {
      var k :| 0 <= k < |s'.handlers| && s'.handlers[k].cmd == d;
      if k < |s.handlers| {
        assert s.handlers[k].cmd == d;
      }
    }
    forall j | 0 <= j < |s'.threads|
      ensures RequestOk(s', s'.threads[j])
    {
      if j != i {
        assert RequestOk(s, s.threads[j]);
      }
    }
  }

  lemma FinishStartHandlers(s: State, i: nat, ok: bool)
    requires Core(s) && Enabled(s, FinishStart(i, ok))
    ensures HandlersOk(Apply(s, FinishStart(i, ok)))
  {
    var s', c := Apply(s, FinishStart(i, ok)), s.threads[i].c;
    FinishStartRequests(s, i, ok);
    assert RequestOk(s, s.threads[i]);
    assert forall j :: 0 <= j < |s.threads| && j != i && PastRemoval(s.threads[j]) ==> s.threads[j].c != c;
    hide CountsOk, RequestsOk, RequestOk;
    forall d: nat | Anchored(s, d)
      ensures Anchored(s', d)
    {
      AnchorMoves(s, s', i, d);
    }
    assert Anchored(s, c);
    hide Anchored;
    assert forall k :: 0 <= k < |s'.handlers| ==> Anchored(s', s'.handlers[k].cmd);
    assert HandlersOk(s');
  }

  lemma FinishStartKeeps(s: State, i: nat, ok: bool)
    requires Core(s) && Enabled(s, FinishStart(i, ok))
    ensures Core(Apply(s, FinishStart(i, ok)))
  {
    var s' := Apply(s, FinishStart(i, ok));
    FinishStartCounts(s, i, ok);
    FinishStartRequests(s, i, ok);
    FinishStartHandlers(s, i, ok);
    hide CountsOk, RequestsOk, HandlersOk;
    assert RangesOk(s');
  }

  /** A dispatch of a command with a handler meets no request of it. */
  lemma DispatchIsAlone(s: State, c: nat)
    requires RequestsOk(s) && HasHandler(s, c)
    ensures RequestsAlone(s.threads + [DispCallback(c)])
  {
    hide HasHandler, InTable;
    assert forall j :: 0 <= j < |s.threads| && InRequest(s.threads[j]) ==> RequestOk(s, s.threads[j]);
  }

  lemma DispatchCounts(s: State, key: Key)
    requires Core(s) && Enabled(s, Dispatch(key))
    ensures CountsOk(Apply(s, Dispatch(key))) && !Apply(s, Dispatch(key)).fault
  {
    var s', k := Apply(s, Dispatch(key)), FindHandler(s.handlers, key);
    if k < |s.handlers| {
      var c := s.handlers[k].cmd;
      AnchorIsSafe(s, c);
      CountsAfterAppend(s, DispCallback(c));
      hide Held, Listed, RequestsOk, HandlersOk;
      assert forall d :: 0 <= d < |s.cmds| ==> Tokens(s', d) == Tokens(s, d) + if d == c then 1 else 0;
    }
  }

  lemma DispatchRequests(s: State, key: Key)
    requires Core(s) && Enabled(s, Dispatch(key)) && FindHandler(s.handlers, key) < |s.handlers|
    ensures RequestsOk(Apply(s, Dispatch(key)))
  {
    var s', c := Apply(s, Dispatch(key)), s.handlers[FindHandler(s.handlers, key)].cmd;
    hide CountsOk, HandlersOk, FindHandler;
    assert HasHandler(s, c);
    DispatchIsAlone(s, c);
    hide RequestsAlone, InTable;
    forall j | 0 <= j < |s'.threads|
      ensures RequestOk(s', s'.threads[j])
    {
      if j < |s.threads| {
        assert RequestOk(s, s.threads[j]);
      }
    }
  }

  lemma DispatchHandlers(s: State, key: Key)
    requires Core(s) && Enabled(s, Dispatch(key)) && FindHandler(s.handlers, key) < |s.handlers|
    ensures HandlersOk(Apply(s, Dispatch(key)))
  {
    var s' := Apply(s, Dispatch(key));
    hide CountsOk, RequestsOk, FindHandler;
    forall d: nat | Anchored(s, d)
      ensures Anchored(s', d)
    {
      AnchorSurvives(s, s', d);
    }
    SameHandlers(s, s');
    hide Anchored, HasHandler;
    assert HandlersOk(s');
  }

  lemma DispatchRanges(s: State, key: Key)
    requires RangesOk(s) && Enabled(s, Dispatch(key)) && FindHandler(s.handlers, key) < |s.handlers|
    ensures RangesOk(Apply(s, Dispatch(key)))
  {
    hide FindHandler;
  }

  lemma DispatchKeeps(s: State, key: Key)
    requires Core(s) && Enabled(s, Dispatch(key))
    ensures Core(Apply(s, Dispatch(key)))
  {
    hide RangesOk, CountsOk, RequestsOk, HandlersOk, FindHandler;
    DispatchCounts(s, key);
    if FindHandler(s.handlers, key) < |s.handlers| {
      DispatchRequests(s, key);
      DispatchHandlers(s, key);
      DispatchRanges(s, key);
    } else {
      assert Apply(s, Dispatch(key)) == s;
    }
    hide Apply, Enabled;
    assert Core(Apply(s, Dispatch(key)));
  }

  /** What a removal leaves of the handlers: some of them, in their order. */
  lemma RemovalLeaves(h: seq<Handler>, key: Key)
    ensures var left, k := RemoveHandler(h, key), FindHandler(h, key);
      && (k < |h| ==> |left| == |h| - 1 && forall i :: 0 <= i < |left| ==> left[i] == h[if i < k then i else i + 1])
      && (k == |h| ==> left == h)
  {}

  /** A handler that is the first for its event is the one that is removed. */
  lemma RemovalTakesFirst(h: seq<Handler>, key: Key, c: nat)
    requires FirstOfKey(h, c) && Distinct(h) && forall k :: 0 <= k < |h| && h[k].cmd == c ==> h[k].key == key
    ensures forall k :: 0 <= k < |RemoveHandler(h, key)| ==> RemoveHandler(h, key)[k].cmd != c
  {
    RemovalLeaves(h, key);
    hide FindHandler, RemoveHandler;
  }

  lemma RemovalKeepsOrder(h: seq<Handler>, key: Key, c: nat)
    requires Distinct(h)
    ensures Distinct(RemoveHandler(h, key)) && (FirstOfKey(h, c) ==> FirstOfKey(RemoveHandler(h, key), c))
    ensures forall k :: 0 <= k < |RemoveHandler(h, key)| ==> RemoveHandler(h, key)[k] in h
  {
    RemovalLeaves(h, key);
    hide FindHandler, RemoveHandler;
  }

  /** The handlers after a removal: those that were there, without the command's own. */
  lemma RemovalClears(s: State, s': State, c: nat)
    requires RangesOk(s) && Distinct(s.handlers) && FirstOfKey(s.handlers, c) && c < |s.cmds|
    requires s'.handlers == RemoveHandler(s.handlers, KeyOf(s, c))
    ensures !HasHandler(s', c)
    ensures forall d: nat :: HasHandler(s', d) ==> HasHandler(s, d)
    ensures forall i :: 0 <= i < |s'.handlers| ==> s'.handlers[i] in s.handlers
  {
    var h, key := s.handlers, KeyOf(s, c);
    RemovalTakesFirst(h, key, c);
    RemovalKeepsOrder(h, key, c);
    hide FindHandler, RemoveHandler, KeyOf, Distinct, FirstOfKey;
    forall d: nat | HasHandler(s', d)
      ensures HasHandler(s, d)
    {
      var i :| 0 <= i < |s'.handlers| && s'.handlers[i].cmd == d;
      assert s'.handlers[i] in h;
    }
  }

  lemma FewerHandlers(s: State, s': State, i: nat, t: Thread)
    requires RequestsOk(s) && i < |s.threads| && !InRequest(t) && RequestsAlone(s'.threads)
    requires s' == s.(threads := s.threads[i := t], handlers := s'.handlers)
    requires forall d: nat :: HasHandler(s', d) ==> HasHandler(s, d)
    ensures RequestsOk(s')
  {
    hide HasHandler, InTable, RequestsAlone;
    forall j | 0 <= j < |s'.threads|
      ensures RequestOk(s', s'.threads[j])
    {
      assert RequestOk(s, s.threads[j]);
    }
  }

  lemma StillAnchored(s: State, s': State, i: nat, t: Thread)
    requires HandlersOk(s) && i < |s.threads| && !t.Done? && MovesOn(s.threads[i], t)
    requires s' == s.(threads := s.threads[i := t], handlers := s'.handlers)
    requires forall d: nat :: HasHandler(s', d) ==> HasHandler(s, d)
    requires s.threads[i].CancelTook? || PastRemoval(t) ==> !HasHandler(s', t.c)
    ensures HandlersOk(s')
  {
    hide InTable;
    forall k | 0 <= k < |s'.handlers|
      ensures Anchored(s', s'.handlers[k].cmd)
    {
      var d := s'.handlers[k].cmd;
      assert HasHandler(s', d);
      var j :| 0 <= j < |s.handlers| && s.handlers[j].cmd == d;
      assert Anchored(s, d);
      AnchorMoves(s, s', i, d);
    }
  }

  /** The handler of `c` goes, as it is the first for its event. */
  predicate TakesOwn(s: State, s': State, c: nat) {
    s'.handlers == RemoveHandler(s.handlers, KeyOf(s, c)) && Distinct(s.handlers) && FirstOfKey(s.handlers, c)
  }

  /** A step of thread `i` that may remove the handler of its command, and touches no other table. */
  lemma HandlerStepKeeps(s: State, s': State, i: nat, t: Thread)
    requires Core(s) && i < |s.threads| && !s.threads[i].Done? && !InRequest(s.threads[i]) && !t.Done?
    requires MovesOn(s.threads[i], t) && !s'.fault && !t.DispTook? && !s.threads[i].DispTook?
    requires s' == s.(threads := s.threads[i := t], handlers := s'.handlers)
    requires s'.handlers == s.handlers || TakesOwn(s, s', t.c)
    requires (PastRemoval(t) && !PastRemoval(s.threads[i])) || s.threads[i].CancelTook? ==> TakesOwn(s, s', t.c)
    ensures Core(s')
  {
    var c := t.c;
    CountsAfterGo(s, i, t);
    AloneAfterGo(s.threads, i, t);
    if s'.handlers != s.handlers || (PastRemoval(t) && !PastRemoval(s.threads[i])) || s.threads[i].CancelTook? {
      RemovalClears(s, s', c);
    }
    hide Held, Listed, FindHandler, RemoveHandler, RequestsAlone, HasHandler, Distinct, FirstOfKey;
    assert CountsOk(s') by {
      assert forall d :: 0 <= d < |s.cmds| ==> Tokens(s', d) == Tokens(s, d);
    }
    hide CountsOk;
    assert forall d: nat :: HasHandler(s', d) ==> HasHandler(s, d) by {
      if s'.handlers == s.handlers {
        SameHandlers(s, s');
      }
    }
    FewerHandlers(s, s', i, t);
    StillAnchored(s, s', i, t);
    hide RequestsOk, HandlersOk;
    assert RangesOk(s');
  }

  lemma HandleEventKeeps(s: State, i: nat, completed: bool)
    requires Core(s) && OrderOk(s) && Enabled(s, HandleEvent(i, completed))
    ensures Core(Apply(s, HandleEvent(i, completed)))
  {
    var c := s.threads[i].c;
    HolderIsSafe(s, i, c);
    hide CountsOk, RequestsOk, HandlersOk, Distinct, FirstOfKey, RemoveHandler;
    HandlerStepKeeps(s, Apply(s, HandleEvent(i, completed)), i, if completed then DispUnregistered(c) else DispReleasing(c));
  }

  /** A command with a token outside the table did not find it full; its handler is the first for its event. */
  lemma OwnedIsFirst(s: State, c: nat)
    requires OrderOk(s) && c !in s.leaked
    ensures FirstOfKey(s.handlers, c)
  {
    if k :| 0 <= k < |s.handlers| && s.handlers[k].cmd == c {
      assert FirstOfKey(s.handlers, s.handlers[k].cmd);
    }
  }

  lemma {:induction false} OwnerAtLeast(threads: seq<Thread>, i: nat, c: nat)
    requires i < |threads| && OwnedBy(threads[i], c)
    ensures OwnerHeld(threads, c) >= 1
    decreases |threads|
  {
    hide OwnedBy;
    if i > 0 {
      OwnerAtLeast(threads[1..], i - 1, c);
    }
  }

  lemma CancelUnregisterKeeps(s: State, i: nat)
    requires Core(s) && OrderOk(s) && OwnersOk(s) && Enabled(s, CancelUnregister(i))
    ensures Core(Apply(s, CancelUnregister(i)))
  {
    var c := s.threads[i].c;
    HolderIsSafe(s, i, c);
    OwnerAtLeast(s.threads, i, c);
    assert Owner(s, c) <= 1;
    OwnedIsFirst(s, c);
    hide CountsOk, RequestsOk, HandlersOk, FirstOfKey, RemoveHandler, OwnersOk, Owner;
    assert Distinct(s.handlers);
    hide Distinct, OrderOk;
    HandlerStepKeeps(s, Apply(s, CancelUnregister(i)), i, CancelUnregistered(c));
  }

  lemma ReleaseCounts(s: State, i: nat, t: Thread, d: nat)
    requires CountsOk(s) && i < |s.threads| && d < |s.cmds|
    requires HeldBy(s.threads[i], d) == HeldBy(t, d) + 1
    requires forall e: nat :: e != d ==> HeldBy(s.threads[i], e) == HeldBy(t, e)
    ensures CountsOk(Go(ReleaseRef(s, d), i, t)) && s.cmds[d].refs > 0 && s.cmds[d].deletions == 0
  {
    var s' := Go(ReleaseRef(s, d), i, t);
    HolderIsSafe(s, i, d);
    CountsAfterGo(s, i, t);
    hide Held, Listed, HeldBy;
    assert forall e :: 0 <= e < |s.cmds| ==> Tokens(s', e) + (if e == d then 1 else 0) == Tokens(s, e);
  }

  /** A step of thread `i` that gives one token of `d` back. */
  lemma ReleaseKeeps(s: State, i: nat, t: Thread, d: nat)
    requires Core(s) && i < |s.threads| && d < |s.cmds| && MovesOn(s.threads[i], t) && !t.DispTook?
    requires !InRequest(s.threads[i]) && !s.threads[i].CancelTook? && !PastRemoval(t) && !t.CancelTook?
    requires HeldBy(s.threads[i], d) == HeldBy(t, d) + 1
    requires forall e: nat :: e != d ==> HeldBy(s.threads[i], e) == HeldBy(t, e)
    ensures Core(Go(ReleaseRef(s, d), i, t))
  {
    var s' := Go(ReleaseRef(s, d), i, t);
    ReleaseCounts(s, i, t, d);
    AloneAfterGo(s.threads, i, t);
    hide Held, Listed, HeldBy, RequestsAlone, CountsOk;
    forall e: nat | Anchored(s, e)
      ensures Anchored(s', e)
    {
      AnchorMoves(s, s', i, e);
    }
    forall j | 0 <= j < |s'.threads|
      ensures RequestOk(s', s'.threads[j])
    {
      assert RequestOk(s, s.threads[j]);
    }
    SameHandlers(s, s');
    hide Anchored, CountsOk, HasHandler;
    assert RangesOk(s') && HandlersOk(s');
  }

  lemma TakeOwnCounts(s: State, i: nat, k: nat)
    requires Core(s) && Enabled(s, TakeOwn(i)) && k < |s.table|
    ensures CountsOk(Go(s, i, DispTook(s.threads[i].c, s.table[k].cmd)).(table := RemoveEntry(s.table, k)))
  {
    var t := DispTook(s.threads[i].c, s.table[k].cmd);
    var s' := Go(s, i, t).(table := RemoveEntry(s.table, k));
    CountsAfterGo(s, i, t);
    CountsAfterRemove(s, k);
    hide Held, Listed, RemoveEntry, RequestsOk, HandlersOk;
    assert forall e :: 0 <= e < |s.cmds| ==> Tokens(s', e) == Tokens(s, e);
  }

  /** The entry a completing command finds by its id is its own, or that of a command that cannot complete any more. */
  lemma FoundIsSpent(s: State, i: nat, x: nat)
    requires Core(s) && IdsOk(s) && Enabled(s, TakeOwn(i)) && x < |s.cmds| && s.cmds[x].id == IdOf(s, s.threads[i].c)
    ensures !HasHandler(s, x) && forall j :: 0 <= j < |s.threads| && InRequest(s.threads[j]) ==> s.threads[j].c != x
  {
    var c := s.threads[i].c;
    assert UsesId(s.threads[i], c) && Active(s, c);
    if x != c {
      assert !Active(s, x);
      forall j | 0 <= j < |s.threads| && InRequest(s.threads[j])
        ensures s.threads[j].c != x
      {
        assert !UsesId(s.threads[j], x);
      }
    }
  }

  lemma TakeOwnHandlers(s: State, i: nat, k: nat)
    requires Core(s) && IdsOk(s) && Enabled(s, TakeOwn(i)) && k == FindEntry(s.table, IdOf(s, s.threads[i].c)) < |s.table|
    ensures HandlersOk(Go(s, i, DispTook(s.threads[i].c, s.table[k].cmd)).(table := RemoveEntry(s.table, k)))
  {
    var c, x := s.threads[i].c, s.table[k].cmd;
    var s' := Go(s, i, DispTook(c, x)).(table := RemoveEntry(s.table, k));
    FoundIsSpent(s, i, x);
    hide CountsOk, RemoveEntry, FindEntry, RequestsOk;
    forall h | 0 <= h < |s'.handlers|
      ensures Anchored(s', s'.handlers[h].cmd)
    {
      var d := s.handlers[h].cmd;
      assert HasHandler(s, d) && d != x;
      InTableAfterRemoval(s.table, k, d);
      AnchorMoves(s, s', i, d);
    }
    SameHandlers(s, s');
    assert HandlersOk(s');
  }

  lemma TakeOwnRequests(s: State, i: nat, k: nat)
    requires Core(s) && IdsOk(s) && Enabled(s, TakeOwn(i)) && k == FindEntry(s.table, IdOf(s, s.threads[i].c)) < |s.table|
    ensures RequestsOk(Go(s, i, DispTook(s.threads[i].c, s.table[k].cmd)).(table := RemoveEntry(s.table, k)))
  {
    var c, x := s.threads[i].c, s.table[k].cmd;
    var s' := Go(s, i, DispTook(c, x)).(table := RemoveEntry(s.table, k));
    FoundIsSpent(s, i, x);
    AloneAfterGo(s.threads, i, DispTook(c, x));
    SameHandlers(s, s');
    hide CountsOk, HandlersOk, RemoveEntry, FindEntry, RequestsAlone, HasHandler, InTable;
    forall j | 0 <= j < |s'.threads|
      ensures RequestOk(s', s'.threads[j])
    {
      assert RequestOk(s, s.threads[j]);
      if InRequest(s'.threads[j]) {
        InTableAfterRemoval(s.table, k, s.threads[j].c);
      }
    }
    assert RequestsOk(s');
  }

  lemma TakeOwnKeeps(s: State, i: nat)
    requires Core(s) && IdsOk(s) && Enabled(s, TakeOwn(i))
    ensures Core(Apply(s, TakeOwn(i)))
  {
    var c, k := s.threads[i].c, FindEntry(s.table, IdOf(s, s.threads[i].c));
    HolderIsSafe(s, i, c);
    if k == |s.table| {
      HandlerStaysKeeps(s, i, DispReleasing(c));
    } else {
      TakeOwnCounts(s, i, k);
      TakeOwnHandlers(s, i, k);
      TakeOwnRequests(s, i, k);
      RemovalInRange(s, k);
      hide CountsOk, RemoveEntry, FindEntry, RequestsOk, HandlersOk;
      assert RangesOk(Apply(s, TakeOwn(i)));
    }
  }

  /** A step of a thread past the removal that takes nothing and gives nothing back. */
  lemma HandlerStaysKeeps(s: State, i: nat, t: Thread)
    requires Core(s) && i < |s.threads| && s.threads[i].DispUnregistered? && t == DispReleasing(s.threads[i].c)
    ensures Core(Go(s, i, t))
  {
    HandlerStepKeeps(s, Go(s, i, t), i, t);
  }

  lemma CancelBeginCounts(s: State, k: nat)
    requires Core(s) && k < |s.table|
    ensures CountsOk(s.(threads := s.threads + [CancelTook(s.table[k].cmd)], table := RemoveEntry(s.table, k)))
  {
    var t := CancelTook(s.table[k].cmd);
    var s' := s.(threads := s.threads + [t], table := RemoveEntry(s.table, k));
    CountsAfterAppend(s, t);
    CountsAfterRemove(s, k);
    hide Held, Listed, RemoveEntry, RequestsOk, HandlersOk;
    assert forall e :: 0 <= e < |s.cmds| ==> Tokens(s', e) == Tokens(s, e);
    assert CountsOk(s');
  }

  lemma CancelBeginRequests(s: State, k: nat)
    requires Core(s) && k < |s.table|
    requires forall i :: 0 <= i < |s.threads| ==> s.threads[i] != ReqInTable(s.table[k].cmd)
    ensures RequestsOk(s.(threads := s.threads + [CancelTook(s.table[k].cmd)], table := RemoveEntry(s.table, k)))
  {
    var c := s.table[k].cmd;
    var s' := s.(threads := s.threads + [CancelTook(c)], table := RemoveEntry(s.table, k));
    forall j | 0 <= j < |s.threads| && InRequest(s.threads[j])
      ensures s.threads[j].c != c
    {
      assert RequestOk(s, s.threads[j]);
      assert InTable(s.table, c);
      assert s.threads[j] != ReqInTable(c);
    }
    hide CountsOk, HandlersOk, RemoveEntry, InTable;
    SameHandlers(s, s');
    forall j | 0 <= j < |s'.threads|
      ensures RequestOk(s', s'.threads[j])
    {
      if j < |s.threads| {
        assert RequestOk(s, s.threads[j]);
        if InRequest(s.threads[j]) {
          InTableAfterRemoval(s.table, k, s.threads[j].c);
        }
      }
    }
    assert RequestsAlone(s'.threads);
  }

  lemma CancelBeginKeeps(s: State, id: int)
    requires Core(s) && Disciplined(s, CancelBegin(id))
    ensures Core(Apply(s, CancelBegin(id)))
  {
    var s', k := Apply(s, CancelBegin(id)), FindEntry(s.table, id);
    if k < |s.table| {
      var c := s.table[k].cmd;
      CancelBeginCounts(s, k);
      CancelBeginRequests(s, k);
      RemovalInRange(s, k);
      hide CountsOk, RequestsOk, RemoveEntry, FindEntry;
      assert s' == s.(threads := s.threads + [CancelTook(c)], table := RemoveEntry(s.table, k));
      assert RangesOk(s');
      forall h | 0 <= h < |s'.handlers|
        ensures Anchored(s', s'.handlers[h].cmd)
      {
        var d := s.handlers[h].cmd;
        assert Anchored(s, d);
        InTableAfterRemoval(s.table, k, d);
        if d == c {
          assert s'.threads[|s.threads|] == CancelTook(c);
        } else if !InTable(s.table, d) && d !in s.leaked {
          var j :| 0 <= j < |s.threads| && s.threads[j] == CancelTook(d);
          assert s'.threads[j] == CancelTook(d);
        }
      }
      SameHandlers(s, s');
      assert HandlersOk(s');
    }
  }

  lemma StepKeepsCore(s: State, a: Action)
    requires Inv(s) && Enabled(s, a) && Disciplined(s, a)
    ensures Core(Apply(s, a))
  {
    match a {
      case NewRequest(id, key) => NewRequestKeeps(s, id, key);
      case RegisterCmd(i) => RegisterCmdKeeps(s, i);
      case FinishStart(i, ok) => FinishStartKeeps(s, i, ok);
      case Dispatch(key) => DispatchKeeps(s, key);
      case HandleEvent(i, completed) => HandleEventKeeps(s, i, completed);
      case TakeOwn(i) => TakeOwnKeeps(s, i);
      case DropOwner(i) => ReleaseKeeps(s, i, DispReleasing(s.threads[i].c), s.threads[i].owned);
      case DropDispatch(i) => ReleaseKeeps(s, i, Done, s.threads[i].c);
      case CancelBegin(id) => CancelBeginKeeps(s, id);
      case CancelUnregister(i) => CancelUnregisterKeeps(s, i);
      case CancelRelease(i) => ReleaseKeeps(s, i, Done, s.threads[i].c);
    }
  }

  // ----- Every step keeps the order, the ids and the one owner -----

  predicate RemovesHandler(a: Action) {
    (a.HandleEvent? && a.completed) || a.CancelUnregister?
  }

  /** How a thread goes on. */
  predicate Moves(x: Thread, y: Thread) {
    match x
    case ReqCreated(c) => y == ReqInTable(c)
    case DispCallback(c) => y == DispUnregistered(c) || y == DispReleasing(c)
    case DispUnregistered(c) => y == DispReleasing(c) || (y.DispTook? && y.c == c)
    case DispTook(c, _) => y == DispReleasing(c)
    case CancelTook(c) => y == CancelUnregistered(c)
    case _ => y == Done
  }

  predicate Begins(a: Action) {
    a.NewRequest? || a.Dispatch? || a.CancelBegin?
  }

  lemma ThreadBegins(s: State, a: Action)
    requires Enabled(s, a) && Begins(a)
    ensures var t, t' := s.threads, Apply(s, a).threads;
      match a
      case NewRequest(_, _) => t' == t + [ReqCreated(|s.cmds|)]
      case Dispatch(key) =>
        var k := FindHandler(s.handlers, key);
        t' == if k < |s.handlers| then t + [DispCallback(s.handlers[k].cmd)] else t
      case _ => t' == t || (|t'| == |t| + 1 && t'[..|t|] == t && t'[|t|].CancelTook?)
  {
    hide KeyOf, IdOf, FindEntry, RemoveEntry, FindHandler, RemoveHandler;
  }

  lemma ThreadMoves(s: State, a: Action)
    requires Enabled(s, a) && !Begins(a)
    ensures var t, t' := s.threads, Apply(s, a).threads;
      a.i < |t| == |t'| && t' == t[a.i := t'[a.i]] && Moves(t[a.i], t'[a.i])
  {
    hide KeyOf, IdOf, FindEntry, RemoveEntry, FindHandler, RemoveHandler;
  }

  /** What the threads are after a step: there is a new one, or one that goes on. */
  predicate ThreadsStep(s: State, a: Action, t': seq<Thread>) {
    var t := s.threads;
    && (a.NewRequest? ==> t' == t + [ReqCreated(|s.cmds|)])
    && (a.Dispatch? ==>
          var k := FindHandler(s.handlers, a.key);
          t' == if k < |s.handlers| then t + [DispCallback(s.handlers[k].cmd)] else t)
    && (a.CancelBegin? ==> t' == t || (|t'| == |t| + 1 && t'[..|t|] == t && t'[|t|].CancelTook?))
    && (!Begins(a) ==> a.i < |t| == |t'| && t' == t[a.i := t'[a.i]] && Moves(t[a.i], t'[a.i]))
  }

  lemma ThreadsAfter(s: State, a: Action, t': seq<Thread>)
    requires Enabled(s, a) && t' == Apply(s, a).threads
    ensures ThreadsStep(s, a, t')
  {
    hide Apply, Enabled, FindHandler, Moves;
    if Begins(a) {
      ThreadBegins(s, a);
    } else {
      ThreadMoves(s, a);
    }
  }

  lemma HandlersAfter(s: State, a: Action)
    requires Enabled(s, a)
    ensures var h := Apply(s, a).handlers;
      if RemovesHandler(a) then h == RemoveHandler(s.handlers, KeyOf(s, s.threads[a.i].c))
      else if a.FinishStart? then h == s.handlers || h == s.handlers + [Handler(KeyOf(s, s.threads[a.i].c), s.threads[a.i].c)]
      else h == s.handlers
  {}

  lemma SameOrder(s: State, s': State)
    requires OrderOk(s) && s'.handlers == s.handlers && s.leaked <= s'.leaked
    requires forall j :: 0 <= j < |s'.threads| && s'.threads[j].DispCallback? ==> FirstOfKey(s.handlers, s'.threads[j].c)
    ensures OrderOk(s')
  {}

  lemma FewerInOrder(s: State, s': State, key: Key)
    requires OrderOk(s) && s'.handlers == RemoveHandler(s.handlers, key) && s'.leaked == s.leaked
    requires forall j :: 0 <= j < |s'.threads| && s'.threads[j].DispCallback? ==> s'.threads[j] in s.threads
    ensures OrderOk(s')
  {
    hide RemoveHandler, FirstOfKey, Distinct;
    forall c: nat | FirstOfKey(s.handlers, c)
      ensures FirstOfKey(s'.handlers, c)
    {
      RemovalKeepsOrder(s.handlers, key, c);
    }
    RemovalKeepsOrder(s.handlers, key, 0);
  }

  /** A found handler is the first for its event. */
  lemma FoundIsFirst(h: seq<Handler>, key: Key)
    requires Distinct(h) && FindHandler(h, key) < |h|
    ensures FirstOfKey(h, h[FindHandler(h, key)].cmd)
  {
    hide FindHandler;
  }

  lemma AppendKeepsFirst(h: seq<Handler>, x: Handler, c: nat)
    requires FirstOfKey(h, c) && c != x.cmd
    ensures FirstOfKey(h + [x], c)
  {}

  lemma FinishStartOrder(s: State, i: nat)
    requires Core(s) && OrderOk(s) && Enabled(s, FinishStart(i, true)) && Disciplined(s, FinishStart(i, true))
    requires |s.handlers| < TABLE_SIZE
    ensures OrderOk(Apply(s, FinishStart(i, true)))
  {
    var s', c, h := Apply(s, FinishStart(i, true)), s.threads[i].c, s.handlers;
    var x := Handler(KeyOf(s, c), c);
    assert RequestOk(s, s.threads[i]);
    assert forall k :: 0 <= k < |h| ==> h[k].cmd != c;
    if c !in s.leaked {
      assert FindHandler(h, x.key) == |h|;
      assert FirstOfKey(h + [x], c);
    }
    assert Distinct(h + [x]);
    forall k | 0 <= k < |h| && h[k].cmd !in s.leaked
      ensures FirstOfKey(h + [x], h[k].cmd)
    {
      AppendKeepsFirst(h, x, h[k].cmd);
    }
    forall j | 0 <= j < |s.threads| && s.threads[j].DispCallback?
      ensures FirstOfKey(h + [x], s.threads[j].c)
    {
      assert j != i && InRequest(s.threads[i]) && Mentions(s.threads[j], s.threads[j].c);
      AppendKeepsFirst(h, x, s.threads[j].c);
    }
    hide FirstOfKey, Distinct, Core;
    assert OrderOk(s');
  }

  lemma ThreadsInOrder(s: State, a: Action)
    requires Distinct(s.handlers) && Enabled(s, a)
    requires forall i :: 0 <= i < |s.threads| && s.threads[i].DispCallback? ==> FirstOfKey(s.handlers, s.threads[i].c)
    ensures forall j :: 0 <= j < |Apply(s, a).threads| && Apply(s, a).threads[j].DispCallback? ==>
      FirstOfKey(s.handlers, Apply(s, a).threads[j].c) && (!a.Dispatch? ==> Apply(s, a).threads[j] in s.threads)
    ensures s.leaked <= Apply(s, a).leaked && (!a.RegisterCmd? ==> Apply(s, a).leaked == s.leaked)
  {
    LeakedAfter(s, a);
    hide Apply, FirstOfKey, Distinct, FindHandler, Enabled;
    var t' := Apply(s, a).threads;
    forall j | 0 <= j < |t'| && t'[j].DispCallback?
      ensures FirstOfKey(s.handlers, t'[j].c) && (!a.Dispatch? ==> t'[j] in s.threads)
    {
      CallbackAfter(s, a, j);
      if t'[j] !in s.threads {
        FoundIsFirst(s.handlers, a.key);
      }
    }
  }

  /** A callback that has not run yet was there before, or is that of the handler just found. */
  lemma CallbackAfter(s: State, a: Action, j: nat)
    requires Enabled(s, a) && j < |Apply(s, a).threads| && Apply(s, a).threads[j].DispCallback?
    ensures var t := Apply(s, a).threads[j];
      t in s.threads ||
      (a.Dispatch? && var k := FindHandler(s.handlers, a.key); k < |s.handlers| && t.c == s.handlers[k].cmd)
  {
    ThreadsAfter(s, a, Apply(s, a).threads);
    hide Apply, FindHandler;
    var t, t' := s.threads, Apply(s, a).threads;
    if j < |t| {
      assert t'[j] == t[j];
    }
  }

  lemma LeakedAfter(s: State, a: Action)
    requires Enabled(s, a)
    ensures s.leaked <= Apply(s, a).leaked && (!a.RegisterCmd? ==> Apply(s, a).leaked == s.leaked)
  {
    hide KeyOf, IdOf, FindEntry, RemoveEntry, FindHandler, RemoveHandler;
  }

  lemma StepKeepsOrder(s: State, a: Action)
    requires Core(s) && OrderOk(s) && Enabled(s, a) && Disciplined(s, a)
    ensures OrderOk(Apply(s, a))
  {
    HandlersAfter(s, a);
    ThreadsInOrder(s, a);
    hide Core, FirstOfKey, Distinct, RemoveHandler, KeyOf, Apply, Disciplined;
    var s' := Apply(s, a);
    if RemovesHandler(a) {
      FewerInOrder(s, s', KeyOf(s, s.threads[a.i].c));
    } else if s'.handlers == s.handlers {
      SameOrder(s, s');
    } else {
      FinishStartAdds(s, a.i, a.ok);
      FinishStartOrder(s, a.i);
    }
  }

  lemma FinishStartAdds(s: State, i: nat, ok: bool)
    requires Enabled(s, FinishStart(i, ok)) && Apply(s, FinishStart(i, ok)).handlers != s.handlers
    ensures ok && |s.handlers| < TABLE_SIZE
  {}

  lemma UserWasActive(s: State, a: Action, d: nat, j: nat)
    requires Enabled(s, a) && d < |s.cmds| && j < |Apply(s, a).threads| && UsesId(Apply(s, a).threads[j], d)
    ensures Active(s, d)
  {
    ThreadsAfter(s, a, Apply(s, a).threads);
    hide Apply, FindHandler;
    if j < |s.threads| {
      assert UsesId(s.threads[j], d);
    } else if a.Dispatch? {
      assert s.handlers[FindHandler(s.handlers, a.key)].cmd == d;
      assert HasHandler(s, d);
    }
  }

  /** Only a request makes a command able to complete. */
  lemma ActiveStep(s: State, a: Action, d: nat)
    requires Enabled(s, a) && d < |s.cmds| && Active(Apply(s, a), d)
    ensures Active(s, d)
  {
    hide KeyOf, IdOf, FindEntry, RemoveEntry, FindHandler, RemoveHandler;
    var s' := Apply(s, a);
    if HasHandler(s', d) {
      HandlersAfter(s, a);
      hide Apply;
      var k :| 0 <= k < |s'.handlers| && s'.handlers[k].cmd == d;
      if RemovesHandler(a) {
        RemovalLeaves(s.handlers, KeyOf(s, s.threads[a.i].c));
      } else if a.FinishStart? {
        assert UsesId(s.threads[a.i], s.threads[a.i].c);
      }
      assert HasHandler(s, d) || (a.FinishStart? && s.threads[a.i].c == d);
    } else {
      var j :| 0 <= j < |s'.threads| && UsesId(s'.threads[j], d);
      UserWasActive(s, a, d, j);
    }
  }

  lemma StepKeepsIds(s: State, a: Action)
    requires IdsOk(s) && Enabled(s, a) && Disciplined(s, a)
    ensures IdsOk(Apply(s, a))
  {
    var s' := Apply(s, a);
    forall c, d | 0 <= c < d < |s'.cmds| && Active(s', c) && Active(s', d)
      ensures s'.cmds[c].id != s'.cmds[d].id
    {
      ActiveStep(s, a, c);
      if d < |s.cmds| {
        ActiveStep(s, a, d);
      }
    }
  }

  lemma StepKeepsOwners(s: State, a: Action)
    requires Core(s) && OwnersOk(s) && Enabled(s, a)
    ensures OwnersOk(Apply(s, a))
  {
    FreshIsUnknown(s);
    HeldSplits(s.threads, |s.cmds|);
    hide Apply, Core;
    forall c: nat
      ensures Owner(Apply(s, a), c) <= 1
    {
      OwnerStep(s, a, c);
    }
  }

  /** A step brings at most one thread, and that handles an event only if none did. */
  lemma DispatchingThreads(s: State, a: Action)
    requires Enabled(s, a)
    ensures var t, t' := s.threads, Apply(s, a).threads;
      && |t| <= |t'| <= |t| + 1
      && (forall j :: 0 <= j < |t| ==> InDispatch(t'[j]) ==> InDispatch(t[j]))
      && (|t'| > |t| && InDispatch(t'[|t|]) ==> Waiting(t))
  {
    ThreadsAfter(s, a, Apply(s, a).threads);
    hide Apply, FindHandler;
  }

  lemma StepKeepsOneDispatch(s: State, a: Action)
    requires OneDispatch(s.threads) && Enabled(s, a)
    ensures OneDispatch(Apply(s, a).threads)
  {
    DispatchingThreads(s, a);
    hide Apply, Enabled, InDispatch;
    var t, t' := s.threads, Apply(s, a).threads;
    assert |t'| > |t| ==> forall j :: 0 <= j < |t| ==> !InDispatch(t'[j]) || !InDispatch(t'[|t|]);
    assert OneDispatch(t');
  }

  lemma {:induction false} NoneInFlight(threads: seq<Thread>, c: nat)
    requires forall i :: 0 <= i < |threads| ==> !InDispatch(threads[i])
    ensures InFlight(threads, c) == 0
  {
    if threads != [] {
      assert !InDispatch(threads[0]);
      NoneInFlight(threads[1..], c);
    }
  }

  lemma {:induction false} OneInFlight(threads: seq<Thread>, c: nat)
    requires OneDispatch(threads)
    ensures InFlight(threads, c) <= 1
  {
    hide InDispatch;
    if threads != [] {
      if Dispatching(threads[0], c) {
        assert InDispatch(threads[0]);
        NoneInFlight(threads[1..], c);
      } else {
        OneInFlight(threads[1..], c);
      }
    }
  }

  /** Every step that keeps the discipline keeps the invariant. */
  lemma StepKeeps(s: State, a: Action)
    requires Inv(s) && Enabled(s, a) && Disciplined(s, a)
    ensures Inv(Apply(s, a))
  {
    hide Core, OrderOk, IdsOk, OwnersOk, OneDispatch, Apply, Enabled, Disciplined;
    StepKeepsOneDispatch(s, a);
    StepKeepsCore(s, a);
    StepKeepsOrder(s, a);
    StepKeepsIds(s, a);
    StepKeepsOwners(s, a);
    assert Inv(Apply(s, a));
  }

  lemma {:induction false} RunKeeps(s: State, trace: seq<Action>)
    requires Inv(s) && Possible(s, trace) && DisciplinedRun(s, trace)
    ensures Inv(Run(s, trace))
    decreases |trace|
  {
    hide Inv, Apply, Enabled, Disciplined;
    if trace != [] {
      StepKeeps(s, trace[0]);
      RunKeeps(Apply(s, trace[0]), trace[1..]);
    }
  }

  /**
   In every interleaving that keeps the discipline: no step uses a deleted command; a command is deleted at most
   once, and exactly when its count is zero; and its count is the owner's one token, wherever that is, and one for
   the dispatch in flight.
   */
  lemma CommandsAreSafe(s: State, trace: seq<Action>)
    requires Init(s) && Possible(s, trace) && DisciplinedRun(s, trace)
    ensures var e := Run(s, trace);
      && !e.fault
      && forall c :: 0 <= c < |e.cmds| ==>
           && e.cmds[c].deletions <= 1 && (e.cmds[c].deletions == 1 <==> e.cmds[c].refs == 0)
           && Owner(e, c) <= 1 && InFlight(e.threads, c) <= 1
           && e.cmds[c].refs == Owner(e, c) + InFlight(e.threads, c)
  {
    InitInv(s);
    RunKeeps(s, trace);
    var e := Run(s, trace);
    forall c | 0 <= c < |e.cmds|
      ensures Held(e.threads, c) == OwnerHeld(e.threads, c) + InFlight(e.threads, c) && InFlight(e.threads, c) <= 1
    {
      HeldSplits(e.threads, c);
      OneInFlight(e.threads, c);
    }
  }

  // ----- Who loses a handler -----

  /** The first handler of `c`'s event is its own. */
  lemma FirstIsFound(h: seq<Handler>, c: nat, p: nat)
    requires Distinct(h) && p < |h| && h[p].cmd == c
    ensures FirstOfKey(h, c) <==> FindHandler(h, h[p].key) == p
  {
    hide FindHandler;
    var k := FindHandler(h, h[p].key);
    if k < p {
      assert h[k].key == h[p].key;
    }
  }

  lemma RemovedIffFound(h: seq<Handler>, key: Key, p: nat)
    requires Distinct(h) && p < |h|
    ensures (exists k :: 0 <= k < |RemoveHandler(h, key)| && RemoveHandler(h, key)[k].cmd == h[p].cmd)
            <==> FindHandler(h, key) != p
  {
    var left, f := RemoveHandler(h, key), FindHandler(h, key);
    RemovalLeaves(h, key);
    hide FindHandler, RemoveHandler;
    if f != p {
      assert left[if f < p then p - 1 else p].cmd == h[p].cmd;
    }
  }

  /**
   A command loses its handler in a step if and only if the step is its own completion or cancel, or a late one: of a
   command of the same event that has lost its own handler before, while this handler is the first for the event.
   */
  lemma HandlerLostIff(s: State, a: Action, c: nat)
    requires Inv(s) && Enabled(s, a) && HasHandler(s, c)
    ensures !HasHandler(Apply(s, a), c) <==>
      && RemovesHandler(a)
      && var d := s.threads[a.i].c;
         d == c || (KeyOf(s, d) == KeyOf(s, c) && !HasHandler(s, d) && FirstOfKey(s.handlers, c))
  {
    var s', h := Apply(s, a), s.handlers;
    var p :| 0 <= p < |h| && h[p].cmd == c;
    HandlersAfter(s, a);
    hide Apply, FindHandler, RemoveHandler;
    if !RemovesHandler(a) {
      assert s'.handlers[p].cmd == c;
    } else {
      var d := s.threads[a.i].c;
      RemoverIsFirst(s, a);
      RemovedIffFound(h, KeyOf(s, d), p);
      FirstIsFound(h, c, p);
      assert h[p].key == KeyOf(s, c);
      if HasHandler(s, d) {
        var q :| 0 <= q < |h| && h[q].cmd == d;
        FirstIsFound(h, d, q);
        assert h[q].key == KeyOf(s, d);
      }
      hide CountsOk, RequestsOk, HandlersOk, IdsOk, OwnersOk, KeyOf, FirstOfKey;
      assert HasHandler(s', c) <==> FindHandler(h, KeyOf(s, d)) != p;
    }
  }

  lemma RemoverIsFirst(s: State, a: Action)
    requires Inv(s) && Enabled(s, a) && RemovesHandler(a)
    ensures FirstOfKey(s.handlers, s.threads[a.i].c)
  {
    if a.CancelUnregister? {
      var c := s.threads[a.i].c;
      OwnerAtLeast(s.threads, a.i, c);
      assert Owner(s, c) <= 1;
      OwnedIsFirst(s, c);
    }
  }

  lemma {:induction false} OneMoreStep(s: State, trace: seq<Action>, a: Action)
    requires Possible(s, trace) && DisciplinedRun(s, trace) && Enabled(Run(s, trace), a) && Disciplined(Run(s, trace), a)
    ensures Possible(s, trace + [a]) && DisciplinedRun(s, trace + [a]) && Run(s, trace + [a]) == Apply(Run(s, trace), a)
    decreases |trace|
  {
    hide Apply, Enabled, Disciplined;
    if trace == [] {
      assert (trace + [a])[1..] == [];
    } else {
      assert (trace + [a])[1..] == trace[1..] + [a];
      OneMoreStep(Apply(s, trace[0]), trace[1..], a);
    }
  }

  lemma Then(s: State, before: seq<Action>, a: Action) returns (trace: seq<Action>, e: State)
    requires Possible(s, before) && DisciplinedRun(s, before) && Enabled(Run(s, before), a) && Disciplined(Run(s, before), a)
    ensures Possible(s, trace) && DisciplinedRun(s, trace) && e == Run(s, trace) == Apply(Run(s, before), a)
  {
    OneMoreStep(s, before, a);
    trace := before + [a];
    e := Run(s, trace);
  }

  lemma FirstRegisters(s: State, key: Key) returns (trace: seq<Action>)
    requires Init(s)
    ensures Possible(s, trace) && DisciplinedRun(s, trace)
    ensures Run(s, trace) == State([Cmd(1, key, 1, 0)], [Handler(key, 0)], [Entry(1, 0)], {}, [Done], false)
  {
    trace := [];
    var e := s;
    trace, e := Then(s, trace, NewRequest(1, key));
    hide Possible, DisciplinedRun, Run, RemoveEntry;
    trace, e := Then(s, trace, RegisterCmd(0));
    trace, e := Then(s, trace, FinishStart(0, true));
    assert e == State([Cmd(1, key, 1, 0)], [Handler(key, 0)], [Entry(1, 0)], {}, [Done], false);
  }

  /** An event of the first command is under way, and a cancel has removed its handler. */
  function AfterFirst(key: Key): State {
    State([Cmd(1, key, 2, 0)], [], [], {}, [Done, DispCallback(0), CancelUnregistered(0)], false)
  }

  lemma FirstHasEvent(s: State, key: Key) returns (trace: seq<Action>)
    requires Init(s)
    ensures Possible(s, trace) && DisciplinedRun(s, trace)
    ensures Run(s, trace)
            == State([Cmd(1, key, 2, 0)], [Handler(key, 0)], [Entry(1, 0)], {}, [Done, DispCallback(0)], false)
  {
    trace := FirstRegisters(s, key);
    var e := Run(s, trace);
    hide Possible, DisciplinedRun, Run;
    trace, e := Then(s, trace, Dispatch(key));
    assert e == State([Cmd(1, key, 2, 0)], [Handler(key, 0)], [Entry(1, 0)], {}, [Done, DispCallback(0)], false);
  }

  lemma FirstIsCancelled(s: State, key: Key) returns (trace: seq<Action>)
    requires Init(s)
    ensures Possible(s, trace) && DisciplinedRun(s, trace) && Run(s, trace) == AfterFirst(key)
  {
    trace := FirstHasEvent(s, key);
    var e := Run(s, trace);
    hide Possible, DisciplinedRun, Run;
    trace, e := Then(s, trace, CancelBegin(1));
    assert e == State([Cmd(1, key, 2, 0)], [Handler(key, 0)], [], {}, [Done, DispCallback(0), CancelTook(0)], false);
    trace, e := Then(s, trace, CancelUnregister(2));
    assert e == AfterFirst(key);
  }

  /** A second command is registered for the same event. */
  function AfterSecond(key: Key): State {
    State([Cmd(1, key, 2, 0), Cmd(2, key, 1, 0)], [Handler(key, 1)], [Entry(2, 1)], {},
          [Done, DispCallback(0), CancelUnregistered(0), Done], false)
  }

  lemma SecondRegisters(s: State, key: Key) returns (trace: seq<Action>)
    requires Init(s)
    ensures Possible(s, trace) && DisciplinedRun(s, trace) && Run(s, trace) == AfterSecond(key)
  {
    trace := FirstIsCancelled(s, key);
    var e := Run(s, trace);
    hide Possible, DisciplinedRun, Run, RemoveEntry;
    trace, e := Then(s, trace, NewRequest(2, key));
    assert e == AfterFirst(key).(cmds := [Cmd(1, key, 2, 0), Cmd(2, key, 1, 0)],
                                 threads := [Done, DispCallback(0), CancelUnregistered(0), ReqCreated(1)]);
    trace, e := Then(s, trace, RegisterCmd(3));
    assert e == AfterSecond(key).(handlers := [],
                                  threads := [Done, DispCallback(0), CancelUnregistered(0), ReqInTable(1)]);
    trace, e := Then(s, trace, FinishStart(3, true));
    assert e == AfterSecond(key);
  }

  /**
   A disciplined run in which a live command loses its handler to a cancelled one: an event of the first command is
   under way when this is cancelled, a second command registers for the same event, and the event turns out to complete
   the first.
   */
  lemma LateEventTakesHandler(s: State, key: Key) returns (trace: seq<Action>)
    requires Init(s)
    ensures Possible(s, trace) && DisciplinedRun(s, trace)
    ensures var e := Run(s, trace);
      && e.handlers == [] && InTable(e.table, 1) && |e.cmds| == 2 && e.cmds[1].deletions == 0
      && forall i :: 0 <= i < |e.threads| ==> !UsesId(e.threads[i], 1)
  {
    trace := SecondRegisters(s, key);
    var e := Run(s, trace);
    hide Possible, DisciplinedRun, Run;
    trace, e := Then(s, trace, HandleEvent(1, true));
    assert e == AfterSecond(key).(handlers := [], threads := [Done, DispUnregistered(0), CancelUnregistered(0), Done]);
    assert e.table[0].cmd == 1;
  }
}

/**
 The life of an RTT command under its threads: the request that creates it, the dispatch of events to it, the
 completion inside a dispatch, and the cancel. Each step is one access to the handler table, the command table
 or a reference count.
 */
module WifiLifetime {

  const TABLE_SIZE := 64

  /** What an event is known by. */
  datatype Key = Key(vendor: int, subcmd: int)

  /** `deletions` counts how often the object deleted itself. */
  datatype Cmd = Cmd(id: int, key: Key, refs: int, deletions: nat)

  datatype Handler = Handler(key: Key, cmd: nat)
  datatype Entry = Entry(id: int, cmd: nat)

  datatype Thread =
    | ReqCreated(c: nat)                 // before wifi_register_cmd
    | ReqInTable(c: nat)                 // inside start()
    | DispCallback(c: nat)               // reference added, callback not yet run
    | DispUnregistered(c: nat)           // completed: handler removed
    | DispTook(c: nat, owned: nat)       // completed: command taken from the table
    | DispReleasing(c: nat)              // callback done
    | CancelTook(c: nat)                 // command taken from the table
    | CancelUnregistered(c: nat)         // handler removed
    | Done

  /** Commands are known by their number; `leaked` are those that found the command table full. */
  datatype State = State(
    cmds: seq<Cmd>, handlers: seq<Handler>, table: seq<Entry>, leaked: set<nat>,
    threads: seq<Thread>, fault: bool)

  datatype Action =
    | NewRequest(id: int, key: Key) | RegisterCmd(i: nat) | FinishStart(i: nat, ok: bool)
    | Dispatch(key: Key) | HandleEvent(i: nat, completed: bool) | TakeOwn(i: nat) | DropOwner(i: nat) | DropDispatch(i: nat)
    | CancelBegin(id: int) | CancelUnregister(i: nat) | CancelRelease(i: nat)

  ghost predicate Init(s: State) {
    s.cmds == [] && s.handlers == [] && s.table == [] && s.leaked == {} && s.threads == [] && !s.fault
  }

  // ----- The tables -----

  /** The first handler for `key`, or the length. */
  function FindHandler(h: seq<Handler>, key: Key): (k: nat)
    ensures k <= |h| && (forall i :: 0 <= i < k ==> h[i].key != key) && (k < |h| ==> h[k].key == key)
  {
    if h == [] || h[0].key == key then 0 else FindHandler(h[1..], key) + 1
  }

  function RemoveHandler(h: seq<Handler>, key: Key): seq<Handler> {
    var k := FindHandler(h, key);
    if k < |h| then h[..k] + h[k + 1..] else h
  }

  function FindEntry(t: seq<Entry>, id: int): (k: nat)
    ensures k <= |t| && (forall i :: 0 <= i < k ==> t[i].id != id) && (k < |t| ==> t[k].id == id)
  {
    if t == [] || t[0].id == id then 0 else FindEntry(t[1..], id) + 1
  }

  function RemoveEntry(t: seq<Entry>, k: nat): seq<Entry>
    requires k < |t|
  {
    t[..k] + t[k + 1..]
  }

  // ----- The steps -----

  predicate InRange(s: State, c: nat) {
    c < |s.cmds|
  }

  /** A use of the object; of a deleted one it is a fault. */
  function Touch(s: State, c: nat): State {
    if c < |s.cmds| && s.cmds[c].deletions == 0 then s else s.(fault := true)
  }

  function AddRef(s: State, c: nat): State {
    if c < |s.cmds| then
      var x := s.cmds[c];
      Touch(s, c).(cmds := s.cmds[c := x.(refs := x.refs + 1)])
    else s.(fault := true)
  }

  /** The object deletes itself when its count reaches zero. */
  function ReleaseRef(s: State, c: nat): State {
    if c < |s.cmds| then
      var x := s.cmds[c];
      var n := x.refs - 1;
      Touch(s, c).(cmds := s.cmds[c := x.(refs := n, deletions := x.deletions + if n == 0 then 1 else 0)])
    else s.(fault := true)
  }

  function Go(s: State, i: nat, t: Thread): State
    requires i < |s.threads|
  {
    s.(threads := s.threads[i := t])
  }

  function KeyOf(s: State, c: nat): Key {
    if c < |s.cmds| then s.cmds[c].key else Key(0, 0)
  }

  function IdOf(s: State, c: nat): int {
    if c < |s.cmds| then s.cmds[c].id else 0
  }

  /** The thread handles an event. */
  predicate InDispatch(t: Thread) {
    t.DispCallback? || t.DispUnregistered? || t.DispTook? || t.DispReleasing?
  }

  /** The one event loop has handled all it received, and waits. */
  predicate Waiting(threads: seq<Thread>) {
    forall i :: 0 <= i < |threads| ==> !InDispatch(threads[i])
  }

  predicate Enabled(s: State, a: Action) {
    match a
    case NewRequest(_, _) => true
    case RegisterCmd(i) => i < |s.threads| && s.threads[i].ReqCreated?
    case FinishStart(i, _) => i < |s.threads| && s.threads[i].ReqInTable?
    case Dispatch(_) => Waiting(s.threads)
    case HandleEvent(i, _) => i < |s.threads| && s.threads[i].DispCallback?
    case TakeOwn(i) => i < |s.threads| && s.threads[i].DispUnregistered?
    case DropOwner(i) => i < |s.threads| && s.threads[i].DispTook?
    case DropDispatch(i) => i < |s.threads| && s.threads[i].DispReleasing?
    case CancelBegin(_) => true
    case CancelUnregister(i) => i < |s.threads| && s.threads[i].CancelTook?
    case CancelRelease(i) => i < |s.threads| && s.threads[i].CancelUnregistered?
  }

  function Apply(s: State, a: Action): State
    requires Enabled(s, a)
  {
    match a
    case NewRequest(id, key) =>
      s.(cmds := s.cmds + [Cmd(id, key, 1, 0)], threads := s.threads + [ReqCreated(|s.cmds|)])
    case RegisterCmd(i) =>
      var c := s.threads[i].c;
      if |s.table| < TABLE_SIZE then Go(s, i, ReqInTable(c)).(table := s.table + [Entry(IdOf(s, c), c)])
      else Go(s, i, ReqInTable(c)).(leaked := s.leaked + {c})
    case FinishStart(i, ok) =>
      var c := s.threads[i].c;
      var s1 := Go(Touch(s, c), i, Done);
      if ok && |s.handlers| < TABLE_SIZE then s1.(handlers := s.handlers + [Handler(KeyOf(s, c), c)]) else s1
    case Dispatch(key) =>
      var k := FindHandler(s.handlers, key);
      if k == |s.handlers| then s
      else
        var c := s.handlers[k].cmd;
        AddRef(s, c).(threads := s.threads + [DispCallback(c)])
    case HandleEvent(i, completed) =>
      var c := s.threads[i].c;
      if completed then Go(Touch(s, c), i, DispUnregistered(c)).(handlers := RemoveHandler(s.handlers, KeyOf(s, c)))
      else Go(Touch(s, c), i, DispReleasing(c))
    case TakeOwn(i) =>
      var c := s.threads[i].c;
      var k := FindEntry(s.table, IdOf(s, c));
      if k == |s.table| then Go(Touch(s, c), i, DispReleasing(c))
      else Go(Touch(s, c), i, DispTook(c, s.table[k].cmd)).(table := RemoveEntry(s.table, k))
    case DropOwner(i) => Go(ReleaseRef(s, s.threads[i].owned), i, DispReleasing(s.threads[i].c))
    case DropDispatch(i) => Go(ReleaseRef(s, s.threads[i].c), i, Done)
    case CancelBegin(id) =>
      var k := FindEntry(s.table, id);
      if k == |s.table| then s
      else s.(threads := s.threads + [CancelTook(s.table[k].cmd)], table := RemoveEntry(s.table, k))
    case CancelUnregister(i) =>
      var c := s.threads[i].c;
      Go(Touch(s, c), i, CancelUnregistered(c)).(handlers := RemoveHandler(s.handlers, KeyOf(s, c)))
    case CancelRelease(i) => Go(ReleaseRef(s, s.threads[i].c), i, Done)
  }

  // ----- What the callers owe -----

  predicate HasHandler(s: State, c: nat) {
    exists i :: 0 <= i < |s.handlers| && s.handlers[i].cmd == c
  }

  /** The command is in the table. */
  predicate InTable(table: seq<Entry>, c: nat) {
    exists i :: 0 <= i < |table| && table[i].cmd == c
  }

  /** The thread may yet look for `c` in the command table by its id, or register its handler. */
  predicate UsesId(t: Thread, c: nat) {
    (t.ReqCreated? || t.ReqInTable? || t.DispCallback? || t.DispUnregistered?) && t.c == c
  }

  /** The command can still complete. One that cannot may stay in the table, or be deleted. */
  predicate Active(s: State, c: nat) {
    HasHandler(s, c) || exists i :: 0 <= i < |s.threads| && UsesId(s.threads[i], c)
  }

  /**
   A request does not take the id of a command that can still complete; a command in the table is not given a
   handler for an event that has one; and a command is not cancelled while its request is inside start().
   */
  predicate Disciplined(s: State, a: Action)
    requires Enabled(s, a)
  {
    match a
    case NewRequest(id, _) => forall c :: 0 <= c < |s.cmds| && Active(s, c) ==> s.cmds[c].id != id
    case FinishStart(i, ok) =>
      ok && |s.handlers| < TABLE_SIZE && InTable(s.table, s.threads[i].c) ==>
        FindHandler(s.handlers, KeyOf(s, s.threads[i].c)) == |s.handlers|
    case CancelBegin(id) =>
      var k := FindEntry(s.table, id);
      k < |s.table| ==> forall i :: 0 <= i < |s.threads| ==> s.threads[i] != ReqInTable(s.table[k].cmd)
    case _ => true
  }

  predicate Possible(s: State, trace: seq<Action>)
    decreases |trace|
  {
    trace == [] || (Enabled(s, trace[0]) && Possible(Apply(s, trace[0]), trace[1..]))
  }

  predicate DisciplinedRun(s: State, trace: seq<Action>)
    requires Possible(s, trace)
    decreases |trace|
  {
    trace == [] || (Disciplined(s, trace[0]) && DisciplinedRun(Apply(s, trace[0]), trace[1..]))
  }

  function Run(s: State, trace: seq<Action>): State
    requires Possible(s, trace)
    decreases |trace|
  {
    if trace == [] then s else Run(Apply(s, trace[0]), trace[1..])
  }

  // ----- What the commands are -----

  /** The ids and events of the requests, in order. */
  function Requests(trace: seq<Action>): seq<(int, Key)> {
    if trace == [] then []
    else (if trace[0].NewRequest? then [(trace[0].id, trace[0].key)] else []) + Requests(trace[1..])
  }

  function Known(cmds: seq<Cmd>): (r: seq<(int, Key)>)
    ensures |r| == |cmds| && forall c :: 0 <= c < |cmds| ==> r[c] == (cmds[c].id, cmds[c].key)
  {
    seq(|cmds|, c requires 0 <= c < |cmds| => (cmds[c].id, cmds[c].key))
  }

  lemma StepKnows(s: State, a: Action)
    requires Enabled(s, a)
    ensures Known(Apply(s, a).cmds) == Known(s.cmds) + if a.NewRequest? then [(a.id, a.key)] else []
  {
    hide FindEntry, FindHandler, RemoveHandler, RemoveEntry;
  }

  /** In every run the commands are the requests made, in order, and keep their ids and events. */
  lemma {:induction false} CommandsAreRequests(s: State, trace: seq<Action>)
    requires Possible(s, trace)
    ensures Known(Run(s, trace).cmds) == Known(s.cmds) + Requests(trace)
    decreases |trace|
  {
    hide Apply, Enabled, Known;
    if trace == [] {
      assert Known(s.cmds) + [] == Known(s.cmds);
    } else {
      StepKnows(s, trace[0]);
      CommandsAreRequests(Apply(s, trace[0]), trace[1..]);
      var first := if trace[0].NewRequest? then [(trace[0].id, trace[0].key)] else [];
      assert Known(s.cmds) + first + Requests(trace[1..]) == Known(s.cmds) + (first + Requests(trace[1..]));
    }
  }

  // ----- Counting references -----

  function HeldBy(t: Thread, c: nat): nat {
    match t
    case ReqCreated(d) => if d == c then 1 else 0
    case ReqInTable(_) => 0
    case DispTook(d, owned) => (if d == c then 1 else 0) + (if owned == c then 1 else 0)
    case Done => 0
    case _ => if t.c == c then 1 else 0
  }

  function Held(threads: seq<Thread>, c: nat): nat {
    if threads == [] then 0 else HeldBy(threads[0], c) + Held(threads[1..], c)
  }

  function Listed(table: seq<Entry>, c: nat): nat {
    if table == [] then 0 else (if table[0].cmd == c then 1 else 0) + Listed(table[1..], c)
  }

  /** The owner's reference, wherever it is, and one for each dispatch in flight. */
  function Tokens(s: State, c: nat): nat {
    Held(s.threads, c) + Listed(s.table, c) + if c in s.leaked then 1 else 0
  }

  lemma {:induction false} HeldUpdate(threads: seq<Thread>, i: nat, t: Thread, c: nat)
    requires i < |threads|
    ensures Held(threads[i := t], c) + HeldBy(threads[i], c) == Held(threads, c) + HeldBy(t, c)
    decreases |threads|
  {
    hide HeldBy;
    if i == 0 {
      assert threads[0 := t][1..] == threads[1..];
    } else {
      assert threads[i := t][1..] == threads[1..][i - 1 := t];
      HeldUpdate(threads[1..], i - 1, t, c);
    }
  }

  lemma {:induction false} HeldAppend(threads: seq<Thread>, t: Thread, c: nat)
    ensures Held(threads + [t], c) == Held(threads, c) + HeldBy(t, c)
    decreases |threads|
  {
    hide HeldBy;
    if threads == [] {
      assert (threads + [t])[1..] == [];
    } else {
      assert (threads + [t])[1..] == threads[1..] + [t];
      HeldAppend(threads[1..], t, c);
    }
  }

  lemma {:induction false} HeldAtLeast(threads: seq<Thread>, i: nat, c: nat)
    requires i < |threads|
    ensures Held(threads, c) >= HeldBy(threads[i], c)
    decreases |threads|
  {
    hide HeldBy;
    if i > 0 {
      HeldAtLeast(threads[1..], i - 1, c);
    }
  }

  lemma {:induction false} ListedAppend(table: seq<Entry>, e: Entry, c: nat)
    ensures Listed(table + [e], c) == Listed(table, c) + if e.cmd == c then 1 else 0
    decreases |table|
  {
    if table == [] {
      assert (table + [e])[1..] == [];
    } else {
      assert (table + [e])[1..] == table[1..] + [e];
      ListedAppend(table[1..], e, c);
    }
  }

  lemma {:induction false} ListedRemove(table: seq<Entry>, k: nat, c: nat)
    requires k < |table|
    ensures Listed(RemoveEntry(table, k), c) + (if table[k].cmd == c then 1 else 0) == Listed(table, c)
    decreases |table|
  {
    if k == 0 {
      assert RemoveEntry(table, 0) == table[1..];
    } else {
      assert RemoveEntry(table, k)[1..] == RemoveEntry(table[1..], k - 1);
      ListedRemove(table[1..], k - 1, c);
    }
  }

  lemma {:induction false} ListedIff(table: seq<Entry>, c: nat)
    ensures Listed(table, c) > 0 <==> InTable(table, c)
    decreases |table|
  {
    if table != [] {
      ListedIff(table[1..], c);
      if InTable(table[1..], c) {
        var i :| 0 <= i < |table[1..]| && table[1..][i].cmd == c;
        assert table[i + 1].cmd == c;
      }
      if InTable(table, c) && table[0].cmd != c {
        var i :| 0 <= i < |table| && table[i].cmd == c;
        assert table[1..][i - 1].cmd == c;
      }
    }
  }

  // ----- The owner's token -----

  predicate Dispatching(t: Thread, c: nat) {
    InDispatch(t) && t.c == c
  }

  /** The dispatches of `c` in flight: none or one. */
  function InFlight(threads: seq<Thread>, c: nat): nat {
    if threads == [] then 0 else (if Dispatching(threads[0], c) then 1 else 0) + InFlight(threads[1..], c)
  }

  /** The request holds the owner's token before the table, a completion or a cancel behind it. */
  predicate OwnedBy(t: Thread, c: nat) {
    (t.DispTook? && t.owned == c) || ((t.ReqCreated? || t.CancelTook? || t.CancelUnregistered?) && t.c == c)
  }

  function OwnerHeld(threads: seq<Thread>, c: nat): nat {
    if threads == [] then 0 else (if OwnedBy(threads[0], c) then 1 else 0) + OwnerHeld(threads[1..], c)
  }

  function Owner(s: State, c: nat): nat {
    OwnerHeld(s.threads, c) + Listed(s.table, c) + if c in s.leaked then 1 else 0
  }

  lemma {:induction false} HeldSplits(threads: seq<Thread>, c: nat)
    ensures Held(threads, c) == OwnerHeld(threads, c) + InFlight(threads, c)
  {
    if threads != [] {
      HeldSplits(threads[1..], c);
    }
  }

  lemma {:induction false} OwnerUpdate(threads: seq<Thread>, i: nat, t: Thread, c: nat)
    requires i < |threads|
    ensures OwnerHeld(threads[i := t], c) + (if OwnedBy(threads[i], c) then 1 else 0)
            == OwnerHeld(threads, c) + if OwnedBy(t, c) then 1 else 0
    decreases |threads|
  {
    hide OwnedBy;
    if i == 0 {
      assert threads[0 := t][1..] == threads[1..];
    } else {
      assert threads[i := t][1..] == threads[1..][i - 1 := t];
      OwnerUpdate(threads[1..], i - 1, t, c);
    }
  }

  lemma {:induction false} OwnerAppend(threads: seq<Thread>, t: Thread, c: nat)
    ensures OwnerHeld(threads + [t], c) == OwnerHeld(threads, c) + if OwnedBy(t, c) then 1 else 0
    decreases |threads|
  {
    hide OwnedBy;
    if threads == [] {
      assert (threads + [t])[1..] == [];
    } else {
      assert (threads + [t])[1..] == threads[1..] + [t];
      OwnerAppend(threads[1..], t, c);
    }
  }

  /** The token of a new command is made once; every other step moves it, gives it back or leaves it. */
  lemma OwnerStep(s: State, a: Action, c: nat)
    requires Enabled(s, a)
    ensures Owner(Apply(s, a), c) <= Owner(s, c) + if a.NewRequest? && c == |s.cmds| then 1 else 0
  {
    hide OwnerHeld, Listed, FindHandler, FindEntry, RemoveHandler, RemoveEntry, KeyOf;
    var s' := Apply(s, a);
    match a {
      case NewRequest(_, _) => OwnerAppend(s.threads, ReqCreated(|s.cmds|), c);
      case RegisterCmd(i) =>
        OwnerUpdate(s.threads, i, s'.threads[i], c);
        ListedAppend(s.table, Entry(IdOf(s, s.threads[i].c), s.threads[i].c), c);
      case Dispatch(key) =>
        var k := FindHandler(s.handlers, key);
        if k < |s.handlers| {
          OwnerAppend(s.threads, DispCallback(s.handlers[k].cmd), c);
        }
      case TakeOwn(i) =>
        OwnerUpdate(s.threads, i, s'.threads[i], c);
        var k := FindEntry(s.table, IdOf(s, s.threads[i].c));
        if k < |s.table| {
          ListedRemove(s.table, k, c);
        }
      case CancelBegin(id) =>
        var k := FindEntry(s.table, id);
        if k < |s.table| {
          OwnerAppend(s.threads, CancelTook(s.table[k].cmd), c);
          ListedRemove(s.table, k, c);
        }
      case _ => OwnerUpdate(s.threads, a.i, s'.threads[a.i], c);
    }
  }
}

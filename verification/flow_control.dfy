/**
 Receive flow control on one channel, in every interleaving of the frame assembler and the retry threads it
 starts. A frame that does not fit the pty becomes the first of the pending list, later frames queue up behind
 it, and a retry thread drains the list and then turns flow control on again. Retry threads may overlap: one
 that has drained its list can still be announcing this when the next one is started. The two flags share an octet
 with the transmit flag, which the assembler writes under another lock: it reads all of them, and writes them back.
 */
module FlowControl {
  import opened Octets

  /** Where the assembler stands with the frame it is handling. */
  datatype Assembler =
    | Idle
    | Writing(frame: seq<Octet>)                 // about to write it to the pty
    | Caching(frame: seq<Octet>, written: nat)   // a part was written, the rest is not yet in the list
    | Choking                                    // the rest is in the list, flow control not yet off
    | Starting                                   // flow control off, thread not yet created
    | Signalling(fcOff: bool, threadFlag: bool)  // transmit flag about to be written, with these two as they were read

  datatype Retry =
    | Created
    | Draining(frame: seq<Octet>, written: nat)
    | Popping
    | Finishing
    | Done

  /** MUXD_VT_CH_NUM: on the video channel a frame that would block is discarded. */
  const VT_CHANNEL := 24

  /** `pty` is what was written to the pty so far, `accepted` the payloads taken over for delivery. */
  datatype State = State(
    channel: nat, assembler: Assembler, threads: seq<Retry>,
    queue: seq<seq<Octet>>, total: nat, writtenOfFirst: nat, fcOff: bool, threadFlag: bool,
    asserted: bool, pty: seq<Octet>, accepted: seq<seq<Octet>>)

  datatype Action =
    | Arrive(payload: seq<Octet>)
    | WriteDirect(k: nat) | DirectWouldBlock | CacheRemaining | TurnOff | StartThread
    | TakeFirst(i: nat) | WriteRetry(i: nat, k: nat) | TakeNext(i: nat) | Finish(i: nat)
    | ReadFlags | WriteFlags

  ghost predicate Init(s: State) {
    && s.assembler == Idle && s.threads == [] && s.queue == [] && s.total == s.writtenOfFirst == 0
    && !s.fcOff && !s.threadFlag && !s.asserted && s.pty == [] && s.accepted == []
  }

  /** A frame comes out of the reassembly buffer, and a write takes any part of what it is given. */
  predicate Enabled(s: State, a: Action) {
    match a
    case Arrive(payload) => s.assembler.Idle? && |payload| <= BUFFER_SIZE
    case WriteDirect(k) => s.assembler.Writing? && k <= |s.assembler.frame|
    case DirectWouldBlock => s.assembler.Writing?
    case CacheRemaining => s.assembler.Caching? && s.assembler.written <= |s.assembler.frame|
    case TurnOff => s.assembler.Choking?
    case StartThread => s.assembler.Starting?
    case TakeFirst(i) => i < |s.threads| && s.threads[i].Created?
    case WriteRetry(i, k) =>
      && i < |s.threads| && s.threads[i].Draining?
      && s.threads[i].written + k <= |s.threads[i].frame|
    case TakeNext(i) => i < |s.threads| && s.threads[i].Popping?
    case Finish(i) => i < |s.threads| && s.threads[i].Finishing?
    case ReadFlags => s.assembler.Idle?
    case WriteFlags => s.assembler.Signalling?
  }

  function Apply(s: State, a: Action): State
    requires Enabled(s, a)
  {
    match a
    case Arrive(payload) =>
      if !s.fcOff then s.(assembler := Writing(payload))
      else if s.total + |payload| > HIGH_WATERMARK then s
      else s.(total := s.total + |payload|, queue := s.queue + [payload], accepted := s.accepted + [payload])
    case WriteDirect(k) =>
      var f := s.assembler.frame;
      s.(pty := s.pty + f[..k], accepted := s.accepted + [f],
         assembler := if k < |f| then Caching(f, k) else Idle)
    case DirectWouldBlock =>
      var f := s.assembler.frame;
      if s.channel == VT_CHANNEL then s.(assembler := Idle)
      else s.(accepted := s.accepted + [f], assembler := Caching(f, 0))
    case CacheRemaining =>
      var f, w := s.assembler.frame, s.assembler.written;
      if s.queue != [] then s.(asserted := true)
      else s.(total := |f| - w, queue := [f], writtenOfFirst := w, assembler := Choking)
    // The wait for the previous thread's signal may end at any time.
    case TurnOff => s.(fcOff := true, assembler := Starting)
    case StartThread => s.(threads := s.threads + [Created], assembler := Idle)
    case TakeFirst(i) =>
      if s.queue == [] then s.(threadFlag := true, asserted := true)
      else s.(threadFlag := true, threads := s.threads[i := Draining(s.queue[0], s.writtenOfFirst)],
              queue := s.queue[1..], writtenOfFirst := 0)
    case WriteRetry(i, k) =>
      var f, w := s.threads[i].frame, s.threads[i].written;
      s.(pty := s.pty + f[w..w + k],
         threads := s.threads[i := if w + k < |f| then Draining(f, w + k) else Popping])
    case TakeNext(i) =>
      if s.queue == [] then s.(fcOff := false, threads := s.threads[i := Finishing])
      else s.(threads := s.threads[i := Draining(s.queue[0], 0)], queue := s.queue[1..])
    case Finish(i) => s.(threadFlag := false, threads := s.threads[i := Done])
    case ReadFlags => s.(assembler := Signalling(s.fcOff, s.threadFlag))
    case WriteFlags =>
      s.(assembler := Idle, fcOff := s.assembler.fcOff, threadFlag := s.assembler.threadFlag)
  }

  /** The thread still has frames to write, or to look for. */
  predicate Active(t: Retry) {
    t.Created? || t.Draining? || t.Popping?
  }

  predicate SomeActive(s: State) {
    s.threads != [] && Active(s.threads[|s.threads| - 1])
  }

  function Last(s: State): Retry
    requires s.threads != []
  {
    s.threads[|s.threads| - 1]
  }

  function OfAssembler(a: Assembler): seq<Octet> {
    if a.Caching? && a.written <= |a.frame| then a.frame[a.written..] else []
  }

  function OfThread(threads: seq<Retry>): seq<Octet> {
    if threads == [] then []
    else
      var t := threads[|threads| - 1];
      if t.Draining? && t.written <= |t.frame| then t.frame[t.written..] else []
  }

  function OfQueue(queue: seq<seq<Octet>>, writtenOfFirst: nat): seq<Octet> {
    if writtenOfFirst <= |Concat(queue)| then Concat(queue)[writtenOfFirst..] else []
  }

  /** Accepted octets not yet written, in the order in which they will be. */
  function Outstanding(s: State): seq<Octet> {
    OfAssembler(s.assembler) + OfThread(s.threads) + OfQueue(s.queue, s.writtenOfFirst)
  }

  /** Only the youngest thread may be active, and only while flow control is off. */
  predicate ThreadsOk(s: State) {
    && (forall i :: 0 <= i < |s.threads| - 1 ==> !Active(s.threads[i]))
    && (SomeActive(s) || s.assembler.Starting? ==> s.fcOff)
    && (s.threads != [] && Last(s).Draining? ==> Last(s).written <= |Last(s).frame|)
  }

  predicate AssemblerOk(s: State) {
    && (s.assembler.Starting? ==> !SomeActive(s))
    && (s.assembler.Signalling? && s.fcOff ==> s.assembler.fcOff)
    && (s.assembler.Writing? || s.assembler.Caching? || s.assembler.Choking? ==> !s.fcOff)
    && (s.assembler.Writing? ==> |s.assembler.frame| <= BUFFER_SIZE)
    && (s.assembler.Caching? ==> s.assembler.written <= |s.assembler.frame| <= BUFFER_SIZE)
  }

  /** A first frame waits in the list from its caching until the thread has taken it. */
  predicate FirstWaits(s: State) {
    s.assembler.Choking? || s.assembler.Starting? || (s.threads != [] && Last(s).Created?)
  }

  predicate QueueOk(s: State) {
    && (FirstWaits(s) ==> s.queue != [] && s.writtenOfFirst <= |s.queue[0]|)
    && (!FirstWaits(s) ==> s.writtenOfFirst == 0)
    && (!s.fcOff && !s.assembler.Choking? ==> s.queue == [])
  }

  predicate ShapeOk(s: State) {
    !s.asserted && ThreadsOk(s) && AssemblerOk(s) && QueueOk(s)
  }

  /** The counter bounds what is outstanding while it is in use, and the watermark the counter. */
  predicate TotalOk(s: State) {
    s.total <= HIGH_WATERMARK && (s.fcOff || s.assembler.Choking? ==> |Outstanding(s)| <= s.total)
  }

  predicate Inv(s: State) {
    ShapeOk(s) && TotalOk(s) && s.pty + Outstanding(s) == Concat(s.accepted)
  }

  lemma InitInv(s: State)
    requires Init(s)
    ensures Inv(s)
  {}

  lemma ConcatOne(f: seq<Octet>)
    ensures Concat([f]) == f
  {
    assert [f][1..] == [];
  }

  lemma ConcatLast(q: seq<seq<Octet>>, f: seq<Octet>)
    ensures Concat(q + [f]) == Concat(q) + f
  {
    ConcatAppend(q, [f]);
    ConcatOne(f);
  }

  lemma OutstandingGrows(s: State, payload: seq<Octet>)
    requires QueueOk(s)
    ensures Outstanding(s.(queue := s.queue + [payload])) == Outstanding(s) + payload
  {
    FirstIsPart(s);
    ConcatLast(s.queue, payload);
    var w := s.writtenOfFirst;
    assert OfQueue(s.queue + [payload], w) == OfQueue(s.queue, w) + payload;
    hide OfAssembler, OfThread, OfQueue;
    JoinThree(OfAssembler(s.assembler) + OfThread(s.threads), OfQueue(s.queue, w), payload);
  }

  lemma QueueKeeps(s: State, payload: seq<Octet>)
    requires Inv(s) && s.assembler.Idle? && s.fcOff && s.total + |payload| <= HIGH_WATERMARK
    requires |payload| <= BUFFER_SIZE
    ensures Inv(Apply(s, Arrive(payload)))
  {
    OutstandingGrows(s, payload);
    ConcatLast(s.accepted, payload);
    ArriveShape(s, payload);
    hide Concat, OfAssembler, OfThread, OfQueue, ShapeOk;
    var s' := Apply(s, Arrive(payload));
    assert Outstanding(s') == Outstanding(s.(queue := s.queue + [payload]));
    hide Outstanding;
    JoinThree(s.pty, Outstanding(s), payload);
  }

  lemma ArriveShape(s: State, payload: seq<Octet>)
    requires ShapeOk(s) && Enabled(s, Arrive(payload))
    ensures ShapeOk(Apply(s, Arrive(payload)))
  {}

  lemma ArriveKeeps(s: State, payload: seq<Octet>)
    requires Inv(s) && Enabled(s, Arrive(payload))
    ensures Inv(Apply(s, Arrive(payload)))
  {
    if s.fcOff && s.total + |payload| <= HIGH_WATERMARK {
      QueueKeeps(s, payload);
    } else if !s.fcOff {
      ArriveShape(s, payload);
      hide Concat, OfThread, OfQueue, ShapeOk;
      assert Outstanding(Apply(s, Arrive(payload))) == Outstanding(s);
    }
  }

  /** The parts of what is outstanding are the same. */
  lemma SamePartsOutstanding(s: State, s': State)
    requires OfAssembler(s'.assembler) + OfThread(s'.threads) == OfAssembler(s.assembler) + OfThread(s.threads)
    requires s'.queue == s.queue && s'.writtenOfFirst == s.writtenOfFirst
    ensures Outstanding(s') == Outstanding(s)
  {
    hide OfAssembler, OfThread, OfQueue;
  }

  /** A step that only moves what is outstanding. */
  lemma MoveKeeps(s: State, s': State)
    requires Inv(s) && ShapeOk(s') && Outstanding(s') == Outstanding(s)
    requires s'.pty == s.pty && s'.accepted == s.accepted && s'.total == s.total
    requires s'.fcOff || s'.assembler.Choking? ==> s.fcOff || s.assembler.Choking? || Outstanding(s) == []
    ensures Inv(s')
  {
    hide ShapeOk, Outstanding, Concat;
  }

  lemma ActiveIsLast(s: State, i: nat)
    requires ThreadsOk(s) && AssemblerOk(s) && i < |s.threads| && Active(s.threads[i])
    ensures i == |s.threads| - 1 && SomeActive(s) && s.fcOff && OfAssembler(s.assembler) == []
  {}

  lemma FirstIsPart(s: State)
    requires QueueOk(s)
    ensures s.writtenOfFirst <= |Concat(s.queue)|
    ensures s.queue != [] ==> Concat(s.queue) == s.queue[0] + Concat(s.queue[1..])
  {}

  lemma NothingOutstanding(s: State)
    requires ShapeOk(s) && !s.fcOff && !s.assembler.Choking? && !s.assembler.Caching?
    ensures Outstanding(s) == []
  {
    NothingQueued(s);
    assert OfAssembler(s.assembler) == [];
    hide OfThread, OfQueue;
  }

  lemma DirectShape(s: State, k: nat)
    requires ShapeOk(s) && Enabled(s, WriteDirect(k))
    ensures ShapeOk(Apply(s, WriteDirect(k))) && !s.fcOff && !SomeActive(s)
  {}

  lemma DirectKeeps(s: State, k: nat)
    requires Inv(s) && Enabled(s, WriteDirect(k))
    ensures Inv(Apply(s, WriteDirect(k)))
  {
    var s', f := Apply(s, WriteDirect(k)), s.assembler.frame;
    DirectShape(s, k);
    ConcatLast(s.accepted, f);
    NothingOutstanding(s);
    assert f[..k] + f[k..] == f;
    if k == |f| {
      NothingOutstanding(s');
    } else {
      NothingQueued(s');
      assert OfAssembler(s'.assembler) == f[k..];
      assert Outstanding(s') == f[k..];
    }
    hide Concat, Outstanding, ShapeOk;
    assert s.pty + [] == s.pty;
    JoinThree(s.pty, f[..k], f[k..]);
    assert s'.pty + Outstanding(s') == s.pty + f;
    assert Inv(s');
  }

  lemma NothingQueued(s: State)
    requires ShapeOk(s) && !s.fcOff && !s.assembler.Choking?
    ensures OfThread(s.threads) == [] && OfQueue(s.queue, s.writtenOfFirst) == []
  {
    WholeQueue(s.queue);
  }

  lemma WholeQueue(q: seq<seq<Octet>>)
    ensures OfQueue(q, 0) == Concat(q) && (q == [] ==> Concat(q) == [])
  {}

  lemma BlockedShape(s: State)
    requires ShapeOk(s) && Enabled(s, DirectWouldBlock)
    ensures ShapeOk(Apply(s, DirectWouldBlock)) && !s.fcOff && !SomeActive(s)
  {}

  lemma BlockedKeeps(s: State)
    requires Inv(s) && Enabled(s, DirectWouldBlock)
    ensures Inv(Apply(s, DirectWouldBlock))
  {
    var s', f := Apply(s, DirectWouldBlock), s.assembler.frame;
    BlockedShape(s);
    ConcatLast(s.accepted, f);
    NothingOutstanding(s);
    if s.channel == VT_CHANNEL {
      NothingOutstanding(s');
    } else {
      NothingQueued(s');
      assert OfAssembler(s'.assembler) == f[0..] == f;
      assert Outstanding(s') == f;
    }
    hide Concat, Outstanding, ShapeOk;
    assert s.pty + [] == s.pty;
    assert Inv(s');
  }

  lemma CacheOutstanding(s: State)
    requires ShapeOk(s) && Enabled(s, CacheRemaining)
    ensures s.queue == [] && Outstanding(Apply(s, CacheRemaining)) == Outstanding(s)
    ensures Outstanding(s) == s.assembler.frame[s.assembler.written..]
  {
    var f := s.assembler.frame;
    ConcatOne(f);
    NothingQueued(s);
    assert OfQueue([f], s.assembler.written) == f[s.assembler.written..];
    assert OfThread(s.threads) == [];
  }

  lemma CacheShape(s: State)
    requires ShapeOk(s) && Enabled(s, CacheRemaining)
    ensures var s' := Apply(s, CacheRemaining);
      ShapeOk(s') && s'.total == |s.assembler.frame| - s.assembler.written <= BUFFER_SIZE
  {}

  lemma CacheKeeps(s: State)
    requires Inv(s) && Enabled(s, CacheRemaining)
    ensures Inv(Apply(s, CacheRemaining))
  {
    CacheOutstanding(s);
    CacheShape(s);
    hide Concat, Outstanding, ShapeOk;
    assert Inv(Apply(s, CacheRemaining));
  }

  lemma TakeFirstOutstanding(s: State, i: nat)
    requires ShapeOk(s) && Enabled(s, TakeFirst(i))
    ensures s.queue != [] && Outstanding(Apply(s, TakeFirst(i))) == Outstanding(s)
  {
    var s', w := Apply(s, TakeFirst(i)), s.writtenOfFirst;
    ActiveIsLast(s, i);
    FirstIsPart(s);
    var q, more := s.queue[0], Concat(s.queue[1..]);
    assert OfThread(s'.threads) == q[w..] && OfThread(s.threads) == [];
    hide ThreadsOk, AssemblerOk, Concat;
    assert (q + more)[w..] == q[w..] + more;
    assert OfQueue(s.queue, w) == q[w..] + more;
    WholeQueue(s.queue[1..]);
    hide OfThread, OfQueue, QueueOk;
    var x := OfAssembler(s.assembler);
    assert x + [] == x;
    JoinThree(x, q[w..], more);
  }

  lemma TakeFirstShape(s: State, i: nat)
    requires ShapeOk(s) && Enabled(s, TakeFirst(i))
    ensures ShapeOk(Apply(s, TakeFirst(i))) && s.fcOff
  {
    ActiveIsLast(s, i);
  }

  lemma TakeFirstKeeps(s: State, i: nat)
    requires Inv(s) && Enabled(s, TakeFirst(i))
    ensures Inv(Apply(s, TakeFirst(i)))
  {
    TakeFirstOutstanding(s, i);
    TakeFirstShape(s, i);
    hide Outstanding, ShapeOk, Concat;
    MoveKeeps(s, Apply(s, TakeFirst(i)));
  }

  lemma OutstandingShrinks(s: State, i: nat, k: nat)
    requires ShapeOk(s) && Enabled(s, WriteRetry(i, k))
    ensures Outstanding(s)
            == s.threads[i].frame[s.threads[i].written..s.threads[i].written + k] + Outstanding(Apply(s, WriteRetry(i, k)))
  {
    var s', f, w := Apply(s, WriteRetry(i, k)), s.threads[i].frame, s.threads[i].written;
    ActiveIsLast(s, i);
    hide ThreadsOk, AssemblerOk, QueueOk, Concat;
    var x := f[w..w + k];
    assert f[w..] == x + f[w + k..];
    assert w + k == |f| ==> f[w + k..] == [];
    assert OfThread(s.threads) == x + OfThread(s'.threads);
    hide OfAssembler, OfThread, OfQueue;
    var t, q := OfThread(s'.threads), OfQueue(s.queue, s.writtenOfFirst);
    assert [] + (x + t) == x + t && [] + t == t;
    JoinThree(x, t, q);
  }

  lemma WriteRetryShape(s: State, i: nat, k: nat)
    requires ShapeOk(s) && Enabled(s, WriteRetry(i, k))
    ensures var s' := Apply(s, WriteRetry(i, k));
      ShapeOk(s') && s.fcOff && s'.fcOff && s'.total == s.total && s'.accepted == s.accepted
  {
    ActiveIsLast(s, i);
  }

  lemma WriteRetryKeeps(s: State, i: nat, k: nat)
    requires Inv(s) && Enabled(s, WriteRetry(i, k))
    ensures Inv(Apply(s, WriteRetry(i, k)))
  {
    OutstandingShrinks(s, i, k);
    WriteRetryShape(s, i, k);
    hide Concat, Outstanding, ShapeOk;
    var s', x := Apply(s, WriteRetry(i, k)), s.threads[i].frame[s.threads[i].written..s.threads[i].written + k];
    JoinThree(s.pty, x, Outstanding(s'));
    assert s'.pty == s.pty + x;
    hide Apply;
    assert Inv(s');
  }

  lemma TakeNextOutstanding(s: State, i: nat)
    requires ShapeOk(s) && Enabled(s, TakeNext(i))
    ensures Outstanding(Apply(s, TakeNext(i))) == Outstanding(s)
  {
    ActiveIsLast(s, i);
    assert OfThread(s.threads) == [];
    var s' := Apply(s, TakeNext(i));
    if s.queue == [] {
      assert OfThread(s'.threads) == [];
      SamePartsOutstanding(s, s');
    } else {
      FirstIsPart(s);
      var q, more := s.queue[0], Concat(s.queue[1..]);
      assert OfThread(s'.threads) == q by { assert q[0..] == q; }
      WholeQueue(s.queue);
      WholeQueue(s.queue[1..]);
      assert s.writtenOfFirst == 0;
      hide Concat, OfThread, OfQueue, ShapeOk;
      var x := OfAssembler(s.assembler);
      assert x + [] == x;
      JoinThree(x, q, more);
    }
  }

  lemma TakeNextShape(s: State, i: nat)
    requires ShapeOk(s) && Enabled(s, TakeNext(i))
    ensures ShapeOk(Apply(s, TakeNext(i))) && s.fcOff
  {
    ActiveIsLast(s, i);
  }

  lemma TakeNextKeeps(s: State, i: nat)
    requires Inv(s) && Enabled(s, TakeNext(i))
    ensures Inv(Apply(s, TakeNext(i)))
  {
    TakeNextOutstanding(s, i);
    TakeNextShape(s, i);
    hide Outstanding, ShapeOk, Concat;
    MoveKeeps(s, Apply(s, TakeNext(i)));
  }

  lemma FinishedThread(threads: seq<Retry>, i: nat)
    requires i < |threads| && threads[i].Finishing?
    ensures OfThread(threads[i := Done]) == OfThread(threads)
  {}

  lemma FinishShape(s: State, i: nat)
    requires ShapeOk(s) && Enabled(s, Finish(i))
    ensures ShapeOk(Apply(s, Finish(i)))
  {}

  lemma FinishKeeps(s: State, i: nat)
    requires Inv(s) && Enabled(s, Finish(i))
    ensures Inv(Apply(s, Finish(i)))
  {
    FinishedThread(s.threads, i);
    FinishShape(s, i);
    hide Concat, Outstanding, OfThread, ShapeOk;
    SamePartsOutstanding(s, Apply(s, Finish(i)));
    MoveKeeps(s, Apply(s, Finish(i)));
  }

  /** Flow control goes off, the thread is created, or the flags are read: the list and its counter stay. */
  lemma AssemblerShape(s: State, a: Action)
    requires ShapeOk(s) && Enabled(s, a) && (a == TurnOff || a == StartThread || a == ReadFlags || a == WriteFlags)
    ensures var s' := Apply(s, a);
      && ShapeOk(s') && OfAssembler(s'.assembler) == OfAssembler(s.assembler) == []
      && OfThread(s'.threads) == OfThread(s.threads)
  {}

  lemma AssemblerKeeps(s: State, a: Action)
    requires Inv(s) && Enabled(s, a) && (a == TurnOff || a == StartThread || a == ReadFlags || a == WriteFlags)
    ensures Inv(Apply(s, a))
  {
    AssemblerShape(s, a);
    if !s.fcOff && !s.assembler.Choking? {
      NothingOutstanding(s);
    }
    hide Concat, Outstanding, OfThread, OfAssembler, ShapeOk;
    SamePartsOutstanding(s, Apply(s, a));
    MoveKeeps(s, Apply(s, a));
  }

  /** Every step of every thread keeps the bookkeeping right. */
  lemma StepKeeps(s: State, a: Action)
    requires Inv(s) && Enabled(s, a)
    ensures Inv(Apply(s, a))
  {
    hide Inv, Apply, Enabled;
    match a {
      case Arrive(payload) => ArriveKeeps(s, payload);
      case WriteDirect(k) => DirectKeeps(s, k);
      case DirectWouldBlock => BlockedKeeps(s);
      case CacheRemaining => CacheKeeps(s);
      case TakeFirst(i) => TakeFirstKeeps(s, i);
      case WriteRetry(i, k) => WriteRetryKeeps(s, i, k);
      case TakeNext(i) => TakeNextKeeps(s, i);
      case Finish(i) => FinishKeeps(s, i);
      case _ => AssemblerKeeps(s, a);
    }
  }

  predicate Possible(s: State, trace: seq<Action>)
    decreases |trace|
  {
    trace == [] || (Enabled(s, trace[0]) && Possible(Apply(s, trace[0]), trace[1..]))
  }

  function Run(s: State, trace: seq<Action>): State
    requires Possible(s, trace)
    decreases |trace|
  {
    if trace == [] then s else Run(Apply(s, trace[0]), trace[1..])
  }

  lemma {:induction false} RunKeeps(s: State, trace: seq<Action>)
    requires Inv(s) && Possible(s, trace)
    ensures Inv(Run(s, trace))
    decreases |trace|
  {
    hide Inv, Apply, Enabled;
    if trace != [] {
      StepKeeps(s, trace[0]);
      RunKeeps(Apply(s, trace[0]), trace[1..]);
    }
  }

  /**
   In every interleaving the octets on the pty followed by those outstanding are the accepted payloads, each
   once and in order; neither assertion fires; the assembler never writes while a retry thread is active, and
   no two retry threads are; and from the moment a frame is in the list until flow control is on again the
   outstanding octets are within the counter, and the counter within the watermark.
   */
  lemma DeliveryInOrderOnce(s: State, trace: seq<Action>)
    requires Init(s) && Possible(s, trace)
    ensures var e := Run(s, trace);
      && e.pty + Outstanding(e) == Concat(e.accepted)
      && !e.asserted
      && (e.assembler.Writing? ==> forall i :: 0 <= i < |e.threads| ==> !Active(e.threads[i]))
      && (forall i, j :: 0 <= i < j < |e.threads| ==> !Active(e.threads[i]) || !Active(e.threads[j]))
      && (e.fcOff || e.assembler.Choking? ==> |Outstanding(e)| <= e.total)
      && e.total <= HIGH_WATERMARK
  {
    hide Possible, Run, Outstanding, Concat;
    InitInv(s);
    RunKeeps(s, trace);
    var e := Run(s, trace);
    OneActive(e);
    hide Inv, ThreadsOk, AssemblerOk, QueueOk, Active;
  }

  lemma OneActive(s: State)
    requires Inv(s)
    ensures s.pty + Outstanding(s) == Concat(s.accepted) && !s.asserted && s.total <= HIGH_WATERMARK
    ensures s.assembler.Writing? ==> forall i :: 0 <= i < |s.threads| ==> !Active(s.threads[i])
    ensures forall i, j :: 0 <= i < j < |s.threads| ==> !Active(s.threads[i]) || !Active(s.threads[j])
    ensures s.fcOff || s.assembler.Choking? ==> |Outstanding(s)| <= s.total
  {
    hide Outstanding, Concat;
  }

  /** Once flow control is on again and the assembler is idle, everything accepted is on the pty. */
  lemma QuietMeansDelivered(s: State, trace: seq<Action>)
    requires Init(s) && Possible(s, trace) && Run(s, trace).assembler.Idle? && !Run(s, trace).fcOff
    ensures Run(s, trace).pty == Concat(Run(s, trace).accepted)
  {
    InitInv(s);
    RunKeeps(s, trace);
    hide Possible, Run, ShapeOk, Outstanding, Concat;
    NothingOutstanding(Run(s, trace));
  }

  // ----- A lost write -----

  /** Flow control is off, and no thread is there to turn it on again. */
  predicate Stuck(s: State) {
    s.fcOff && !SomeActive(s) && !s.assembler.Starting?
  }

  /** The flags are written back as off, though a thread has turned flow control on since they were read. */
  predicate LosesWrite(s: State, a: Action) {
    a == WriteFlags && s.assembler.Signalling? && s.assembler.fcOff && !s.fcOff
  }

  predicate SomeWriteLost(s: State, trace: seq<Action>)
    requires Possible(s, trace)
    decreases |trace|
  {
    trace != [] && (LosesWrite(s, trace[0]) || SomeWriteLost(Apply(s, trace[0]), trace[1..]))
  }

  lemma StuckStep(s: State, a: Action)
    requires Inv(s) && Enabled(s, a)
    ensures Stuck(Apply(s, a)) <==> Stuck(s) || LosesWrite(s, a)
    ensures Stuck(s) ==> Apply(s, a).pty == s.pty
  {
    hide QueueOk, TotalOk, Outstanding, Concat;
  }

  lemma {:induction false} StuckRun(s: State, trace: seq<Action>)
    requires Inv(s) && Possible(s, trace)
    ensures Stuck(Run(s, trace)) <==> Stuck(s) || SomeWriteLost(s, trace)
    ensures Stuck(s) ==> Run(s, trace).pty == s.pty
    decreases |trace|
  {
    hide Inv, Apply, Enabled, Stuck, LosesWrite;
    if trace != [] {
      StuckStep(s, trace[0]);
      StepKeeps(s, trace[0]);
      StuckRun(Apply(s, trace[0]), trace[1..]);
    }
  }

  /**
   "While flow control is off a thread is there that will turn it on again" holds after a run if and only if none of
   its writes to the flags was lost to the assembler's write of the transmit flag.
   */
  lemma StuckIff(s: State, trace: seq<Action>)
    requires Init(s) && Possible(s, trace)
    ensures Stuck(Run(s, trace)) <==> SomeWriteLost(s, trace)
  {
    InitInv(s);
    StuckRun(s, trace);
  }

  /** From then on nothing reaches the pty any more. */
  lemma StuckForGood(s: State, before: seq<Action>, after: seq<Action>)
    requires Init(s) && Possible(s, before) && SomeWriteLost(s, before) && Possible(Run(s, before), after)
    ensures Stuck(Run(Run(s, before), after)) && Run(Run(s, before), after).pty == Run(s, before).pty
  {
    InitInv(s);
    RunKeeps(s, before);
    StuckRun(s, before);
    StuckRun(Run(s, before), after);
  }

  lemma {:induction false} OneMoreStep(s: State, trace: seq<Action>, a: Action)
    requires Possible(s, trace) && Enabled(Run(s, trace), a)
    ensures Possible(s, trace + [a]) && Run(s, trace + [a]) == Apply(Run(s, trace), a)
    decreases |trace|
  {
    hide Apply, Enabled;
    if trace == [] {
      assert (trace + [a])[1..] == [];
    } else {
      assert (trace + [a])[1..] == trace[1..] + [a];
      OneMoreStep(Apply(s, trace[0]), trace[1..], a);
    }
  }

  lemma Then(s: State, before: seq<Action>, a: Action) returns (trace: seq<Action>, e: State)
    requires Possible(s, before) && Enabled(Run(s, before), a)
    ensures Possible(s, trace) && e == Run(s, trace) == Apply(Run(s, before), a)
  {
    OneMoreStep(s, before, a);
    trace := before + [a];
    e := Run(s, trace);
  }

  /** One frame of one octet, a pty that blocks once, and a modem status command while the retry thread ends. */
  lemma LostWriteSticks(s: State, b: Octet) returns (trace: seq<Action>)
    requires Init(s)
    ensures Possible(s, trace) && Stuck(Run(s, trace)) && Run(s, trace).pty == [b]
  {
    trace := ThreadDrains(s, b);
    var e := Run(s, trace);
    hide Possible, Run;
    trace, e := Then(s, trace, ReadFlags);
    assert e.assembler == Signalling(true, true);
    trace, e := Then(s, trace, TakeNext(0));
    assert e.threads == [Finishing] && !e.fcOff;
    trace, e := Then(s, trace, WriteFlags);
  }

  lemma FrameIsCached(s: State, b: Octet) returns (trace: seq<Action>)
    requires Init(s)
    ensures Possible(s, trace)
    ensures var e := Run(s, trace);
      && e.assembler.Choking? && e.threads == [] && e.queue == [[b]] && e.writtenOfFirst == 0 && e.pty == []
  {
    assert Possible(s, []) && Run(s, []) == s;
    var e;
    hide Possible, Run;
    trace, e := Then(s, [], Arrive([b]));
    trace, e := Then(s, trace, WriteDirect(0));
    trace, e := Then(s, trace, CacheRemaining);
  }

  lemma ThreadDrains(s: State, b: Octet) returns (trace: seq<Action>)
    requires Init(s)
    ensures Possible(s, trace)
    ensures var e := Run(s, trace);
      e.assembler.Idle? && e.threads == [Popping] && e.queue == [] && e.fcOff && e.threadFlag && e.pty == [b]
  {
    trace := FrameIsCached(s, b);
    var e;
    hide Possible, Run;
    trace, e := Then(s, trace, TurnOff);
    trace, e := Then(s, trace, StartThread);
    assert e.threads == [Created] && e.fcOff && e.assembler.Idle? && e.pty == [];
    trace, e := Then(s, trace, TakeFirst(0));
    assert e.threads == [Draining([b], 0)] && e.queue == [];
    trace, e := Then(s, trace, WriteRetry(0, 1));
    assert e.threads == [Popping] && [b][0..1] == [b] && [] + [b] == [b];
  }
}

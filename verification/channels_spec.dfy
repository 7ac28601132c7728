/**
 The logical channels: what each received control frame and each local action does to them, and what
 holds in every reachable state. A received frame is one step.
 */
module ChannelsSpec {
  import opened Octets

  /** `fdOpen`: the channel's pty is open. */
  datatype Chan = Chan(fdOpen: bool, isOpen: bool, sabmPending: bool, discPending: bool, reopen: bool)

  datatype MuxState = Muxing | Closing | PeerClosing

  /** The DLCIs of the configured channels, without the control channel. */
  const CONFIGURED: seq<nat> := [1, 2, 3, 4, 5, 26, 6, 7, 8, 9, 10, 27]

  /** MUXD_CH_NUM_ALL: the control channel and the configured ones. */
  const CH_NUM_ALL := 13

  /**
   `acked` records the channels whose own SABM was acknowledged, `signals` how often the close-down was told
   that no acknowledgement is outstanding; `controlStarted` and `allocs`, the rounds that are over, where channel
   setup stands; and `asked` the channels a SABM was sent on.
   */
  datatype Mux = Mux(
    ch: seq<Chan>, state: MuxState, uaCount: nat, setupComplete: bool, closingDown: bool, signals: nat,
    asserted: bool, controlStarted: bool, allocs: nat, acked: set<nat>, asked: set<nat>)

  datatype Action =
    | OpenControl | Alloc
    | RecvUa(c: nat) | RecvDm(c: nat) | RecvDisc(c: nat) | RecvSabm(c: nat)
    | CloseDevices(basic: bool) | CloseDone | PtyDropped(c: nat) | Reopen(c: nat)

  ghost predicate Init(m: Mux) {
    && |m.ch| == MAX_CHANNELS && (forall c :: 0 <= c < MAX_CHANNELS ==> m.ch[c] == Chan(false, false, false, false, false))
    && m.state == Muxing && m.uaCount == 0 && !m.setupComplete && !m.closingDown && m.signals == 0
    && !m.asserted && !m.controlStarted && m.allocs == 0 && m.acked == {} && m.asked == {}
  }

  predicate Enabled(m: Mux, a: Action)
    requires |m.ch| == MAX_CHANNELS
  {
    match a
    case OpenControl => !m.controlStarted
    case Alloc => m.controlStarted && m.allocs < |CONFIGURED|
    case RecvUa(c) => c < MAX_CHANNELS
    case RecvDm(c) => c < MAX_CHANNELS
    case RecvDisc(c) => c < MAX_CHANNELS
    case RecvSabm(c) => c < MAX_CHANNELS
    case CloseDevices(_) => !m.closingDown
    case CloseDone => m.closingDown
    case PtyDropped(c) => 0 < c < MAX_CHANNELS && m.ch[c].fdOpen
    case Reopen(c) => 0 < c < MAX_CHANNELS && m.ch[c].reopen
  }

  /** logical_channel_close */
  function Closed(x: Chan): Chan {
    Chan(false, false, false, false, x.reopen)
  }

  /** logical_channel_establish, where opening the pty succeeds. */
  function Established(x: Chan): Chan {
    x.(fdOpen := true, sabmPending := true)
  }

  /** No channel but the control channel still waits for the UA to its DISC. */
  predicate NoneAwaited(ch: seq<Chan>) {
    forall c :: 0 < c < |ch| ==> !ch[c].discPending
  }

  /** The first configured channel without a pty. */
  function FirstFree(ch: seq<Chan>, i: nat): (k: nat)
    requires |ch| == MAX_CHANNELS && i <= |CONFIGURED|
    ensures i <= k <= |CONFIGURED|
    ensures forall j :: i <= j < k ==> ch[CONFIGURED[j]].fdOpen
    ensures k < |CONFIGURED| ==> !ch[CONFIGURED[k]].fdOpen
    decreases |CONFIGURED| - i
  {
    ConfiguredFacts();
    if i == |CONFIGURED| || !ch[CONFIGURED[i]].fdOpen then i else FirstFree(ch, i + 1)
  }

  lemma ConfiguredFacts()
    ensures |CONFIGURED| == CH_NUM_ALL - 1
    ensures forall i :: 0 <= i < |CONFIGURED| ==> 0 < CONFIGURED[i] < MAX_CHANNELS
    ensures forall i, j :: 0 <= i < j < |CONFIGURED| ==> CONFIGURED[i] != CONFIGURED[j]
  {}

  predicate AllTaken(ch: seq<Chan>) {
    forall c :: 0 < c < |ch| ==> ch[c].fdOpen
  }

  /**
   The channel c_alloc_channel establishes: with every configured pty open and another channel free, the last
   configured one again.
   */
  function AllocTarget(m: Mux): Option<nat>
    requires |m.ch| == MAX_CHANNELS
  {
    ConfiguredFacts();
    var k := FirstFree(m.ch, 0);
    if !m.state.Muxing? then None
    else if k < |CONFIGURED| then Some(CONFIGURED[k])
    else if AllTaken(m.ch) then None
    else Some(CONFIGURED[|CONFIGURED| - 1])
  }

  /** One round of setup. One that fails is the last. */
  function Allocated(m: Mux): Mux
    requires |m.ch| == MAX_CHANNELS
  {
    ConfiguredFacts();
    match AllocTarget(m)
    case None => m.(allocs := |CONFIGURED|)
    case Some(id) => m.(ch := m.ch[id := Established(m.ch[id])], asked := m.asked + {id}, allocs := m.allocs + 1)
  }

  function UaReceived(m: Mux, c: nat): Mux
    requires |m.ch| == MAX_CHANNELS && c < MAX_CHANNELS
  {
    var x := m.ch[c];
    if x.isOpen then
      var m1 := if x.discPending then m.(ch := m.ch[c := Closed(x)], asserted := m.asserted || c == 0) else m;
      if m.closingDown && NoneAwaited(m1.ch) then m1.(signals := m.signals + 1) else m1
    else if x.sabmPending then
      m.(ch := m.ch[c := x.(isOpen := true, sabmPending := false)], uaCount := m.uaCount + 1,
         setupComplete := m.setupComplete || m.uaCount + 1 == CH_NUM_ALL, acked := m.acked + {c})
    else if x.discPending then m.(ch := m.ch[c := x.(discPending := false)])
    else m
  }

  function DmReceived(m: Mux, c: nat): Mux
    requires |m.ch| == MAX_CHANNELS && c < MAX_CHANNELS
  {
    if m.ch[c].isOpen then m.(ch := m.ch[c := Closed(m.ch[c])])
    else if c == 0 then m.(state := Closing)
    else m
  }

  function DiscReceived(m: Mux, c: nat): Mux
    requires |m.ch| == MAX_CHANNELS && c < MAX_CHANNELS
  {
    if !m.ch[c].isOpen then m
    else if c == 0 then m.(ch := m.ch[c := m.ch[c].(isOpen := false)], state := PeerClosing)
    else m.(ch := m.ch[c := Closed(m.ch[c])])
  }

  /** DISC goes out on every channel above 0 that has a pty and is open. */
  function DiscSent(ch: seq<Chan>): (r: seq<Chan>)
    ensures |r| == |ch|
  {
    seq(|ch|, c requires 0 <= c < |ch| =>
      if 0 < c && ch[c].fdOpen && ch[c].isOpen then ch[c].(discPending := true) else ch[c])
  }

  function Apply(m: Mux, a: Action): (m': Mux)
    requires |m.ch| == MAX_CHANNELS && Enabled(m, a)
    ensures |m'.ch| == MAX_CHANNELS
  {
    match a
    case OpenControl => m.(ch := m.ch[0 := m.ch[0].(sabmPending := true)], controlStarted := true, asked := m.asked + {0})
    case Alloc => Allocated(m)
    case RecvUa(c) => UaReceived(m, c)
    case RecvDm(c) => DmReceived(m, c)
    case RecvDisc(c) => DiscReceived(m, c)
    case RecvSabm(c) => m.(ch := m.ch[c := m.ch[c].(isOpen := true)])
    case CloseDevices(basic) => m.(closingDown := true, ch := if basic then DiscSent(m.ch) else m.ch)
    case CloseDone => m.(closingDown := false)
    case PtyDropped(c) => m.(ch := m.ch[c := m.ch[c].(fdOpen := false, reopen := true)])
    case Reopen(c) => m.(ch := m.ch[c := m.ch[c].(fdOpen := true, reopen := false)])
  }

  predicate Possible(m: Mux, trace: seq<Action>)
    requires |m.ch| == MAX_CHANNELS
    decreases |trace|
  {
    trace == [] || (Enabled(m, trace[0]) && Possible(Apply(m, trace[0]), trace[1..]))
  }

  function Run(m: Mux, trace: seq<Action>): (m': Mux)
    requires |m.ch| == MAX_CHANNELS && Possible(m, trace)
    ensures |m'.ch| == MAX_CHANNELS
    decreases |trace|
  {
    if trace == [] then m else Run(Apply(m, trace[0]), trace[1..])
  }

  // ----- Life of a channel -----

  /** A DISC is outstanding only on open channels, and never on the control channel. */
  predicate Inv(m: Mux) {
    && |m.ch| == MAX_CHANNELS && !m.asserted && !m.ch[0].discPending
    && forall c :: 0 <= c < MAX_CHANNELS && m.ch[c].discPending ==> m.ch[c].isOpen
  }

  lemma UaKeeps(m: Mux, c: nat)
    requires Inv(m) && c < MAX_CHANNELS
    ensures Inv(UaReceived(m, c))
  {}

  lemma AllocatedKeeps(m: Mux)
    requires Inv(m)
    ensures Inv(Allocated(m))
  {
    hide CONFIGURED;
    ConfiguredFacts();
  }

  lemma StepKeeps(m: Mux, a: Action)
    requires Inv(m) && Enabled(m, a)
    ensures Inv(Apply(m, a))
  {
    hide CONFIGURED, Allocated, UaReceived;
    match a {
      case Alloc => AllocatedKeeps(m);
      case RecvUa(c) => UaKeeps(m, c);
      case _ =>
    }
  }

  /** The UA that answers the last outstanding DISC tells the close-down. */
  lemma LastUaSignals(m: Mux, c: nat)
    requires Inv(m) && m.closingDown && c < MAX_CHANNELS && m.ch[c].discPending
    ensures Apply(m, RecvUa(c)).signals == m.signals + 1
            <==> forall d :: 0 < d < MAX_CHANNELS && d != c ==> !m.ch[d].discPending
  {
    var m1 := m.(ch := m.ch[c := Closed(m.ch[c])]);
    assert NoneAwaited(m1.ch) <==> forall d :: 0 < d < MAX_CHANNELS && d != c ==> !m.ch[d].discPending by {
      if NoneAwaited(m1.ch) {
        forall d | 0 < d < MAX_CHANNELS && d != c
          ensures !m.ch[d].discPending
        {
          assert m1.ch[d] == m.ch[d];
        }
      }
    }
  }

  /** A DM or DISC in its place ends the wait for the channel too, but nobody is told. */
  lemma OtherEndsAreSilent(m: Mux, c: nat)
    requires Inv(m) && m.closingDown && c < MAX_CHANNELS && m.ch[c].discPending
    ensures forall a :: a == RecvDm(c) || a == RecvDisc(c) ==>
      !Apply(m, a).ch[c].discPending && Apply(m, a).signals == m.signals
  {}

  lemma {:induction false} RunKeeps(m: Mux, trace: seq<Action>)
    requires Inv(m) && Possible(m, trace)
    ensures Inv(Run(m, trace))
    decreases |trace|
  {
    hide Inv, Apply, Enabled;
    if trace != [] {
      assert |m.ch| == MAX_CHANNELS by { InvSize(m); }
      StepKeeps(m, trace[0]);
      RunKeeps(Apply(m, trace[0]), trace[1..]);
    }
  }

  lemma InvSize(m: Mux)
    requires Inv(m)
    ensures |m.ch| == MAX_CHANNELS
  {}

  /** In every reachable state of every run. */
  lemma LifecycleInvariant(m: Mux, trace: seq<Action>)
    requires Init(m) && Possible(m, trace)
    ensures Inv(Run(m, trace))
  {
    RunKeeps(m, trace);
  }

  // ----- Close-down -----

  /** The peer's answers to a DISC on channel `c`, of which only the first is the one asked for. */
  predicate Answers(a: Action, c: nat) {
    a == RecvUa(c) || a == RecvDm(c) || a == RecvDisc(c)
  }

  lemma AnswerElsewhere(m: Mux, d: nat, c: nat)
    requires Inv(m) && 0 < c < MAX_CHANNELS && m.ch[c].discPending && d < MAX_CHANNELS && d != c
    ensures forall m' :: m' == UaReceived(m, d) || m' == DmReceived(m, d) || m' == DiscReceived(m, d) ==>
      m'.ch[c] == m.ch[c] && m'.signals == m.signals
  {}

  lemma UnansweredStep(m: Mux, a: Action, c: nat)
    requires Inv(m) && Enabled(m, a) && 0 < c < MAX_CHANNELS && m.ch[c].discPending && !Answers(a, c)
    ensures Apply(m, a).ch[c].discPending && Apply(m, a).signals == m.signals
  {
    if a.RecvUa? || a.RecvDm? || a.RecvDisc? {
      AnswerElsewhere(m, a.c, c);
    }
    hide CONFIGURED, FirstFree, UaReceived, DmReceived, DiscReceived;
    ConfiguredFacts();
  }

  lemma {:induction false} UnansweredStaysPending(m: Mux, trace: seq<Action>, c: nat)
    requires Inv(m) && Possible(m, trace) && 0 < c < MAX_CHANNELS && m.ch[c].discPending
    requires forall i :: 0 <= i < |trace| ==> !Answers(trace[i], c)
    ensures Run(m, trace).ch[c].discPending && Run(m, trace).signals == m.signals
    decreases |trace|
  {
    hide Inv, Apply, Enabled, Answers;
    assert |m.ch| == MAX_CHANNELS by { InvSize(m); }
    if trace != [] {
      UnansweredStep(m, trace[0], c);
      StepKeeps(m, trace[0]);
      UnansweredStaysPending(Apply(m, trace[0]), trace[1..], c);
    }
  }

  /** In every run the signal comes only when each channel marked by the close-down has been answered since. */
  lemma SignalMeansAllAnswered(m0: Mux, before: seq<Action>, after: seq<Action>, c: nat)
    requires Init(m0) && Possible(m0, before) && Enabled(Run(m0, before), CloseDevices(true))
    requires Possible(Apply(Run(m0, before), CloseDevices(true)), after)
    requires Run(Apply(Run(m0, before), CloseDevices(true)), after).signals > Run(m0, before).signals
    requires 0 < c < MAX_CHANNELS && Run(m0, before).ch[c].fdOpen && Run(m0, before).ch[c].isOpen
    ensures exists i :: 0 <= i < |after| && Answers(after[i], c)
  {
    hide Possible, Run, Answers;
    LifecycleInvariant(m0, before);
    var m := Run(m0, before);
    StepKeeps(m, CloseDevices(true));
    var m1 := Apply(m, CloseDevices(true));
    assert m1.ch[c].discPending && m1.signals == m.signals;
    if forall i :: 0 <= i < |after| ==> !Answers(after[i], c) {
      UnansweredStaysPending(m1, after, c);
    }
  }

  /** While the close-down waits, nothing is marked anew, and no signal comes as long as a channel is marked. */
  lemma MarkedStep(m: Mux, a: Action, c: nat)
    requires Inv(m) && Enabled(m, a) && a != CloseDone && m.closingDown
    requires 0 < c < MAX_CHANNELS && Apply(m, a).ch[c].discPending
    ensures m.ch[c].discPending && Apply(m, a).closingDown && Apply(m, a).signals == m.signals
  {
    hide CONFIGURED, FirstFree;
    ConfiguredFacts();
  }

  lemma {:induction false} MarkedThroughout(m: Mux, trace: seq<Action>, c: nat)
    requires Inv(m) && Possible(m, trace) && CloseDone !in trace && m.closingDown
    requires 0 < c < MAX_CHANNELS && Run(m, trace).ch[c].discPending
    ensures m.ch[c].discPending && Run(m, trace).closingDown && Run(m, trace).signals == m.signals
    decreases |trace|
  {
    hide Inv, Apply, Enabled;
    assert |m.ch| == MAX_CHANNELS by { InvSize(m); }
    if trace != [] {
      StepKeeps(m, trace[0]);
      StaysClosing(m, trace[0]);
      MarkedThroughout(Apply(m, trace[0]), trace[1..], c);
      MarkedStep(m, trace[0], c);
    }
  }

  lemma StaysClosing(m: Mux, a: Action)
    requires Inv(m) && Enabled(m, a) && a != CloseDone && m.closingDown
    ensures Apply(m, a).closingDown
  {
    hide CONFIGURED, FirstFree;
  }

  /** The step that ends the wait is an answer on the one channel still marked, and only a UA tells of it. */
  lemma LastAnswer(m: Mux, a: Action, c: nat)
    requires Inv(m) && Enabled(m, a) && a != CloseDone && m.closingDown && 0 < c < MAX_CHANNELS && m.ch[c].discPending
    requires NoneAwaited(Apply(m, a).ch)
    ensures Answers(a, c) && Apply(m, a).signals == m.signals + if a.RecvUa? then 1 else 0
  {
    if !Answers(a, c) {
      UnansweredStep(m, a, c);
    }
    hide CONFIGURED, FirstFree;
    if a.RecvUa? {
      assert Apply(m, a).ch == m.ch[c := Closed(m.ch[c])];
    }
  }

  /**
   The wait of the close-down, in every run: as long as a marked channel has not been answered no signal comes;
   the event that ends the wait is an answer; and the signal comes with it exactly if it is a UA, so that a DM or
   DISC on the last channel leaves the close-down to its timer.
   */
  lemma WaitEndsWithSignalIff(m0: Mux, before: seq<Action>, during: seq<Action>, a: Action)
    requires Init(m0) && Possible(m0, before) && Enabled(Run(m0, before), CloseDevices(true))
    requires var m1 := Apply(Run(m0, before), CloseDevices(true));
      && CloseDone !in during && a != CloseDone
      && Possible(m1, during) && Enabled(Run(m1, during), a)
      && !NoneAwaited(Run(m1, during).ch) && NoneAwaited(Apply(Run(m1, during), a).ch)
    ensures var m1 := Apply(Run(m0, before), CloseDevices(true));
      && Run(m1, during).signals == Run(m0, before).signals
      && (exists c :: 0 < c < MAX_CHANNELS && Answers(a, c))
      && (Apply(Run(m1, during), a).signals > Run(m0, before).signals <==> a.RecvUa?)
  {
    hide Possible, Run, Answers, Enabled, UaReceived;
    LifecycleInvariant(m0, before);
    var m := Run(m0, before);
    StepKeeps(m, CloseDevices(true));
    var m1 := Apply(m, CloseDevices(true));
    assert m1.closingDown && m1.signals == m.signals;
    hide Apply;
    RunKeeps(m1, during);
    var e := Run(m1, during);
    assert |e.ch| == MAX_CHANNELS;
    var c :| 0 < c < MAX_CHANNELS && e.ch[c].discPending;
    MarkedThroughout(m1, during, c);
    LastAnswer(e, a, c);
  }

  // ----- Channel setup -----

  function ConfiguredUpTo(n: nat): set<nat>
    requires n <= |CONFIGURED|
  {
    set i | 0 <= i < n :: CONFIGURED[i]
  }

  function Targets(): set<nat> {
    ConfiguredUpTo(|CONFIGURED|) + {0}
  }

  /** An allocation takes its turn: the daemon is muxing, and the ptys of all channels before are open. */
  predicate TakesTurn(m: Mux, a: Action)
    requires |m.ch| == MAX_CHANNELS
  {
    a.Alloc? ==> m.state.Muxing? && FirstFree(m.ch, 0) == m.allocs
  }

  /** Every allocation of the run does. */
  predicate InTurn(m: Mux, trace: seq<Action>)
    requires |m.ch| == MAX_CHANNELS && Possible(m, trace)
    decreases |trace|
  {
    trace == [] || (TakesTurn(m, trace[0]) && InTurn(Apply(m, trace[0]), trace[1..]))
  }

  function ControlCount(m: Mux): nat {
    if m.controlStarted then 1 else 0
  }

  /** What holds in every run: a channel not asked is as it was, and only asked ones are acknowledged. */
  predicate SetupOk(m: Mux) {
    && |m.ch| == MAX_CHANNELS && m.allocs <= |CONFIGURED| && m.acked <= m.asked <= Targets()
    && (m.controlStarted <==> 0 in m.asked)
    && (forall c :: 0 <= c < MAX_CHANNELS && c !in m.asked ==> !m.ch[c].fdOpen && !m.ch[c].reopen && !m.ch[c].sabmPending)
    && (m.setupComplete ==> m.uaCount >= CH_NUM_ALL)
  }

  /** As long as allocations take their turn: each channel was asked once, and is counted once. */
  predicate OnTurn(m: Mux)
    requires SetupOk(m)
  {
    && m.asked == ConfiguredUpTo(m.allocs) + (if m.controlStarted then {0} else {})
    && |m.acked| == m.uaCount
    && forall c :: 0 <= c < MAX_CHANNELS && m.ch[c].sabmPending ==> c !in m.acked
  }

  /** Once one did not: some allocation asked no new channel. */
  predicate OffTurn(m: Mux) {
    |m.asked| < m.allocs + ControlCount(m)
  }

  lemma InTargets(i: nat)
    requires i < |CONFIGURED|
    ensures CONFIGURED[i] in ConfiguredUpTo(|CONFIGURED|)
  {
    hide CONFIGURED;
  }

  lemma TargetOk(m: Mux)
    requires |m.ch| == MAX_CHANNELS && AllocTarget(m).Some?
    ensures 0 < AllocTarget(m).value < MAX_CHANNELS && AllocTarget(m).value in Targets()
  {
    hide CONFIGURED, ConfiguredUpTo, FirstFree;
    ConfiguredFacts();
    var k := FirstFree(m.ch, 0);
    InTargets(if k < |CONFIGURED| then k else |CONFIGURED| - 1);
  }

  predicate LessAt(m: Mux, m': Mux, c: nat)
    requires |m.ch| == |m'.ch| == MAX_CHANNELS && c < MAX_CHANNELS
  {
    && (m'.ch[c].fdOpen || m'.ch[c].reopen ==> m.ch[c].fdOpen || m.ch[c].reopen)
    && (m'.ch[c].sabmPending ==> m.ch[c].sabmPending)
  }

  /** The part of a state that setup looks at stays, but for channels that lose their pty or their pending SABM. */
  predicate OnlyLess(m: Mux, m': Mux)
    requires |m.ch| == |m'.ch| == MAX_CHANNELS
  {
    && m'.allocs == m.allocs && m'.acked == m.acked && m'.asked == m.asked && m'.uaCount == m.uaCount
    && m'.setupComplete == m.setupComplete && m'.controlStarted == m.controlStarted
    && forall c {:trigger m'.ch[c]} :: 0 <= c < MAX_CHANNELS ==> LessAt(m, m', c)
  }

  lemma AnswerLessAt(m: Mux, d: nat, c: nat)
    requires |m.ch| == MAX_CHANNELS && c < MAX_CHANNELS && d < MAX_CHANNELS
    ensures LessAt(m, DmReceived(m, d), c) && LessAt(m, DiscReceived(m, d), c)
  {}

  lemma OnlyLessAt(m: Mux, a: Action, c: nat)
    requires |m.ch| == MAX_CHANNELS && Enabled(m, a) && c < MAX_CHANNELS && !a.Alloc? && !a.OpenControl? && !a.RecvUa?
    ensures LessAt(m, Apply(m, a), c)
  {
    if a.RecvDm? || a.RecvDisc? {
      AnswerLessAt(m, a.c, c);
    }
    hide CONFIGURED, Allocated, UaReceived, DmReceived, DiscReceived;
  }

  lemma UaOnlyLess(m: Mux, c: nat)
    requires |m.ch| == MAX_CHANNELS && c < MAX_CHANNELS && (m.ch[c].isOpen || !m.ch[c].sabmPending)
    ensures OnlyLess(m, UaReceived(m, c))
  {
    hide CONFIGURED, NoneAwaited;
    var m' := UaReceived(m, c);
    forall d | 0 <= d < MAX_CHANNELS
      ensures LessAt(m, m', d)
    {
      assert d != c ==> m'.ch[d] == m.ch[d];
    }
  }

  lemma OthersOnlyLess(m: Mux, a: Action)
    requires |m.ch| == MAX_CHANNELS && Enabled(m, a) && !a.Alloc? && !a.OpenControl? && !a.RecvUa?
    ensures OnlyLess(m, Apply(m, a))
  {
    hide CONFIGURED, Allocated, UaReceived;
    forall c | 0 <= c < MAX_CHANNELS
      ensures LessAt(m, Apply(m, a), c)
    {
      hide Apply, Enabled;
      OnlyLessAt(m, a, c);
    }
  }

  /** Such a step keeps everything. */
  lemma OnlyLessKeeps(m: Mux, m': Mux)
    requires SetupOk(m) && |m'.ch| == MAX_CHANNELS && OnlyLess(m, m')
    ensures SetupOk(m') && (OnTurn(m) ==> OnTurn(m')) && (OffTurn(m) ==> OffTurn(m'))
  {
    hide CONFIGURED, ConfiguredUpTo;
  }

  lemma AckSetupOk(m: Mux, c: nat)
    requires SetupOk(m) && c < MAX_CHANNELS && !m.ch[c].isOpen && m.ch[c].sabmPending
    ensures var m' := UaReceived(m, c);
      && SetupOk(m') && m'.ch == m.ch[c := m.ch[c].(isOpen := true, sabmPending := false)]
      && m'.acked == m.acked + {c} && m'.uaCount == m.uaCount + 1 && m'.asked == m.asked && m'.allocs == m.allocs
      && m'.controlStarted == m.controlStarted
  {
    hide CONFIGURED, ConfiguredUpTo, NoneAwaited, Targets;
  }

  lemma AckKeeps(m: Mux, c: nat)
    requires SetupOk(m) && c < MAX_CHANNELS && !m.ch[c].isOpen && m.ch[c].sabmPending
    ensures var m' := UaReceived(m, c); SetupOk(m') && (OnTurn(m) ==> OnTurn(m')) && (OffTurn(m) ==> OffTurn(m'))
  {
    AckSetupOk(m, c);
    hide CONFIGURED, ConfiguredUpTo, UaReceived, Targets, SetupOk;
    var m' := UaReceived(m, c);
    assert |m.ch| == MAX_CHANNELS by { SetupSize(m); }
    assert OnTurn(m) ==> OnTurn(m');
  }

  lemma ControlKeeps(m: Mux)
    requires SetupOk(m) && Enabled(m, OpenControl)
    ensures var m' := Apply(m, OpenControl); SetupOk(m') && (OnTurn(m) ==> OnTurn(m')) && (OffTurn(m) ==> OffTurn(m'))
  {
    hide CONFIGURED, ConfiguredUpTo;
    assert m.asked + {0} <= Targets();
  }

  /** An allocation asks one channel at most. */
  lemma AllocKeeps(m: Mux)
    requires SetupOk(m) && Enabled(m, Alloc)
    ensures var m' := Apply(m, Alloc); SetupOk(m') && (OffTurn(m) ==> OffTurn(m'))
    ensures var m' := Apply(m, Alloc);
      && m'.allocs == (if AllocTarget(m).Some? then m.allocs + 1 else |CONFIGURED|)
      && m'.controlStarted == m.controlStarted && m'.acked == m.acked && m'.uaCount == m.uaCount
      && m'.asked == m.asked + (if AllocTarget(m).Some? then {AllocTarget(m).value} else {})
      && forall c :: 0 <= c < MAX_CHANNELS ==>
           m'.ch[c].sabmPending == (m.ch[c].sabmPending || AllocTarget(m) == Some(c))
  {
    hide CONFIGURED, FirstFree, AllTaken;
    ConfiguredFacts();
    if AllocTarget(m).Some? {
      TargetOk(m);
      AskedOneMore(m, AllocTarget(m).value);
    } else {
      AllocFails(m);
    }
    hide AllocTarget, SetupOk, Targets, OffTurn;
    assert SetupOk(Apply(m, Alloc));
  }

  lemma AskedOneMore(m: Mux, id: nat)
    requires SetupOk(m) && Enabled(m, Alloc) && AllocTarget(m) == Some(id) && id < MAX_CHANNELS && id > 0 && id in Targets()
    ensures SetupOk(Apply(m, Alloc)) && (OffTurn(m) ==> OffTurn(Apply(m, Alloc)))
  {
    hide CONFIGURED, AllocTarget, Targets;
    var m' := Apply(m, Alloc);
    assert m'.asked == m.asked + {id} && m'.allocs == m.allocs + 1;
    assert m'.ch == m.ch[id := Established(m.ch[id])];
    assert |m'.asked| <= |m.asked| + 1;
  }

  lemma AllocFails(m: Mux)
    requires SetupOk(m) && Enabled(m, Alloc) && AllocTarget(m).None?
    ensures SetupOk(Apply(m, Alloc)) && (OffTurn(m) ==> OffTurn(Apply(m, Alloc)))
  {
    hide CONFIGURED, AllocTarget, Targets;
  }

  /** In turn it asks the next one, and out of turn none that is new. */
  lemma AllocTurn(m: Mux)
    requires SetupOk(m) && OnTurn(m) && Enabled(m, Alloc)
    ensures var m' := Apply(m, Alloc); SetupOk(m') && if TakesTurn(m, Alloc) then OnTurn(m') else OffTurn(m')
  {
    hide CONFIGURED, ConfiguredUpTo;
    ConfiguredFacts();
    AllocKeeps(m);
    TurnCount(m);
    NextNotAsked(m);
    if TakesTurn(m, Alloc) {
      ConfiguredStep(m.allocs);
    } else if AllocTarget(m).Some? {
      EarlierAsked(m);
    }
    hide Apply, AllocTarget, FirstFree, SetupOk;
    assert if TakesTurn(m, Alloc) then OnTurn(Apply(m, Alloc)) else OffTurn(Apply(m, Alloc));
  }

  lemma ConfiguredStep(n: nat)
    requires n < |CONFIGURED|
    ensures ConfiguredUpTo(n + 1) == ConfiguredUpTo(n) + {CONFIGURED[n]} && CONFIGURED[n] !in ConfiguredUpTo(n)
    ensures CONFIGURED[n] != 0
  {
    hide CONFIGURED;
    ConfiguredFacts();
  }

  /** In turn the number of channels asked is the number of requests. */
  lemma TurnCount(m: Mux)
    requires SetupOk(m) && OnTurn(m)
    ensures |m.asked| == m.allocs + ControlCount(m)
  {
    hide CONFIGURED;
    ConfiguredCount(m.allocs);
  }

  /** The next configured channel has no pty yet, so the search stops there at the latest. */
  lemma NextNotAsked(m: Mux)
    requires SetupOk(m) && OnTurn(m) && m.allocs < |CONFIGURED|
    ensures CONFIGURED[m.allocs] !in m.asked && !m.ch[CONFIGURED[m.allocs]].fdOpen && FirstFree(m.ch, 0) <= m.allocs
  {
    hide CONFIGURED;
    ConfiguredFacts();
    ConfiguredStep(m.allocs);
  }

  lemma EarlierAsked(m: Mux)
    requires SetupOk(m) && OnTurn(m) && m.allocs < |CONFIGURED| && AllocTarget(m).Some? && FirstFree(m.ch, 0) != m.allocs
    ensures AllocTarget(m).value in m.asked
  {
    hide CONFIGURED, FirstFree;
    NextNotAsked(m);
    ConfiguredFacts();
    assert CONFIGURED[FirstFree(m.ch, 0)] in ConfiguredUpTo(m.allocs);
  }

  /** Every step keeps what holds in every run, and what holds in turn unless it is an allocation out of turn. */
  lemma SetupStepKeeps(m: Mux, a: Action)
    requires SetupOk(m) && Enabled(m, a)
    ensures var m' := Apply(m, a); SetupOk(m') && (OffTurn(m) ==> OffTurn(m'))
    ensures var m' := Apply(m, a); OnTurn(m) ==> if TakesTurn(m, a) then OnTurn(m') else OffTurn(m')
  {
    hide SetupOk, OnTurn, OffTurn, CONFIGURED, FirstFree;
    assert |m.ch| == MAX_CHANNELS by { SetupSize(m); }
    match a {
      case Alloc =>
        AllocKeeps(m);
        if OnTurn(m) {
          AllocTurn(m);
        }
      case OpenControl => ControlKeeps(m);
      case RecvUa(c) =>
        if !m.ch[c].isOpen && m.ch[c].sabmPending {
          AckKeeps(m, c);
        } else {
          UaOnlyLess(m, c);
          OnlyLessKeeps(m, UaReceived(m, c));
        }
      case _ =>
        OthersOnlyLess(m, a);
        OnlyLessKeeps(m, Apply(m, a));
    }
  }

  lemma SetupSize(m: Mux)
    requires SetupOk(m)
    ensures |m.ch| == MAX_CHANNELS
  {}

  lemma {:induction false} SetupRunKeeps(m: Mux, trace: seq<Action>)
    requires SetupOk(m) && Possible(m, trace) && (OnTurn(m) || OffTurn(m))
    ensures SetupOk(Run(m, trace))
    ensures OffTurn(m) ==> OffTurn(Run(m, trace))
    ensures OnTurn(m) ==> if InTurn(m, trace) then OnTurn(Run(m, trace)) else OffTurn(Run(m, trace))
    decreases |trace|
  {
    hide SetupOk, OnTurn, OffTurn, Apply, Enabled, TakesTurn;
    assert |m.ch| == MAX_CHANNELS by { SetupSize(m); }
    if trace != [] {
      SetupStepKeeps(m, trace[0]);
      SetupRunKeeps(Apply(m, trace[0]), trace[1..]);
    }
  }

  lemma {:induction false} ConfiguredCount(n: nat)
    requires n <= |CONFIGURED|
    ensures |ConfiguredUpTo(n)| == n && 0 !in ConfiguredUpTo(n)
    decreases n
  {
    hide CONFIGURED;
    ConfiguredFacts();
    if n > 0 {
      ConfiguredCount(n - 1);
      assert ConfiguredUpTo(n) == ConfiguredUpTo(n - 1) + {CONFIGURED[n - 1]};
    }
  }

  lemma TargetCount()
    ensures |Targets()| == CH_NUM_ALL
  {
    hide CONFIGURED;
    ConfiguredFacts();
    ConfiguredCount(|CONFIGURED|);
  }

  lemma SubsetOfSize(a: set<nat>, b: set<nat>)
    requires a <= b && |a| >= |b|
    ensures a == b
  {
    if a != b {
      var x :| x in b && x !in a;
      assert a <= b - {x};
      SubsetCard(a, b - {x});
    }
  }

  lemma SubsetCard(a: set<nat>, b: set<nat>)
    requires a <= b
    ensures |a| <= |b|
  {
    assert b == a + (b - a);
  }

  lemma InitOnTurn(m: Mux)
    requires Init(m)
    ensures SetupOk(m) && OnTurn(m)
  {
    hide CONFIGURED;
    ConfiguredFacts();
  }

  /**
   For every run in which the completion of channel setup is announced: the control channel and every configured
   channel had its own SABM acknowledged exactly if every allocation took its turn.
   */
  lemma SetupCompleteMeansAllAcked(m: Mux, trace: seq<Action>)
    requires Init(m) && Possible(m, trace) && Run(m, trace).setupComplete
    ensures Run(m, trace).acked == Targets() <==> InTurn(m, trace)
  {
    hide CONFIGURED, InTurn, Run, Possible, ConfiguredUpTo;
    ConfiguredFacts();
    InitOnTurn(m);
    SetupRunKeeps(m, trace);
    var e := Run(m, trace);
    TargetCount();
    if InTurn(m, trace) {
      SubsetOfSize(e.acked, Targets());
    } else {
      SubsetCard(e.acked, e.asked);
    }
  }

  /** No step closes a pty, and allocations find the daemon muxing. */
  predicate PtysStayOpen(m: Mux, trace: seq<Action>)
    requires |m.ch| == MAX_CHANNELS && Possible(m, trace)
    decreases |trace|
  {
    trace == [] ||
    (var m' := Apply(m, trace[0]);
     && (forall c :: 0 <= c < MAX_CHANNELS && m.ch[c].fdOpen ==> m'.ch[c].fdOpen)
     && (trace[0].Alloc? ==> m.state.Muxing?)
     && PtysStayOpen(m', trace[1..]))
  }

  /** The channels asked, but for the control channel, have their ptys. */
  predicate AskedOpen(m: Mux) {
    |m.ch| == MAX_CHANNELS && forall c :: 0 < c < MAX_CHANNELS && c in m.asked ==> m.ch[c].fdOpen
  }

  /** With the ptys of the first `n` channels open and the next one closed, that one is the first without. */
  lemma FirstFreeAt(ch: seq<Chan>, n: nat)
    requires |ch| == MAX_CHANNELS && n < |CONFIGURED| && CONFIGURED[n] < MAX_CHANNELS && !ch[CONFIGURED[n]].fdOpen
    requires forall c :: 0 < c < MAX_CHANNELS && c in ConfiguredUpTo(n) ==> ch[c].fdOpen
    ensures FirstFree(ch, 0) == n
  {
    hide CONFIGURED;
    ConfiguredFacts();
    assert forall i :: 0 <= i < n ==> CONFIGURED[i] in ConfiguredUpTo(n);
    assert FirstFree(ch, 0) == n;
  }

  lemma OpenTakesTurn(m: Mux)
    requires SetupOk(m) && OnTurn(m) && AskedOpen(m) && m.allocs < |CONFIGURED| && m.state.Muxing?
    ensures TakesTurn(m, Alloc) && AllocTarget(m) == Some(CONFIGURED[m.allocs])
  {
    hide CONFIGURED, ConfiguredUpTo, FirstFree;
    ConfiguredFacts();
    NextNotAsked(m);
    FirstFreeAt(m.ch, m.allocs);
  }

  lemma OpenStep(m: Mux, a: Action)
    requires SetupOk(m) && OnTurn(m) && AskedOpen(m) && Enabled(m, a) && (a.Alloc? ==> m.state.Muxing?)
    requires forall c :: 0 <= c < MAX_CHANNELS && m.ch[c].fdOpen ==> Apply(m, a).ch[c].fdOpen
    ensures TakesTurn(m, a) && AskedOpen(Apply(m, a))
  {
    hide CONFIGURED, NoneAwaited, FirstFree, SetupOk, OnTurn;
    ConfiguredFacts();
    if a.Alloc? {
      OpenTakesTurn(m);
      assert AskedOpen(Apply(m, a));
    } else if a.OpenControl? {
      assert AskedOpen(Apply(m, a));
    } else {
      AsksNone(m, a);
      assert AskedOpen(Apply(m, a));
    }
  }

  lemma AsksNone(m: Mux, a: Action)
    requires |m.ch| == MAX_CHANNELS && Enabled(m, a) && !a.Alloc? && !a.OpenControl?
    ensures Apply(m, a).asked == m.asked
  {
    hide CONFIGURED, NoneAwaited;
  }

  /** So it is enough that no pty closes while channels are allocated. */
  lemma {:induction false} OpenPtysTakeTurns(m: Mux, trace: seq<Action>)
    requires SetupOk(m) && OnTurn(m) && AskedOpen(m) && Possible(m, trace) && PtysStayOpen(m, trace)
    ensures InTurn(m, trace)
    decreases |trace|
  {
    hide SetupOk, OnTurn, OffTurn, Apply, Enabled, TakesTurn, AskedOpen;
    assert |m.ch| == MAX_CHANNELS by { SetupSize(m); }
    if trace != [] {
      OpenStep(m, trace[0]);
      SetupStepKeeps(m, trace[0]);
      OpenPtysTakeTurns(Apply(m, trace[0]), trace[1..]);
    }
  }

  // ----- A run to a false completion -----

  lemma RunCons(m: Mux, a: Action, rest: seq<Action>)
    requires |m.ch| == MAX_CHANNELS && Enabled(m, a) && Possible(Apply(m, a), rest)
    ensures Possible(m, [a] + rest) && Run(m, [a] + rest) == Run(Apply(m, a), rest)
  {
    hide Apply, Enabled;
    assert ([a] + rest)[1..] == rest;
  }

  /** `k` channels are up, after one allocation and one count too many. */
  predicate OneAhead(m: Mux, k: nat) {
    && |m.ch| == MAX_CHANNELS && k < |CONFIGURED| && m.state.Muxing? && m.controlStarted
    && (forall c :: 0 < c < MAX_CHANNELS ==> (m.ch[c].fdOpen <==> c in ConfiguredUpTo(k)))
    && (forall c :: 0 < c < MAX_CHANNELS && c !in ConfiguredUpTo(k) ==> !m.ch[c].isOpen)
    && m.allocs == k + 1 && m.uaCount == k + 2 && m.acked <= ConfiguredUpTo(k) + {0}
    && (m.uaCount == CH_NUM_ALL ==> m.setupComplete)
  }

  /** A channel that is asked and answered at once. */
  lemma AskAndAnswer(m: Mux, c: nat) returns (m': Mux)
    requires |m.ch| == MAX_CHANNELS && Enabled(m, Alloc) && AllocTarget(m) == Some(c) && c < MAX_CHANNELS && !m.ch[c].isOpen
    ensures Enabled(Apply(m, Alloc), RecvUa(c)) && m' == Apply(Apply(m, Alloc), RecvUa(c))
    ensures m' == m.(ch := m.ch[c := Established(m.ch[c]).(isOpen := true, sabmPending := false)],
                     asked := m.asked + {c}, allocs := m.allocs + 1, uaCount := m.uaCount + 1,
                     setupComplete := m.setupComplete || m.uaCount + 1 == CH_NUM_ALL, acked := m.acked + {c})
  {
    hide CONFIGURED, FirstFree, AllocTarget;
    var m1 := Apply(m, Alloc);
    assert m1.ch == m.ch[c := Established(m.ch[c])];
    m' := Apply(m1, RecvUa(c));
  }

  lemma NextRound(m: Mux, k: nat) returns (m': Mux)
    requires OneAhead(m, k) && k + 1 < |CONFIGURED|
    ensures Enabled(m, Alloc) && Enabled(Apply(m, Alloc), RecvUa(CONFIGURED[k]))
    ensures m' == Apply(Apply(m, Alloc), RecvUa(CONFIGURED[k])) && OneAhead(m', k + 1)
  {
    hide CONFIGURED, ConfiguredUpTo, FirstFree;
    ConfiguredFacts();
    ConfiguredStep(k);
    FirstFreeAt(m.ch, k);
    m' := AskAndAnswer(m, CONFIGURED[k]);
    hide Apply, AllocTarget;
    assert OneAhead(m', k + 1);
  }

  /** From there the others come up one by one, and completion is announced before the last is asked. */
  lemma {:induction false} OthersComeUp(m: Mux, k: nat) returns (trace: seq<Action>)
    requires OneAhead(m, k)
    ensures Possible(m, trace) && Run(m, trace).setupComplete && CONFIGURED[|CONFIGURED| - 1] !in Run(m, trace).acked
    decreases |CONFIGURED| - k
  {
    hide CONFIGURED, OneAhead, Apply, Enabled;
    ConfiguredFacts();
    assert |m.ch| == MAX_CHANNELS && k < |CONFIGURED| by { AheadFacts(m, k); }
    if k + 1 == |CONFIGURED| {
      AheadFacts(m, k);
      ConfiguredStep(k);
      trace := [];
    } else {
      var m' := NextRound(m, k);
      var rest := OthersComeUp(m', k + 1);
      RunCons(Apply(m, Alloc), RecvUa(CONFIGURED[k]), rest);
      RunCons(m, Alloc, [RecvUa(CONFIGURED[k])] + rest);
      trace := [Alloc] + ([RecvUa(CONFIGURED[k])] + rest);
    }
  }

  lemma AheadFacts(m: Mux, k: nat)
    requires OneAhead(m, k)
    ensures |m.ch| == MAX_CHANNELS && k < |CONFIGURED| && m.acked <= ConfiguredUpTo(k) + {0}
    ensures k + 1 == |CONFIGURED| ==> m.setupComplete
  {
    hide CONFIGURED;
    ConfiguredFacts();
  }

  /** A pty that closes before the next allocation is established and counted twice. */
  lemma CountedTwice(m: Mux) returns (m': Mux)
    requires Init(m)
    ensures var trace := [OpenControl, RecvUa(0), Alloc, RecvUa(1), RecvDm(1), Alloc, RecvUa(1)];
      Possible(m, trace) && m' == Run(m, trace) && OneAhead(m', 1)
  {
    var m1 := Apply(m, OpenControl);
    var m2 := Apply(m1, RecvUa(0));
    var m3 := FirstAllocation(m2);
    var m4 := Apply(m3, RecvUa(1));
    var m5 := Apply(m4, RecvDm(1));
    var m6 := FirstAllocation(m5);
    m' := Apply(m6, RecvUa(1));
    assert Possible(m', []);
    hide Apply, Enabled, FirstFree;
    RunCons(m6, RecvUa(1), []);
    RunCons(m5, Alloc, [RecvUa(1)]);
    RunCons(m4, RecvDm(1), [Alloc, RecvUa(1)]);
    RunCons(m3, RecvUa(1), [RecvDm(1), Alloc, RecvUa(1)]);
    RunCons(m2, Alloc, [RecvUa(1), RecvDm(1), Alloc, RecvUa(1)]);
    RunCons(m1, RecvUa(0), [Alloc, RecvUa(1), RecvDm(1), Alloc, RecvUa(1)]);
    RunCons(m, OpenControl, [RecvUa(0), Alloc, RecvUa(1), RecvDm(1), Alloc, RecvUa(1)]);
  }

  lemma FirstAllocation(m: Mux) returns (m': Mux)
    requires |m.ch| == MAX_CHANNELS && !m.ch[1].fdOpen && Enabled(m, Alloc) && m.state.Muxing?
    ensures m' == Apply(m, Alloc)
    ensures m' == m.(ch := m.ch[1 := Established(m.ch[1])], allocs := m.allocs + 1, asked := m.asked + {1})
  {
    assert CONFIGURED[0] == 1;
    assert FirstFree(m.ch, 0) == 0;
    m' := Apply(m, Alloc);
  }

  lemma {:induction false} RunAppend(m: Mux, x: seq<Action>, y: seq<Action>)
    requires |m.ch| == MAX_CHANNELS && Possible(m, x) && Possible(Run(m, x), y)
    ensures Possible(m, x + y) && Run(m, x + y) == Run(Run(m, x), y)
    decreases |x|
  {
    hide Apply, Enabled;
    if x == [] {
      assert x + y == y;
    } else {
      assert (x + y)[0] == x[0] && (x + y)[1..] == x[1..] + y;
      RunAppend(Apply(m, x[0]), x[1..], y);
    }
  }

  /** A run at whose end completion is announced although the last channel was never acknowledged. */
  lemma ClosedPtyCountsTwice(m: Mux) returns (trace: seq<Action>)
    requires Init(m)
    ensures Possible(m, trace) && Run(m, trace).setupComplete
    ensures CONFIGURED[|CONFIGURED| - 1] in Targets() && CONFIGURED[|CONFIGURED| - 1] !in Run(m, trace).acked
  {
    hide CONFIGURED, Apply, Enabled, Possible, Run;
    ConfiguredFacts();
    var head := [OpenControl, RecvUa(0), Alloc, RecvUa(1), RecvDm(1), Alloc, RecvUa(1)];
    var m' := CountedTwice(m);
    var more := OthersComeUp(m', 1);
    RunAppend(m, head, more);
    InTargets(|CONFIGURED| - 1);
    trace := head + more;
  }
}

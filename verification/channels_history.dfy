/**
 The channels as their history tells them: what every flag is after a run, from the frames received and the local
 actions alone. The predicates speak of a trace and not of the state, flag by flag instead of step by step.
 */
module ChannelsHistory {
  import opened Octets
  import opened ChannelsSpec

  function Earlier(t: seq<Action>): seq<Action>
    requires t != []
  {
    t[..|t| - 1]
  }

  function Latest(t: seq<Action>): Action
    requires t != []
  {
    t[|t| - 1]
  }

  /** The channel is closed for good: by a DM, by a DISC unless it is the control channel, or by the UA to a DISC. */
  predicate Closes(t: seq<Action>, a: Action, c: nat)
    decreases |t|, 4
  {
    Open(t, c) && (a == RecvDm(c) || (a == RecvDisc(c) && c != 0) || (a == RecvUa(c) && DiscOut(t, c)))
  }

  /** A SABM opens a channel, or the UA to its own SABM, and a DM, a DISC or the UA to a DISC closes it. */
  predicate Open(t: seq<Action>, c: nat)
    decreases |t|, 0
  {
    t != [] &&
    var p, a := Earlier(t), Latest(t);
    || a == RecvSabm(c)
    || (a == RecvUa(c) && !Open(p, c) && SabmOut(p, c))
    || (Open(p, c) && a != RecvDm(c) && a != RecvDisc(c) && !(a == RecvUa(c) && DiscOut(p, c)))
  }

  /** Its own SABM was sent, and is outstanding until a UA finds the channel closed or the channel is closed. */
  predicate SabmOut(t: seq<Action>, c: nat)
    decreases |t|, 1
  {
    t != [] &&
    var p, a := Earlier(t), Latest(t);
    || (a == OpenControl && c == 0)
    || (a == Alloc && Asks(p) == Some(c))
    || (SabmOut(p, c) && !Closes(p, a, c) && !(a == RecvUa(c) && !Open(p, c)))
  }

  /** A DISC went out with the close-down, as to every open channel above 0 with a pty, and was not answered since. */
  predicate DiscOut(t: seq<Action>, c: nat)
    decreases |t|, 1
  {
    t != [] &&
    var p, a := Earlier(t), Latest(t);
    || (a == CloseDevices(true) && c > 0 && Pty(p, c) && Open(p, c))
    || (DiscOut(p, c) && !Closes(p, a, c) && !(a == RecvUa(c) && !Open(p, c) && !SabmOut(p, c)))
  }

  predicate Pty(t: seq<Action>, c: nat)
    decreases |t|, 1
  {
    t != [] &&
    var p, a := Earlier(t), Latest(t);
    (a == Alloc && Asks(p) == Some(c)) || a == Reopen(c) || (Pty(p, c) && a != PtyDropped(c) && !Closes(p, a, c))
  }

  predicate ReopenDue(t: seq<Action>, c: nat)
    decreases |t|
  {
    t != [] && (Latest(t) == PtyDropped(c) || (ReopenDue(Earlier(t), c) && Latest(t) != Reopen(c)))
  }

  /** The last DISC on an open control channel, or DM on a closed one, decides. */
  function State(t: seq<Action>): MuxState
    decreases |t|, 2
  {
    if t == [] then Muxing
    else
      var p, a := Earlier(t), Latest(t);
      if a == RecvDisc(0) && Open(p, 0) then PeerClosing
      else if a == RecvDm(0) && !Open(p, 0) then Closing
      else State(p)
  }

  /** The first configured channel without a pty, from the `i`th on. */
  function NextWithout(t: seq<Action>, i: nat): Option<nat>
    requires i <= |CONFIGURED|
    decreases |t|, 2, |CONFIGURED| - i
  {
    if i == |CONFIGURED| then None else if !Pty(t, CONFIGURED[i]) then Some(CONFIGURED[i]) else NextWithout(t, i + 1)
  }

  /** The channel an allocation asks: with all configured ptys open and another channel free, the last one again. */
  function Asks(t: seq<Action>): Option<nat>
    decreases |t|, 3
  {
    if State(t) != Muxing then None
    else if NextWithout(t, 0).Some? then NextWithout(t, 0)
    else if exists c :: 0 < c < MAX_CHANNELS && !Pty(t, c) then Some(27)
    else None
  }

  // ----- What is counted -----

  /** The step is the UA to the channel's own SABM. */
  predicate Acks(t: seq<Action>, a: Action, c: nat) {
    a == RecvUa(c) && !Open(t, c) && SabmOut(t, c)
  }

  function AckCount(t: seq<Action>): nat
    decreases |t|
  {
    if t == [] then 0
    else AckCount(Earlier(t)) + if Latest(t).RecvUa? && Acks(Earlier(t), Latest(t), Latest(t).c) then 1 else 0
  }

  predicate Acked(t: seq<Action>, c: nat) {
    exists i :: 0 <= i < |t| && Acks(t[..i], t[i], c)
  }

  predicate Asked(t: seq<Action>, c: nat) {
    exists i :: 0 <= i < |t| && Sends(t[..i], t[i], c)
  }

  /** The step sends a SABM on the channel. */
  predicate Sends(t: seq<Action>, a: Action, c: nat) {
    (a == OpenControl && c == 0) || (a == Alloc && Asks(t) == Some(c))
  }

  predicate ClosingDown(t: seq<Action>)
    decreases |t|
  {
    t != [] && (Latest(t).CloseDevices? || (ClosingDown(Earlier(t)) && Latest(t) != CloseDone))
  }

  predicate AllAnswered(t: seq<Action>) {
    forall c :: 0 < c < MAX_CHANNELS ==> !DiscOut(t, c)
  }

  /** Each UA on an open channel during the close-down tells it, once none is waited for. */
  function SignalCount(t: seq<Action>): nat
    decreases |t|
  {
    if t == [] then 0
    else
      var p, a := Earlier(t), Latest(t);
      SignalCount(p) + if a.RecvUa? && Open(p, a.c) && ClosingDown(p) && AllAnswered(t) then 1 else 0
  }

  // ----- The state of every run -----

  predicate ChanIs(t: seq<Action>, c: nat, x: Chan) {
    x == Chan(Pty(t, c), Open(t, c), SabmOut(t, c), DiscOut(t, c), ReopenDue(t, c))
  }

  predicate ChansAre(t: seq<Action>, m: Mux) {
    |m.ch| == MAX_CHANNELS && forall c :: 0 <= c < MAX_CHANNELS ==> ChanIs(t, c, m.ch[c])
  }

  predicate CountsAre(t: seq<Action>, m: Mux) {
    && m.uaCount == AckCount(t) && (m.setupComplete <==> AckCount(t) >= 13)
    && (m.closingDown <==> ClosingDown(t)) && m.signals == SignalCount(t)
  }

  ghost predicate SetsAre(t: seq<Action>, m: Mux) {
    forall c: nat :: (c in m.acked <==> Acked(t, c)) && (c in m.asked <==> Asked(t, c))
  }

  lemma AskedTarget(t: seq<Action>, m: Mux)
    requires ChansAre(t, m) && m.state == State(t)
    ensures AllocTarget(m) == Asks(t)
  {
    hide CONFIGURED, Pty, Open, SabmOut, DiscOut, ReopenDue, State, FirstFree;
    ConfiguredFacts();
    LastConfigured();
    NextIsFirstFree(t, m, 0);
    forall c | 0 < c < MAX_CHANNELS
      ensures m.ch[c].fdOpen == Pty(t, c)
    {
      assert ChanIs(t, c, m.ch[c]);
    }
  }

  lemma LastConfigured()
    ensures CONFIGURED[|CONFIGURED| - 1] == 27
  {}

  lemma {:induction false} NextIsFirstFree(t: seq<Action>, m: Mux, i: nat)
    requires ChansAre(t, m) && i <= |CONFIGURED|
    ensures var k := FirstFree(m.ch, i);
      NextWithout(t, i) == if k < |CONFIGURED| then Some(CONFIGURED[k]) else None
    decreases |CONFIGURED| - i
  {
    hide CONFIGURED, Pty, Open, SabmOut, DiscOut, ReopenDue;
    ConfiguredFacts();
    if i < |CONFIGURED| {
      assert ChanIs(t, CONFIGURED[i], m.ch[CONFIGURED[i]]);
      NextIsFirstFree(t, m, i + 1);
    }
  }

  lemma OneMore(t: seq<Action>, a: Action)
    ensures t + [a] != [] && Earlier(t + [a]) == t && Latest(t + [a]) == a
  {
    assert (t + [a])[..|t|] == t;
  }

  /** What the step makes of the flags of a channel, from what they were. */
  predicate FlagsMove(t: seq<Action>, a: Action, c: nat) {
    var t' := t + [a];
    && (Open(t', c) <==>
          || a == RecvSabm(c) || (a == RecvUa(c) && !Open(t, c) && SabmOut(t, c))
          || (Open(t, c) && a != RecvDm(c) && a != RecvDisc(c) && !(a == RecvUa(c) && DiscOut(t, c))))
    && (SabmOut(t', c) <==>
          Sends(t, a, c) || (SabmOut(t, c) && !Closes(t, a, c) && !(a == RecvUa(c) && !Open(t, c))))
    && (DiscOut(t', c) <==>
          || (a == CloseDevices(true) && c > 0 && Pty(t, c) && Open(t, c))
          || (DiscOut(t, c) && !Closes(t, a, c) && !(a == RecvUa(c) && !Open(t, c) && !SabmOut(t, c))))
    && (Pty(t', c) <==>
          (a == Alloc && Asks(t) == Some(c)) || a == Reopen(c) || (Pty(t, c) && a != PtyDropped(c) && !Closes(t, a, c)))
    && (ReopenDue(t', c) <==> a == PtyDropped(c) || (ReopenDue(t, c) && a != Reopen(c)))
  }

  lemma FlagsMoved(t: seq<Action>, a: Action, c: nat)
    ensures FlagsMove(t, a, c)
  {
    OneMore(t, a);
    hide Asks, Closes, Earlier, Latest;
  }

  /** One step, seen from one channel. */
  function Moved(x: Chan, a: Action, c: nat, asks: Option<nat>): Chan {
    match a
    case OpenControl => if c == 0 then x.(sabmPending := true) else x
    case Alloc => if asks == Some(c) then Established(x) else x
    case RecvUa(d) =>
      if d != c then x
      else if x.isOpen then if x.discPending then Closed(x) else x
      else if x.sabmPending then x.(isOpen := true, sabmPending := false)
      else x.(discPending := false)
    case RecvDm(d) => if d == c && x.isOpen then Closed(x) else x
    case RecvDisc(d) => if d != c || !x.isOpen then x else if c == 0 then x.(isOpen := false) else Closed(x)
    case RecvSabm(d) => if d == c then x.(isOpen := true) else x
    case CloseDevices(basic) => if basic && 0 < c && x.fdOpen && x.isOpen then x.(discPending := true) else x
    case CloseDone => x
    case PtyDropped(d) => if d == c then x.(fdOpen := false, reopen := true) else x
    case Reopen(d) => if d == c then x.(fdOpen := true, reopen := false) else x
  }

  lemma ApplyMoves(m: Mux, a: Action, c: nat)
    requires |m.ch| == MAX_CHANNELS && Enabled(m, a) && c < MAX_CHANNELS
    ensures |Apply(m, a).ch| == MAX_CHANNELS && Apply(m, a).ch[c] == Moved(m.ch[c], a, c, AllocTarget(m))
  {
    hide CONFIGURED, NoneAwaited, FirstFree, AllTaken;
    if a.Alloc? {
      AllocMoves(m, c);
    } else if a.RecvUa? || a.RecvDm? || a.RecvDisc? {
      AnswerMoves(m, a, c);
    } else {
      hide UaReceived, DmReceived, DiscReceived, Allocated, AllocTarget;
      assert Apply(m, a).ch[c] == Moved(m.ch[c], a, c, AllocTarget(m));
    }
  }

  lemma AnswerMoves(m: Mux, a: Action, c: nat)
    requires |m.ch| == MAX_CHANNELS && Enabled(m, a) && c < MAX_CHANNELS && (a.RecvUa? || a.RecvDm? || a.RecvDisc?)
    ensures Apply(m, a).ch[c] == Moved(m.ch[c], a, c, AllocTarget(m))
  {
    var target := AllocTarget(m);
    hide AllocTarget, UaReceived, DmReceived, DiscReceived;
    match a {
      case RecvUa(d) => UaMoves(m, d, c, target);
      case RecvDm(d) => DmMoves(m, d, c, target);
      case RecvDisc(d) => DiscMoves(m, d, c, target);
    }
  }

  lemma UaMoves(m: Mux, d: nat, c: nat, target: Option<nat>)
    requires |m.ch| == MAX_CHANNELS && d < MAX_CHANNELS && c < MAX_CHANNELS
    ensures var m' := UaReceived(m, d); |m'.ch| == MAX_CHANNELS && m'.ch[c] == Moved(m.ch[c], RecvUa(d), c, target)
  {
    hide NoneAwaited;
  }

  lemma DmMoves(m: Mux, d: nat, c: nat, target: Option<nat>)
    requires |m.ch| == MAX_CHANNELS && d < MAX_CHANNELS && c < MAX_CHANNELS
    ensures var m' := DmReceived(m, d); |m'.ch| == MAX_CHANNELS && m'.ch[c] == Moved(m.ch[c], RecvDm(d), c, target)
  {}

  lemma DiscMoves(m: Mux, d: nat, c: nat, target: Option<nat>)
    requires |m.ch| == MAX_CHANNELS && d < MAX_CHANNELS && c < MAX_CHANNELS
    ensures var m' := DiscReceived(m, d); |m'.ch| == MAX_CHANNELS && m'.ch[c] == Moved(m.ch[c], RecvDisc(d), c, target)
  {}

  lemma AllocMoves(m: Mux, c: nat)
    requires |m.ch| == MAX_CHANNELS && c < MAX_CHANNELS
    ensures Allocated(m).ch[c] == Moved(m.ch[c], Alloc, c, AllocTarget(m))
  {
    hide CONFIGURED, FirstFree, AllTaken;
    ConfiguredFacts();
  }

  lemma FlagsFollow(t: seq<Action>, x: Chan, a: Action, c: nat)
    requires ChanIs(t, c, x) && (a == RecvDisc(0) && c == 0 ==> !x.discPending)
    ensures ChanIs(t + [a], c, Moved(x, a, c, Asks(t)))
  {
    FlagsMoved(t, a, c);
    hide Open, SabmOut, DiscOut, Pty, ReopenDue, Asks;
    assert ChanIs(t + [a], c, Moved(x, a, c, Asks(t)));
  }

  lemma ChanStep(t: seq<Action>, m: Mux, a: Action, c: nat)
    requires ChansAre(t, m) && m.state == State(t) && Inv(m) && Enabled(m, a) && c < MAX_CHANNELS
    ensures |Apply(m, a).ch| == MAX_CHANNELS && ChanIs(t + [a], c, Apply(m, a).ch[c])
  {
    AskedTarget(t, m);
    hide ChanIs, State, AllocTarget, Asks, Moved, Apply;
    assert ChanIs(t, c, m.ch[c]);
    ApplyMoves(m, a, c);
    FlagsFollow(t, m.ch[c], a, c);
  }

  lemma StateStep(t: seq<Action>, m: Mux, a: Action)
    requires ChansAre(t, m) && m.state == State(t) && Enabled(m, a)
    ensures Apply(m, a).state == State(t + [a])
  {
    OneMore(t, a);
    assert ChanIs(t, 0, m.ch[0]);
    hide CONFIGURED, NoneAwaited, FirstFree, AllTaken, AllocTarget, Open, SabmOut, DiscOut, Pty, ReopenDue, Earlier, Latest;
    if a.Alloc? {
      hide Apply, Enabled;
      AllocKeepsRest(m);
    }
  }

  lemma AllocKeepsRest(m: Mux)
    requires |m.ch| == MAX_CHANNELS && Enabled(m, Alloc)
    ensures var m' := Apply(m, Alloc);
      && m'.state == m.state && m'.uaCount == m.uaCount && m'.setupComplete == m.setupComplete
      && m'.closingDown == m.closingDown && m'.signals == m.signals && m'.acked == m.acked
      && m'.asked == m.asked + if AllocTarget(m).Some? then {AllocTarget(m).value} else {}
  {
    hide CONFIGURED, FirstFree, AllTaken;
    ConfiguredFacts();
  }

  lemma Answered(t: seq<Action>, m: Mux)
    requires ChansAre(t, m)
    ensures AllAnswered(t) <==> NoneAwaited(m.ch)
  {
    hide Open, SabmOut, DiscOut, Pty, ReopenDue;
    forall c | 0 <= c < MAX_CHANNELS
      ensures m.ch[c].discPending == DiscOut(t, c)
    {
      assert ChanIs(t, c, m.ch[c]);
    }
  }

  lemma CountsMoved(t: seq<Action>, a: Action)
    ensures AckCount(t + [a]) == AckCount(t) + if a.RecvUa? && Acks(t, a, a.c) then 1 else 0
    ensures ClosingDown(t + [a]) <==> a.CloseDevices? || (ClosingDown(t) && a != CloseDone)
    ensures SignalCount(t + [a])
            == SignalCount(t) + if a.RecvUa? && Open(t, a.c) && ClosingDown(t) && AllAnswered(t + [a]) then 1 else 0
  {
    OneMore(t, a);
    hide Open, SabmOut, DiscOut, Earlier, Latest, AllAnswered, Acks;
  }

  /** What a UA is counted as. */
  lemma UaCounts(m: Mux, c: nat)
    requires |m.ch| == MAX_CHANNELS && c < MAX_CHANNELS
    ensures var m', x := UaReceived(m, c), m.ch[c];
      var acks := !x.isOpen && x.sabmPending;
      && |m'.ch| == MAX_CHANNELS && m'.closingDown == m.closingDown && m'.asked == m.asked
      && m'.uaCount == m.uaCount + (if acks then 1 else 0)
      && m'.setupComplete == (m.setupComplete || (acks && m.uaCount + 1 == CH_NUM_ALL))
      && m'.acked == m.acked + (if acks then {c} else {})
      && m'.signals == m.signals + if x.isOpen && m.closingDown && NoneAwaited(m'.ch) then 1 else 0
  {
    hide NoneAwaited;
  }

  lemma UaCountsStep(t: seq<Action>, m: Mux, c: nat)
    requires ChansAre(t, m) && CountsAre(t, m) && Enabled(m, RecvUa(c)) && ChansAre(t + [RecvUa(c)], Apply(m, RecvUa(c)))
    ensures CountsAre(t + [RecvUa(c)], Apply(m, RecvUa(c)))
  {
    UaCounts(m, c);
    CountsMoved(t, RecvUa(c));
    Answered(t + [RecvUa(c)], Apply(m, RecvUa(c)));
    assert ChanIs(t, c, m.ch[c]);
    hide Open, SabmOut, DiscOut, Pty, ReopenDue, AllAnswered, NoneAwaited, UaReceived, AckCount, ClosingDown, SignalCount;
    hide ChansAre, CONFIGURED;
    assert CountsAre(t + [RecvUa(c)], Apply(m, RecvUa(c)));
  }

  lemma OthersCount(m: Mux, a: Action)
    requires |m.ch| == MAX_CHANNELS && Enabled(m, a) && !a.RecvUa?
    ensures var m' := Apply(m, a);
      && m'.uaCount == m.uaCount && m'.setupComplete == m.setupComplete && m'.signals == m.signals && m'.acked == m.acked
      && (m'.closingDown <==> a.CloseDevices? || (m.closingDown && a != CloseDone))
      && m'.asked == m.asked + (
           if a.OpenControl? then {0} else if a.Alloc? && AllocTarget(m).Some? then {AllocTarget(m).value} else {})
  {
    hide CONFIGURED, NoneAwaited, FirstFree, AllTaken, AllocTarget;
    if a.Alloc? {
      AllocKeepsRest(m);
    } else {
      hide Allocated;
    }
  }

  lemma CountsStep(t: seq<Action>, m: Mux, a: Action)
    requires ChansAre(t, m) && CountsAre(t, m) && Enabled(m, a) && ChansAre(t + [a], Apply(m, a))
    ensures CountsAre(t + [a], Apply(m, a))
  {
    if a.RecvUa? {
      UaCountsStep(t, m, a.c);
    } else {
      OthersCount(m, a);
      CountsMoved(t, a);
      hide Apply, Enabled, AckCount, ClosingDown, SignalCount, ChansAre, Acks, AllAnswered, Open;
      assert CountsAre(t + [a], Apply(m, a));
    }
  }

  lemma SetsMoved(t: seq<Action>, a: Action, c: nat)
    ensures Acked(t + [a], c) <==> Acked(t, c) || Acks(t, a, c)
    ensures Asked(t + [a], c) <==> Asked(t, c) || Sends(t, a, c)
  {
    hide Acks, Sends;
    var t' := t + [a];
    assert t'[..|t|] == t && t'[|t|] == a;
    assert forall i :: 0 <= i < |t| ==> t'[..i] == t[..i] && t'[i] == t[i];
    if Acked(t, c) {
      var i :| 0 <= i < |t| && Acks(t[..i], t[i], c);
      assert Acks(t'[..i], t'[i], c);
    }
    if Asked(t, c) {
      var i :| 0 <= i < |t| && Sends(t[..i], t[i], c);
      assert Sends(t'[..i], t'[i], c);
    }
    if Acks(t, a, c) {
      assert Acks(t'[..|t|], t'[|t|], c);
    }
    if Sends(t, a, c) {
      assert Sends(t'[..|t|], t'[|t|], c);
    }
  }

  lemma SetsStep(t: seq<Action>, m: Mux, a: Action)
    requires ChansAre(t, m) && SetsAre(t, m) && m.state == State(t) && Enabled(m, a)
    ensures SetsAre(t + [a], Apply(m, a))
  {
    AskedTarget(t, m);
    hide Open, SabmOut, DiscOut, Pty, ReopenDue, State, Asks, Acked, Asked, CONFIGURED, AllocTarget, Apply;
    forall c: nat
      ensures c in Apply(m, a).acked <==> Acked(t + [a], c)
      ensures c in Apply(m, a).asked <==> Asked(t + [a], c)
    {
      SetsMoved(t, a, c);
      if a.RecvUa? {
        UaCounts(m, a.c);
        assert ChanIs(t, a.c, m.ch[a.c]);
        assert Apply(m, a) == UaReceived(m, a.c) by { ApplyUa(m, a.c); }
      } else {
        OthersCount(m, a);
      }
    }
  }

  lemma ApplyUa(m: Mux, c: nat)
    requires |m.ch| == MAX_CHANNELS && c < MAX_CHANNELS
    ensures Apply(m, RecvUa(c)) == UaReceived(m, c)
  {}

  // ----- Over whole runs -----

  ghost predicate Told(t: seq<Action>, m: Mux) {
    ChansAre(t, m) && m.state == State(t) && CountsAre(t, m) && SetsAre(t, m)
  }

  lemma StepTold(t: seq<Action>, m: Mux, a: Action)
    requires Told(t, m) && Inv(m) && Enabled(m, a)
    ensures Told(t + [a], Apply(m, a))
  {
    hide Apply, Enabled, Inv, ChanIs, CountsAre, SetsAre, State;
    forall c | 0 <= c < MAX_CHANNELS
      ensures |Apply(m, a).ch| == MAX_CHANNELS && ChanIs(t + [a], c, Apply(m, a).ch[c])
    {
      ChanStep(t, m, a, c);
    }
    assert |Apply(m, a).ch| == MAX_CHANNELS by { ChanStep(t, m, a, 0); }
    StateStep(t, m, a);
    CountsStep(t, m, a);
    SetsStep(t, m, a);
  }

  lemma InitTold(m: Mux)
    requires Init(m)
    ensures Told([], m)
  {}

  lemma {:induction false} RunSnoc(m: Mux, t: seq<Action>, a: Action)
    requires |m.ch| == MAX_CHANNELS && Possible(m, t + [a])
    ensures Possible(m, t) && Enabled(Run(m, t), a) && Run(m, t + [a]) == Apply(Run(m, t), a)
    decreases |t|
  {
    hide Apply, Enabled;
    if t == [] {
      assert (t + [a])[1..] == [];
    } else {
      assert (t + [a])[1..] == t[1..] + [a] && (t + [a])[0] == t[0];
      RunSnoc(Apply(m, t[0]), t[1..], a);
    }
  }

  /**
   In every run from the start all flags of all channels, the state of the multiplexer and what is counted are what
   the trace tells.
   */
  lemma {:induction false} RunIsTold(m: Mux, t: seq<Action>)
    requires Init(m) && Possible(m, t)
    ensures Told(t, Run(m, t))
    decreases |t|
  {
    hide Told, Apply, Enabled;
    if t == [] {
      InitTold(m);
    } else {
      var p, a := Earlier(t), Latest(t);
      assert p + [a] == t;
      RunSnoc(m, p, a);
      RunIsTold(m, p);
      LifecycleInvariant(m, p);
      StepTold(p, Run(m, p), a);
    }
  }

  // ----- In one sentence each -----

  predicate Opens(p: seq<Action>, a: Action, c: nat) {
    a == RecvSabm(c) || Acks(p, a, c)
  }

  predicate Ends(p: seq<Action>, a: Action, c: nat) {
    a == RecvDm(c) || a == RecvDisc(c) || (a == RecvUa(c) && Open(p, c) && DiscOut(p, c))
  }

  /** The channel was opened by action `i`, and by none later closed. */
  predicate OpenedAt(t: seq<Action>, i: nat, c: nat) {
    i < |t| && Opens(t[..i], t[i], c) && forall j :: i < j < |t| ==> !Ends(t[..j], t[j], c)
  }

  lemma OpenedMore(p: seq<Action>, a: Action, i: nat, c: nat)
    requires i < |p|
    ensures OpenedAt(p + [a], i, c) <==> OpenedAt(p, i, c) && !Ends(p, a, c)
  {
    hide Opens, Ends;
    var t := p + [a];
    assert t[..i] == p[..i] && t[..|p|] == p && t[|p|] == a;
    assert forall j :: 0 <= j < |p| ==> t[..j] == p[..j] && t[j] == p[j];
    if OpenedAt(p, i, c) && !Ends(p, a, c) {
      forall j | i < j < |t|
        ensures !Ends(t[..j], t[j], c)
      {
        assert j < |p| ==> !Ends(p[..j], p[j], c);
      }
    }
    if OpenedAt(t, i, c) {
      assert !Ends(t[..|p|], t[|p|], c);
      forall j | i < j < |p|
        ensures !Ends(p[..j], p[j], c)
      {
        assert !Ends(t[..j], t[j], c);
      }
    }
  }

  lemma {:induction false} OpenSince(t: seq<Action>, c: nat)
    ensures Open(t, c) <==> exists i: nat :: OpenedAt(t, i, c)
    decreases |t|
  {
    if t != [] {
      var p, a := Earlier(t), Latest(t);
      assert t == p + [a] && t[..|p|] == p;
      OpenSince(p, c);
      FlagsMoved(p, a, c);
      hide Open, SabmOut, DiscOut, Pty, ReopenDue, Asks;
      assert OpenedAt(t, |p|, c) <==> Opens(p, a, c);
      if i: nat :| OpenedAt(p, i, c) {
        OpenedMore(p, a, i, c);
      }
      if i: nat :| OpenedAt(t, i, c) && i < |p| {
        OpenedMore(p, a, i, c);
      }
    }
  }

  /**
   After every run: a channel is open exactly if a SABM on it, or the UA to its own SABM, was followed by no DM, no
   DISC and no UA to a DISC.
   */
  lemma ChannelOpenIff(m: Mux, t: seq<Action>, c: nat)
    requires Init(m) && Possible(m, t) && c < MAX_CHANNELS
    ensures Run(m, t).ch[c].isOpen <==> exists i: nat :: OpenedAt(t, i, c)
  {
    hide Run, Possible, Open, SabmOut, DiscOut, Pty, ReopenDue, OpenedAt, State, CountsAre, SetsAre;
    RunIsTold(m, t);
    assert ChanIs(t, c, Run(m, t).ch[c]);
    OpenSince(t, c);
  }

  /** A DISC on the open control channel, or a DM on it when it is not open. */
  predicate Decides(p: seq<Action>, a: Action) {
    (a == RecvDisc(0) && Open(p, 0)) || (a == RecvDm(0) && !Open(p, 0))
  }

  /** Action `i` is the last that decides. */
  predicate DecidedAt(t: seq<Action>, i: nat) {
    i < |t| && Decides(t[..i], t[i]) && forall j :: i < j < |t| ==> !Decides(t[..j], t[j])
  }

  lemma {:induction false} LastDecides(t: seq<Action>) returns (i: nat)
    ensures if DecidedAt(t, i) then State(t) == (if t[i] == RecvDisc(0) then PeerClosing else Closing)
            else State(t) == Muxing && forall j :: 0 <= j < |t| ==> !Decides(t[..j], t[j])
    decreases |t|
  {
    i := 0;
    if t != [] {
      var p, a := Earlier(t), Latest(t);
      assert t == p + [a] && t[..|p|] == p;
      var before := LastDecides(p);
      assert forall j :: 0 <= j < |p| ==> t[..j] == p[..j] && t[j] == p[j];
      assert State(t) == if Decides(p, a) then if a == RecvDisc(0) then PeerClosing else Closing else State(p);
      hide State, Decides;
      if Decides(p, a) {
        i := |p|;
      } else {
        i := before;
        if DecidedAt(p, i) {
          assert DecidedAt(t, i);
        } else {
          forall j | 0 <= j < |t|
            ensures !Decides(t[..j], t[j])
          {
            assert j < |p| ==> !Decides(p[..j], p[j]);
          }
        }
      }
    }
  }

  lemma OneLast(t: seq<Action>, i: nat, j: nat)
    requires DecidedAt(t, i) && DecidedAt(t, j)
    ensures i == j
  {
    hide Decides;
  }

  /** After every run: closing on the side of the last action that decides, and multiplexing if there was none. */
  lemma MuxStateIs(m: Mux, t: seq<Action>)
    requires Init(m) && Possible(m, t)
    ensures var s := Run(m, t).state;
      && (s == PeerClosing <==> exists i: nat :: DecidedAt(t, i) && t[i] == RecvDisc(0))
      && (s == Closing <==> exists i: nat :: DecidedAt(t, i) && t[i] == RecvDm(0))
      && (s == Muxing <==> forall i :: 0 <= i < |t| ==> !Decides(t[..i], t[i]))
  {
    RunIsTold(m, t);
    var i := LastDecides(t);
    assert DecidedAt(t, i) ==> t[i] == RecvDisc(0) || t[i] == RecvDm(0);
    hide Run, Possible, Init, ChansAre, CountsAre, SetsAre, Decides, State;
    forall j: nat | DecidedAt(t, j)
      ensures DecidedAt(t, i) && j == i
    {
      if DecidedAt(t, i) {
        OneLast(t, i, j);
      }
    }
  }
}

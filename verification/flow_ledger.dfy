/**
 Receive flow control as the history of the channel tells it: which of the arrived payloads must be delivered, and
 what the flags and counters are, from the trace alone.
 */
module FlowLedger {
  import opened Octets
  import opened FlowControl

  function Earlier(t: seq<Action>): seq<Action>
    requires t != []
  {
    t[..|t| - 1]
  }

  function Latest(t: seq<Action>): Action
    requires t != []
  {
    t[|t| - 1]
  }

  /** The payload that arrived last. */
  function Newest(t: seq<Action>): seq<Octet>
    decreases |t|
  {
    if t == [] then [] else if Latest(t).Arrive? then Latest(t).payload else Newest(Earlier(t))
  }

  /** What the last direct write to the pty took. */
  function Taken(t: seq<Action>): nat
    decreases |t|
  {
    if t == [] then 0
    else
      match Latest(t)
      case WriteDirect(k) => k
      case DirectWouldBlock => 0
      case _ => Taken(Earlier(t))
  }

  /** Flow control is off from its turning off until a retry thread finds no frame, or the flags are written back. */
  predicate Off(t: seq<Action>)
    decreases |t|, 0
  {
    t != [] &&
    match Latest(t)
    case TurnOff => true
    case TakeNext(_) => Off(Earlier(t)) && Listed(Earlier(t)) > 0
    case WriteFlags => OffWhenRead(Earlier(t))
    case _ => Off(Earlier(t))
  }

  predicate OffWhenRead(t: seq<Action>)
    decreases |t|, 0
  {
    t != [] && if Latest(t) == ReadFlags then Off(Earlier(t)) else OffWhenRead(Earlier(t))
  }

  /** The flag of the retry threads: set as one starts to drain, cleared as one ends, and written back with the other. */
  predicate Threaded(t: seq<Action>)
    decreases |t|, 0
  {
    t != [] &&
    match Latest(t)
    case TakeFirst(_) => true
    case Finish(_) => false
    case WriteFlags => ThreadedWhenRead(Earlier(t))
    case _ => Threaded(Earlier(t))
  }

  predicate ThreadedWhenRead(t: seq<Action>)
    decreases |t|, 0
  {
    t != [] && if Latest(t) == ReadFlags then Threaded(Earlier(t)) else ThreadedWhenRead(Earlier(t))
  }

  /** A payload comes while flow control is off. Over 4096 octets with those counted it is thrown away. */
  predicate PassesLimit(t: seq<Action>, payload: seq<Octet>)
    decreases |t|, 2
  {
    Off(t) && Counted(t) + |payload| > 4096
  }

  /** The octets counted: the rest of the frame that did not fit the pty, and all payloads queued since. */
  function Counted(t: seq<Action>): nat
    decreases |t|, 1
  {
    if t == [] then 0
    else
      var p := Earlier(t);
      match Latest(t)
      case CacheRemaining => if Taken(p) <= |Newest(p)| then |Newest(p)| - Taken(p) else 0
      case Arrive(x) => if Off(p) && !PassesLimit(p, x) then Counted(p) + |x| else Counted(p)
      case _ => Counted(p)
  }

  /** The frames in the list. */
  function Listed(t: seq<Action>): nat
    decreases |t|, 1
  {
    if t == [] then 0
    else
      var p := Earlier(t);
      match Latest(t)
      case CacheRemaining => 1
      case Arrive(x) => if Off(p) && !PassesLimit(p, x) then Listed(p) + 1 else Listed(p)
      case TakeFirst(_) => if Listed(p) > 0 then Listed(p) - 1 else 0
      case TakeNext(_) => if Listed(p) > 0 then Listed(p) - 1 else 0
      case _ => Listed(p)
  }

  /**
   The payloads to be delivered: every one that arrived, in order, less those that passed the limit and, on the video
   channel only, those whose write to the pty would have blocked.
   */
  function Due(channel: nat, t: seq<Action>): seq<seq<Octet>>
    decreases |t|
  {
    if t == [] then []
    else
      var p := Earlier(t);
      var due := Due(channel, p);
      match Latest(t)
      case Arrive(x) => if PassesLimit(p, x) then due else due + [x]
      case DirectWouldBlock => if channel == 24 && due != [] then due[..|due| - 1] else due
      case _ => due
  }

  // ----- Every run is as its history tells -----

  function BeingWritten(s: State): seq<seq<Octet>> {
    if s.assembler.Writing? then [s.assembler.frame] else []
  }

  predicate FlagsAre(t: seq<Action>, s: State) {
    && s.fcOff == Off(t) && s.threadFlag == Threaded(t)
    && (s.assembler.Signalling? ==>
          s.assembler.fcOff == OffWhenRead(t) && s.assembler.threadFlag == ThreadedWhenRead(t))
  }

  predicate CountsAre(t: seq<Action>, s: State) {
    && s.total == Counted(t) && |s.queue| == Listed(t)
    && (s.assembler.Writing? ==> s.assembler.frame == Newest(t))
    && (s.assembler.Caching? ==> s.assembler.frame == Newest(t) && s.assembler.written == Taken(t))
  }

  predicate Told(t: seq<Action>, s: State) {
    FlagsAre(t, s) && CountsAre(t, s) && s.accepted + BeingWritten(s) == Due(s.channel, t)
  }

  lemma OneMore(t: seq<Action>, a: Action)
    ensures t + [a] != [] && Earlier(t + [a]) == t && Latest(t + [a]) == a
  {
    assert (t + [a])[..|t|] == t;
  }

  /** What the step makes of the flags. */
  lemma FlagsMove(s: State, a: Action)
    requires Inv(s) && Enabled(s, a)
    ensures var s' := Apply(s, a);
      && s'.fcOff == (match a
           case TurnOff => true
           case TakeNext(_) => s.fcOff && |s.queue| > 0
           case WriteFlags => s.assembler.Signalling? && s.assembler.fcOff
           case _ => s.fcOff)
      && s'.threadFlag == (match a
           case TakeFirst(_) => true
           case Finish(_) => false
           case WriteFlags => s.assembler.Signalling? && s.assembler.threadFlag
           case _ => s.threadFlag)
      && (s'.assembler.Signalling? ==>
            if a == ReadFlags then s'.assembler == Signalling(s.fcOff, s.threadFlag) else s'.assembler == s.assembler)
  {
    if a.TakeNext? {
      ActiveIsLast(s, a.i);
    }
    hide Outstanding, Concat, ThreadsOk, AssemblerOk, QueueOk, TotalOk;
  }

  lemma FlagsStep(t: seq<Action>, s: State, a: Action)
    requires FlagsAre(t, s) && CountsAre(t, s) && Inv(s) && Enabled(s, a)
    ensures FlagsAre(t + [a], Apply(s, a))
  {
    OneMore(t, a);
    FlagsMove(s, a);
    var s', t' := Apply(s, a), t + [a];
    assert s.total == Counted(t) && |s.queue| == Listed(t);
    hide Apply, Inv, CountsAre, Counted, Listed, Earlier, Latest;
    assert s'.fcOff == Off(t');
    assert s'.threadFlag == Threaded(t');
    assert FlagsAre(t', s');
  }

  lemma CountsStep(t: seq<Action>, s: State, a: Action)
    requires FlagsAre(t, s) && CountsAre(t, s) && Inv(s) && Enabled(s, a)
    ensures CountsAre(t + [a], Apply(s, a))
  {
    OneMore(t, a);
    hide Earlier, Latest, Outstanding, Concat, OffWhenRead, ThreadedWhenRead, Off, Threaded;
    match a {
      case TakeFirst(i) =>
        ActiveIsLast(s, i);
        assert s.queue != [];
      case TakeNext(i) => ActiveIsLast(s, i);
      case CacheRemaining => assert s.queue == [];
      case _ =>
    }
    hide Inv, ThreadsOk;
    var t', s' := t + [a], Apply(s, a);
    assert s'.total == Counted(t');
    assert |s'.queue| == Listed(t');
    assert s'.assembler.Writing? ==> s'.assembler.frame == Newest(t');
    assert s'.assembler.Caching? ==> s'.assembler.frame == Newest(t');
    assert s'.assembler.Caching? ==> s'.assembler.written == Taken(t');
    assert CountsAre(t + [a], Apply(s, a));
  }

  lemma DueStep(t: seq<Action>, s: State, a: Action)
    requires Told(t, s) && Inv(s) && Enabled(s, a)
    ensures Apply(s, a).channel == s.channel
    ensures Apply(s, a).accepted + BeingWritten(Apply(s, a)) == Due(s.channel, t + [a])
  {
    OneMore(t, a);
    hide Earlier, Latest, Outstanding, Concat, ThreadsOk, OffWhenRead, ThreadedWhenRead, Newest, Taken, Off, Counted, Listed;
  }

  lemma StepTold(t: seq<Action>, s: State, a: Action)
    requires Told(t, s) && Inv(s) && Enabled(s, a)
    ensures Told(t + [a], Apply(s, a))
  {
    hide FlagsAre, CountsAre, Apply, Enabled, Inv;
    FlagsStep(t, s, a);
    CountsStep(t, s, a);
    DueStep(t, s, a);
  }

  lemma {:induction false} RunSnoc(s: State, t: seq<Action>, a: Action)
    requires Possible(s, t + [a])
    ensures Possible(s, t) && Enabled(Run(s, t), a) && Run(s, t + [a]) == Apply(Run(s, t), a)
    decreases |t|
  {
    hide Apply, Enabled;
    if t == [] {
      assert (t + [a])[1..] == [];
    } else {
      assert (t + [a])[1..] == t[1..] + [a] && (t + [a])[0] == t[0];
      RunSnoc(Apply(s, t[0]), t[1..], a);
    }
  }

  lemma InitTold(s: State)
    requires Init(s)
    ensures Told([], s)
  {}

  lemma KeepsChannel(s: State, a: Action)
    requires Enabled(s, a)
    ensures Apply(s, a).channel == s.channel
  {}

  lemma {:induction false} RunIsTold(s: State, t: seq<Action>)
    requires Init(s) && Possible(s, t)
    ensures Told(t, Run(s, t)) && Inv(Run(s, t)) && Run(s, t).channel == s.channel
    decreases |t|
  {
    hide Told, Apply, Enabled, Inv;
    if t == [] {
      InitTold(s);
      InitInv(s);
    } else {
      var p, a := Earlier(t), Latest(t);
      assert p + [a] == t;
      RunSnoc(s, p, a);
      RunIsTold(s, p);
      StepTold(p, Run(s, p), a);
      StepKeeps(Run(s, p), a);
      KeepsChannel(Run(s, p), a);
    }
  }

  /**
   In every interleaving the accepted payloads, and the one being written to the pty, are those due from the arrivals;
   flags, counter and list are as the history tells.
   */
  lemma AcceptedAreDue(s: State, t: seq<Action>)
    requires Init(s) && Possible(s, t)
    ensures var e := Run(s, t);
      && e.accepted + BeingWritten(e) == Due(s.channel, t)
      && e.fcOff == Off(t) && e.threadFlag == Threaded(t) && e.total == Counted(t) && |e.queue| == Listed(t)
  {
    hide Run, Possible, Init, Due, Off, Threaded, Counted, Listed, Inv;
    RunIsTold(s, t);
  }

  /** So once the assembler is idle and flow control on, exactly the payloads due are on the pty. */
  lemma QuietMeansDueDelivered(s: State, t: seq<Action>)
    requires Init(s) && Possible(s, t) && Run(s, t).assembler.Idle? && !Off(t)
    ensures Run(s, t).pty == Concat(Due(s.channel, t))
  {
    hide Run, Possible, Init, Due, Off, Threaded, Counted, Listed, Inv, Concat;
    AcceptedAreDue(s, t);
    QuietMeansDelivered(s, t);
    var e := Run(s, t);
    assert e.accepted + [] == e.accepted;
  }

  function Arrived(t: seq<Action>): seq<seq<Octet>>
    decreases |t|
  {
    if t == [] then [] else Arrived(Earlier(t)) + if Latest(t).Arrive? then [Latest(t).payload] else []
  }

  /** Off the video channel, with no payload past the limit, nothing that arrives is lost. */
  lemma {:induction false} AllArrivalsAreDue(channel: nat, t: seq<Action>)
    requires channel != 24
    requires forall i :: 0 <= i < |t| && t[i].Arrive? ==> !PassesLimit(t[..i], t[i].payload)
    ensures Due(channel, t) == Arrived(t)
    decreases |t|
  {
    hide PassesLimit;
    if t != [] {
      var p := Earlier(t);
      assert t[..|p|] == p;
      assert forall i :: 0 <= i < |p| ==> t[..i] == p[..i] && t[i] == p[i];
      forall i | 0 <= i < |p| && p[i].Arrive?
        ensures !PassesLimit(p[..i], p[i].payload)
      {
        assert !PassesLimit(t[..i], t[i].payload);
      }
      AllArrivalsAreDue(channel, p);
    }
  }
}

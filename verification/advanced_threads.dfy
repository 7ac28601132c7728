/**
 The advanced option's decoder on the ring while the reader goes on publishing: each look at the ring's count
 and the octet at its head is one step, and a publication can come between any two of them. The unread octets
 are the queue that the ring is in every interleaving.
 */
module AdvancedThreads {
  import opened Octets
  import opened Stuffing
  import opened AdvancedSpec
  import opened AdvancedStream
  import opened AdvancedTags
  import Fcs

  /** Where the assembler is: between calls, in the search for a flag, in the skipping of flags, or in the main loop. */
  datatype Point = Between | Searching | Skipping | Assembling

  /**
   `start` to `lates` record the first state, what was published and read, the tags of what was read, and the
   late flags published.
   */
  datatype Config = Config(
    point: Point, s: State, unread: seq<Octet>, delivered: seq<Frame>,
    start: State, published: seq<Octet>, read: seq<Octet>, tags: seq<Tag>, lates: nat)

  datatype Action = Publish(p: seq<Octet>) | Begin | Step

  ghost predicate Init(e: Config) {
    e == Config(Between, e.start, [], [], e.start, [], [], [], 0)
  }

  predicate Enabled(e: Config, a: Action) {
    match a
    case Publish(p) => |e.unread| + |p| <= BUFFER_SIZE
    case Begin => e.point.Between?
    case Step => !e.point.Between?
  }

  /** The skipping loop found the ring empty behind a start flag, and the main loop has not looked yet. */
  predicate Window(e: Config) {
    e.point.Assembling? && e.s == OPENED && e.unread == []
  }

  function Read(e: Config, t: Tag, point: Point): Config
    requires e.unread != []
  {
    var b := e.unread[0];
    e.(point := point, s := TNext(e.s, b, t), unread := e.unread[1..], delivered := e.delivered + TEmit(e.s, b, t),
       read := e.read + [b], tags := e.tags + [t])
  }

  /**
   One look at the ring. A flag that ends a frame of fewer than three octets, or one that fails the FCS, leads
   back to the search; an octet for which there is no room is looked at again there, in the same step.
   */
  function LookAtRing(e: Config): Config
    requires !e.point.Between?
  {
    match e.point
    case Searching =>
      if e.unread == [] then e.(point := Between)
      else Read(e, Plain, if e.unread[0] == ADV_FLAG then Skipping else Searching)
    case Skipping =>
      if e.unread == [] || e.unread[0] != ADV_FLAG then e.(point := Assembling)
      else Read(e, if e.s == HAZARD then Skipped else Plain, Skipping)
    case Assembling =>
      if e.unread == [] || e.s.Hunting? then e.(point := Between)
      else if !e.s.esc && e.unread[0] == ADV_FLAG then
        if e.s.acc == [] then Read(e, Late, Searching)
        else Read(e, Plain, if Close(e.s.acc).Got? then Between else Searching)
      else if |e.s.acc| >= BUFFER_SIZE then Read(e, Plain, if e.unread[0] == ADV_FLAG then Skipping else Searching)
      else Read(e, Plain, Assembling)
  }

  function Apply(e: Config, a: Action): Config
    requires Enabled(e, a)
  {
    match a
    case Publish(p) =>
      e.(unread := e.unread + p, published := e.published + p,
         lates := e.lates + if Window(e) && p != [] && p[0] == ADV_FLAG then 1 else 0)
    case Begin => e.(point := if e.s.Hunting? then Searching else if e.s.acc == [] then Skipping else Assembling)
    case Step => LookAtRing(e)
  }

  predicate Runs(e: Config, trace: seq<Action>)
    decreases |trace|
  {
    trace == [] || (Enabled(e, trace[0]) && Runs(Apply(e, trace[0]), trace[1..]))
  }

  function Run(e: Config, trace: seq<Action>): Config
    requires Runs(e, trace)
    decreases |trace|
  {
    if trace == [] then e else Run(Apply(e, trace[0]), trace[1..])
  }

  /** What the reader thread publishes, piece by piece. */
  function Publications(trace: seq<Action>): seq<seq<Octet>> {
    if trace == [] then [] else (if trace[0].Publish? then [trace[0].p] else []) + Publications(trace[1..])
  }

  lemma StepPublishes(e: Config, a: Action)
    requires Enabled(e, a)
    ensures Apply(e, a).published == e.published + if a.Publish? then a.p else []
  {}

  lemma ConcatOfOne(a: Action)
    ensures Concat(if a.Publish? then [a.p] else []) == if a.Publish? then a.p else []
  {
    if a.Publish? {
      assert [a.p][1..] == [];
    }
  }

  /** What is recorded as published is what the run publishes. */
  lemma {:induction false} PublicationsJoinUp(e: Config, trace: seq<Action>)
    requires Runs(e, trace)
    ensures Run(e, trace).published == e.published + Concat(Publications(trace))
    decreases |trace|
  {
    hide Apply, Enabled;
    if trace != [] {
      StepPublishes(e, trace[0]);
      PublicationsJoinUp(Apply(e, trace[0]), trace[1..]);
      var first := if trace[0].Publish? then [trace[0].p] else [];
      ConcatAppend(first, Publications(trace[1..]));
      ConcatOfOne(trace[0]);
      JoinThree(e.published, Concat(first), Concat(Publications(trace[1..])));
    }
  }

  // ----- What every interleaving keeps -----

  predicate PointOk(e: Config) {
    match e.point
    case Between => true
    case Searching => e.s.Hunting?
    case Skipping => e.s.InFrame? && e.s.acc == []
    case Assembling => e.s.InFrame?
  }

  /** A late flag has been published and not been read. */
  predicate LatePending(e: Config) {
    e.point.Assembling? && e.s == OPENED && e.unread != [] && e.unread[0] == ADV_FLAG
  }

  predicate Inv(e: Config) {
    && PointOk(e) && |e.tags| == |e.read|
    && Tagged(e.start, e.read, e.tags) && e.s == TAfter(e.start, e.read, e.tags)
    && e.delivered == TFrames(e.start, e.read, e.tags)
    && e.published == e.read + e.unread
    && e.lates == Lates(e.tags) + if LatePending(e) then 1 else 0
  }

  lemma InitInv(e: Config)
    requires Init(e)
    ensures Inv(e)
  {}

  lemma OneTag(s: State, b: Octet, t: Tag)
    ensures Tagged(s, [b], [t]) <==> Possible(s, b, t)
    ensures TAfter(s, [b], [t]) == TNext(s, b, t) && TFrames(s, [b], [t]) == TEmit(s, b, t)
    ensures Lates([t]) == if t == Late then 1 else 0
  {
    hide TNext, TEmit, Possible;
    assert [b][1..] == [] && [t][1..] == [];
  }

  /** Reading the octet at the head with a tag it can have. */
  lemma ReadKeeps(e: Config, t: Tag, point: Point)
    requires Inv(e) && e.unread != [] && Possible(e.s, e.unread[0], t) && PointOk(Read(e, t, point))
    requires t == Late <==> LatePending(e)
    requires !LatePending(Read(e, t, point))
    ensures Inv(Read(e, t, point))
  {
    hide TNext, TEmit, Possible, Tagged, TAfter, TFrames, Lates, LatePending, PointOk;
    var b := e.unread[0];
    OneTag(e.s, b, t);
    TaggedAppend(e.start, e.read, e.tags, [b], [t]);
    assert e.unread == [b] + e.unread[1..];
    assert e.read + e.unread == (e.read + [b]) + e.unread[1..];
    assert Inv(Read(e, t, point));
  }

  lemma NextPoints(s: State, b: Octet)
    requires s.InFrame?
    ensures !s.esc && b == ADV_FLAG && s.acc != [] ==> Next(s, b) == Hunting
    ensures (s.esc || b != ADV_FLAG) && |s.acc| >= BUFFER_SIZE ==> Next(s, b) == Hunt(b)
    ensures (s.esc || b != ADV_FLAG) && |s.acc| < BUFFER_SIZE ==> Next(s, b).InFrame? && Next(s, b) != OPENED
  {}

  lemma LookKeeps(e: Config)
    requires Inv(e) && !e.point.Between?
    ensures Inv(LookAtRing(e))
  {
    hide Tagged, TAfter, TFrames, Lates, Close, Complement;
    if e.unread != [] {
      var b := e.unread[0];
      if e.point.Searching? {
        ReadKeeps(e, Plain, if b == ADV_FLAG then Skipping else Searching);
      } else if e.point.Skipping? {
        if b == ADV_FLAG {
          ReadKeeps(e, if e.s == HAZARD then Skipped else Plain, Skipping);
        }
      } else {
        NextPoints(e.s, b);
        hide Next, Emit;
        if !e.s.esc && b == ADV_FLAG {
          if e.s.acc == [] {
            ReadKeeps(e, Late, Searching);
          } else {
            ReadKeeps(e, Plain, if Close(e.s.acc).Got? then Between else Searching);
          }
        } else if |e.s.acc| >= BUFFER_SIZE {
          ReadKeeps(e, Plain, if b == ADV_FLAG then Skipping else Searching);
        } else {
          ReadKeeps(e, Plain, Assembling);
        }
      }
    }
  }

  lemma StepKeeps(e: Config, a: Action)
    requires Inv(e) && Enabled(e, a)
    ensures Inv(Apply(e, a))
  {
    hide Tagged, TAfter, TFrames, Lates, LookAtRing;
    match a {
      case Publish(p) =>
        assert (e.read + e.unread) + p == e.read + (e.unread + p);
      case Begin =>
      case Step => LookKeeps(e);
    }
  }

  lemma {:induction false} RunKeeps(e: Config, trace: seq<Action>)
    requires Inv(e) && Runs(e, trace)
    ensures Inv(Run(e, trace)) && Run(e, trace).start == e.start
    decreases |trace|
  {
    hide Inv, Enabled;
    if trace != [] {
      StepKeeps(e, trace[0]);
      RunKeeps(Apply(e, trace[0]), trace[1..]);
    }
  }

  // ----- What holds after every interleaving -----

  /**
   What frames in step send arrives in every interleaving: no late flag is published, and what was delivered and
   what is still to come are together the frames of the stream.
   */
  lemma FramesArriveInEveryInterleaving(e0: Config, trace: seq<Action>, bodies: seq<seq<Octet>>, coming: seq<Octet>)
    requires Init(e0) && e0.start == Hunting && Runs(e0, trace) && AllFitting(bodies)
    requires Run(e0, trace).published + coming == Stream(bodies)
    ensures var e := Run(e0, trace);
      && e.lates == 0
      && e.delivered + Frames(e.s, e.unread + coming) == Sent(bodies)
      && (e.unread == [] && coming == [] ==> e.delivered == Sent(bodies) && e.s == Hunting)
  {
    hide Tagged, TAfter, TFrames, Lates, Frames, After, Stream, AllFitting, Untouched, Sent;
    InitInv(e0);
    RunKeeps(e0, trace);
    var e := Run(e0, trace);
    var rest := e.unread + coming;
    assert e.read + rest == Stream(bodies);
    StreamIsUntouched(bodies);
    UntouchedAppend(Hunting, e.read, rest);
    UntouchedIsPlain(Hunting, e.read, e.tags);
    if e.unread != [] {
      FirstUntouched(e.s, rest);
    }
    FramesAppend(Hunting, e.read, rest);
    if rest == [] {
      assert e.read == Stream(bodies);
    }
    StreamInStep(Hunting, bodies);
    NothingReadYet(e.s);
  }

  lemma FirstUntouched(s: State, w: seq<Octet>)
    requires Untouched(s, w) && w != []
    ensures w[0] == ADV_FLAG ==> s != HAZARD && s != OPENED
  {}

  lemma NothingReadYet(s: State)
    ensures Frames(s, []) == [] && After(s, []) == s
  {}

  /** Without late flags no interleaving shows, on every stream without an escape directly before a flag. */
  lemma InterleavingIsInvisible(e0: Config, trace: seq<Action>)
    requires Init(e0) && Runs(e0, trace)
    requires var e := Run(e0, trace);
      && NoEscFlag(e.published) && e.lates == 0
      && (e.start == HAZARD ==> e.published == [] || e.published[0] != ADV_FLAG)
    ensures var e := Run(e0, trace);
      && e.delivered + Frames(e.s, e.unread) == Frames(e.start, e.published)
      && After(e.s, e.unread) == After(e.start, e.published)
  {
    hide Tagged, TAfter, TFrames, Lates, Frames, After;
    InitInv(e0);
    RunKeeps(e0, trace);
    var e := Run(e0, trace);
    assert e.read == e.published[..|e.read|];
    assert NoEscFlag(e.read);
    NoLatesIsPlain(e.start, e.read, e.tags);
    FramesAppend(e.start, e.read, e.unread);
    AfterAppend(e.start, e.read, e.unread);
  }

  /**
   Recovery, in every interleaving and from every state and garbage, to the frame: of the stream behind the
   garbage exactly `Lost` frames are missing, all at its beginning, and at most one frame that was not sent comes
   before the others. So each late flag published behind the garbage costs one more frame, and if there is none
   the receiver is in step from the second frame on.
   */
  lemma RecoveryAccount(e0: Config, trace: seq<Action>, garbage: seq<Octet>, bodies: seq<seq<Octet>>)
    returns (stray: seq<Frame>)
    requires Init(e0) && Runs(e0, trace) && AllFitting(bodies) && bodies != []
    requires Run(e0, trace).published == garbage + Stream(bodies) && Run(e0, trace).unread == []
    ensures var e, n := Run(e0, trace), |garbage|;
      && |e.tags| == n + |Stream(bodies)|
      && var s := TAfter(e.start, garbage, e.tags[..n]);
      && Lates(e.tags[..n]) + Lates(e.tags[n..]) == e.lates
      && Lost(s, e.tags[n..]) <= |bodies|
      && e.delivered == TFrames(e.start, garbage, e.tags[..n]) + stray + Sent(bodies[Lost(s, e.tags[n..])..])
      && |stray| <= 1 && (Opens(s) ==> stray == []) && InStep(e.s)
  {
    hide Tagged, TAfter, TFrames, Lates, Stream, Fitting, Sent, Lost, InStep, Opens;
    InitInv(e0);
    RunKeeps(e0, trace);
    var e, n := Run(e0, trace), |garbage|;
    assert e.read == garbage + Stream(bodies);
    var x, y := e.tags[..n], e.tags[n..];
    assert e.tags == x + y;
    TaggedAppend(e.start, garbage, x, Stream(bodies), y);
    var s := TAfter(e.start, garbage, x);
    stray := StreamAccount(s, bodies, y);
    var g, more := TFrames(e.start, garbage, x), Sent(bodies[Lost(s, y)..]);
    JoinThree(g, stray, more);
  }

  /** With no late flag at all, at most the first frame is lost, in every interleaving. */
  lemma SelfStabilisationInEveryInterleaving(e0: Config, trace: seq<Action>, garbage: seq<Octet>,
      bodies: seq<seq<Octet>>)
    returns (part: seq<Frame>)
    requires Init(e0) && Runs(e0, trace) && AllFitting(bodies) && bodies != []
    requires var e := Run(e0, trace); e.published == garbage + Stream(bodies) && e.unread == [] && e.lates == 0
    ensures var e, n := Run(e0, trace), |garbage|;
      && n <= |e.tags| && InStep(e.s)
      && e.delivered == TFrames(e.start, garbage, e.tags[..n]) + part && AllButFirst(part, bodies)
  {
    hide Tagged, TAfter, TFrames, Stream, Fitting, Sent, Runs, Run, AllButFirst, Lost, Lates, InStep, Opens, Init;
    var stray := RecoveryAccount(e0, trace, garbage, bodies);
    var e, n := Run(e0, trace), |garbage|;
    var s, tags := TAfter(e.start, garbage, e.tags[..n]), e.tags[n..];
    LostWithoutLates(s, tags);
    AllButFirstOf(stray, bodies, Lost(s, tags));
    part := stray + Sent(bodies[Lost(s, tags)..]);
    JoinThree(TFrames(e.start, garbage, e.tags[..n]), stray, Sent(bodies[Lost(s, tags)..]));
    assert InStep(e.s) && AllButFirst(part, bodies);
  }

  lemma LostWithoutLates(s: State, tags: seq<Tag>)
    requires Lates(tags) == 0
    ensures Lost(s, tags) == if Opens(s) then 0 else 1
  {}

  lemma AtMostOne(body: seq<Octet>)
    ensures |Accepted(body)| <= 1
  {}

  lemma AllButFirstOf(stray: seq<Frame>, bodies: seq<seq<Octet>>, lost: nat)
    requires bodies != [] && lost <= 1 && |stray| <= lost
    ensures AllButFirst(stray + Sent(bodies[lost..]), bodies)
  {
    hide Accepted;
    if lost == 0 {
      assert bodies[0..] == bodies && stray == [];
      AtMostOne(bodies[0]);
    }
  }

  // ----- The window is the one place where an arrival shows -----

  /** The call goes on, or the next one is made, with nothing more published, until it returns. */
  function Finish(e: Config): Config
    decreases |e.unread|, if e.point.Skipping? then 1 else 0
  {
    if e.point.Between? then e
    else
      var e' := LookAtRing(e);
      if |e'.unread| < |e.unread| || (e.point.Skipping? && e'.point.Assembling? && e'.unread == e.unread) then Finish(e')
      else e'
  }

  function Call(e: Config): Config {
    Finish(if e.point.Between? then Apply(e, Begin) else e)
  }

  function FrameOf(f: Option<Frame>): seq<Frame> {
    if f.Some? then [f.value] else []
  }

  predicate CameTo(e: Config, d: Config, c: AdvancedSpec.Call) {
    d.point.Between? && d.s == c.state && d.unread == c.rest && d.delivered == e.delivered + FrameOf(c.frame)
  }

  /** The call that goes on with nothing more published ends as the scan does, behind a late flag that of the search. */
  lemma FinishIsScan(e: Config, dropped: nat)
    requires PointOk(e) && !e.point.Between?
    ensures e.point.Skipping? ==> CameTo(e, Finish(e), Scan(e.s, SkipFlags(e.unread), dropped))
    ensures LatePending(e) ==> CameTo(e, Finish(e), Scan(Hunting, e.unread[1..], dropped))
    ensures !e.point.Skipping? && !LatePending(e) ==> CameTo(e, Finish(e), Scan(e.s, e.unread, dropped))
    decreases |e.unread|, if e.point.Skipping? then 2 else 1
  {
    hide Scan, Close, Complement, SkipFlags;
    var w := e.unread;
    if w == [] {
      ScanEmpty(e.s, dropped);
      SkipFacts(w);
      if e.point.Skipping? {
        var e' := LookAtRing(e);
        assert Finish(e') == e'.(point := Between);
      }
    } else if e.point.Searching? {
      ScanSearches(w, dropped);
      FinishIsScan(LookAtRing(e), dropped);
      SkippingIsScanning(w[1..], dropped);
    } else if e.point.Skipping? {
      SkipFacts(w);
      FinishIsScan(LookAtRing(e), dropped);
    } else {
      AssemblingIsScan(e, dropped);
    }
  }

  lemma SkipFacts(w: seq<Octet>)
    ensures SkipFlags(w) == if w != [] && w[0] == ADV_FLAG then SkipFlags(w[1..]) else w
  {}

  lemma ScanSearches(w: seq<Octet>, dropped: nat)
    requires w != []
    ensures Scan(Hunting, w, dropped) == Scan(Hunt(w[0]), w[1..], dropped)
  {}

  lemma AssemblingIsScan(e: Config, dropped: nat)
    requires PointOk(e) && e.point.Assembling? && e.unread != []
    ensures LatePending(e) ==> CameTo(e, Finish(e), Scan(Hunting, e.unread[1..], dropped))
    ensures !LatePending(e) ==> CameTo(e, Finish(e), Scan(e.s, e.unread, dropped))
    decreases |e.unread|, 0
  {
    hide Scan, Close, Complement, SkipFlags;
    var w, acc, e' := e.unread, e.s.acc, LookAtRing(e);
    if !e.s.esc && w[0] == ADV_FLAG {
      if acc == [] {
        FinishIsScan(e', dropped);
      } else {
        ScanCloses(acc, w, dropped);
        if !Close(acc).Got? {
          FinishIsScan(e', dropped + if Close(acc).Dropped? then 1 else 0);
        }
      }
    } else if |acc| >= BUFFER_SIZE {
      ScanOverflows(acc, e.s.esc, w, dropped);
      ScanSearches(w, dropped + 1);
      FinishIsScan(e', dropped + 1);
      SkippingIsScanning(w[1..], dropped + 1);
    } else {
      ScanStores(acc, e.s.esc, w, dropped);
      NextPoints(e.s, w[0]);
      FinishIsScan(e', dropped);
    }
  }

  /** A call by itself is the call of the octet machine, and so that of the code. */
  lemma CallIsGetFrame(e: Config, dropped: nat)
    requires e.point.Between?
    ensures CameTo(e, Call(e), GetFrame(e.s, e.unread, dropped))
  {
    hide Scan, Finish, SkipFlags;
    FinishIsScan(Apply(e, Begin), dropped);
  }

  /** An escape pending with nothing stored, where flags may still be skipped. */
  predicate HazardOpen(e: Config) {
    e.s == HAZARD && (e.point.Between? || e.point.Skipping?)
  }

  /** With `p` published and the call finished, the octets `x` deliver what they do behind `p` in one go. */
  predicate Shows(e: Config, p: seq<Octet>, x: seq<Octet>) {
    var d := Call(e.(unread := e.unread + p));
    d.delivered + Frames(d.s, d.unread + x) != e.delivered + Frames(e.s, e.unread + p + x)
  }

  /** Where the call's end leaves the run. */
  lemma CameToRuns(e: Config, d: Config, s: State, w: seq<Octet>, x: seq<Octet>)
    requires CameTo(e, d, Scan(s, w, 0))
    ensures d.delivered + Frames(d.s, d.unread + x) == e.delivered + Frames(s, w + x)
  {
    hide Scan, Frames, After;
    ScanConsumes(s, w, 0);
    var c := Scan(s, w, 0);
    FramesAppend(s, w, x);
    FramesAppend(d.s, d.unread, x);
    var a, b, f, g := e.delivered, FrameOf(c.frame), Frames(c.state, c.rest), Frames(After(s, w), x);
    assert (a + b) + (f + g) == a + ((b + f) + g);
  }

  lemma SkippingIsIdle(w: seq<Octet>, x: seq<Octet>)
    ensures Frames(OPENED, SkipFlags(w) + x) == Frames(OPENED, w + x)
  {
    hide Frames, After, SkipFlags;
    FlagsAreIdle(w);
    FramesAppend(OPENED, SkipFlags(w), x);
    FramesAppend(OPENED, w, x);
  }

  /** Everywhere else no publication shows, whatever it is and whatever follows it. */
  lemma ElsewhereInvisible(e: Config, p: seq<Octet>, x: seq<Octet>)
    requires PointOk(e) && e.unread == []
    requires !Window(e) || p == [] || p[0] != ADV_FLAG
    requires !HazardOpen(e) || p == [] || p[0] != ADV_FLAG
    ensures !Shows(e, p, x)
  {
    hide Scan, Frames, After, SkipFlags, Finish;
    var e' := e.(unread := p);
    assert [] + p == p && e.unread + p + x == p + x;
    SkipFacts(p);
    SkippingIsIdle(p, x);
    if e.point.Between? {
      CallIsGetFrame(e', 0);
      CameToRuns(e', Call(e'), e.s, Enter(e.s, p), x);
    } else if e.point.Skipping? {
      FinishIsScan(e', 0);
      CameToRuns(e', Finish(e'), e.s, SkipFlags(p), x);
    } else {
      FinishIsScan(e', 0);
      CameToRuns(e', Finish(e'), e.s, p, x);
    }
  }

  /** A well-formed body. */
  lemma SomeBody() returns (body: seq<Octet>)
    ensures WellFormed(body) && Fitting(body) && Accepted(body) != []
  {
    hide Fcs.FrameFcs, Fcs.Accepts;
    body := Body(Frame(1, TYPE_UIH, []));
    assert !FrameIs(TYPE_UI, TYPE_UIH);
    BodyAcceptedIff(Frame(1, TYPE_UIH, []));
  }

  lemma WindowShows(e: Config)
    requires PointOk(e) && Window(e)
    ensures exists x :: Shows(e, [ADV_FLAG], x)
  {
    hide Scan, Frames, After, SkipFlags, Finish, Stuff;
    var body := SomeBody();
    hide WellFormed, BodyOk, Accepted;
    var x := Stuff(body) + [ADV_FLAG];
    var e' := e.(unread := [ADV_FLAG]);
    assert [] + [ADV_FLAG] == [ADV_FLAG] && e'.unread[1..] == [] && [] + x == x;
    FinishIsScan(e', 0);
    CameToRuns(e', Finish(e'), Hunting, [], x);
    TailFromHunting(body);
    TailFromOpened(body);
    OpeningFlag(OPENED);
    FramesAppend(OPENED, [ADV_FLAG], x);
    assert Shows(e, [ADV_FLAG], x);
  }

  lemma HazardShows(e: Config)
    requires PointOk(e) && HazardOpen(e) && e.unread == []
    ensures exists x :: Shows(e, [ADV_FLAG], x)
  {
    hide Scan, Frames, After, Finish, Stuff, FrameIs, Fcs.FrameFcs;
    var control: Octet := 0x01;
    assert !FrameIs(TYPE_UI, control) && !Escaped(control) by { PlainControl(); }
    HazardMatters(control);
    var late := [control] + Stuff([Fcs.FrameFcs([0x5E, control])]);
    var x := late + [ADV_FLAG];
    var e' := e.(unread := [ADV_FLAG]);
    assert [] + [ADV_FLAG] == [ADV_FLAG] && [] + x == x && [ADV_FLAG] + x == [ADV_FLAG] + late + [ADV_FLAG];
    SkipFacts([ADV_FLAG]);
    SkipFacts([]);
    assert SkipFlags([ADV_FLAG]) == [];
    if e.point.Between? {
      CallIsGetFrame(e', 0);
      CameToRuns(e', Call(e'), HAZARD, [], x);
    } else {
      FinishIsScan(e', 0);
      CameToRuns(e', Finish(e'), HAZARD, [], x);
    }
    assert Shows(e, [ADV_FLAG], x);
  }

  lemma PlainControl()
    ensures !FrameIs(TYPE_UI, 0x01) && !Escaped(0x01)
  {}

  /**
   On an empty ring, wherever the assembler stands: whatever is published next and whatever follows, delivery is
   that of the octet machine exactly if this is neither the window nor a place where a pending escape meets the
   skipping of flags.
   */
  lemma ArrivalsAreInvisibleIff(e: Config)
    requires PointOk(e) && e.unread == []
    ensures (forall p, x :: !Shows(e, p, x)) <==> !Window(e) && !HazardOpen(e)
  {
    hide Shows;
    if Window(e) {
      WindowShows(e);
    } else if HazardOpen(e) {
      HazardShows(e);
    } else {
      forall p, x
        ensures !Shows(e, p, x)
      {
        ElsewhereInvisible(e, p, x);
      }
    }
  }

  // ----- A run that loses every frame -----

  ghost predicate Reaches(e: Config, d: Config) {
    exists trace :: Runs(e, trace) && Run(e, trace) == d
  }

  lemma {:induction false} ReachesOn(e: Config, trace: seq<Action>, more: seq<Action>)
    requires Runs(e, trace) && Runs(Run(e, trace), more)
    ensures Runs(e, trace + more) && Run(e, trace + more) == Run(Run(e, trace), more)
    decreases |trace|
  {
    hide Apply, Enabled;
    if trace == [] {
      assert trace + more == more;
    } else {
      assert (trace + more)[1..] == trace[1..] + more;
      ReachesOn(Apply(e, trace[0]), trace[1..], more);
    }
  }

  lemma ReachesItself(e: Config)
    ensures Reaches(e, e)
  {
    assert Runs(e, []) && Run(e, []) == e;
  }

  lemma ReachesNext(e: Config, d: Config, a: Action)
    requires Reaches(e, d) && Enabled(d, a)
    ensures Reaches(e, Apply(d, a))
  {
    hide Apply, Enabled;
    var trace :| Runs(e, trace) && Run(e, trace) == d;
    assert [a][1..] == [];
    assert Runs(d, [a]) && Run(d, [a]) == Apply(d, a);
    ReachesOn(e, trace, [a]);
  }

  /** What a run is judged by. */
  predicate Stands(e: Config, point: Point, s: State, unread: seq<Octet>, delivered: seq<Frame>,
                   published: seq<Octet>, lates: nat)
  {
    && e.point == point && e.s == s && e.unread == unread && e.delivered == delivered
    && e.published == published && e.lates == lates
  }

  /** Searching passes over octets that are no flags, one step each. */
  lemma {:induction false} SearchPasses(e: Config, d: Config, u: seq<Octet>, v: seq<Octet>) returns (d': Config)
    requires Reaches(e, d) && d.point.Searching? && d.s == Hunting && d.unread == u + v && ADV_FLAG !in u
    ensures Reaches(e, d') && Stands(d', Searching, Hunting, v, d.delivered, d.published, d.lates)
    decreases |u|
  {
    hide Reaches;
    if u == [] {
      assert u + v == v;
      d' := d;
    } else {
      assert (u + v)[1..] == u[1..] + v;
      ReachesNext(e, d, Step);
      d' := SearchPasses(e, Apply(d, Step), u[1..], v);
    }
  }

  /** A whole frame published into the window is lost, and leads to the window again. */
  lemma WindowLosesFrame(e: Config, d: Config, body: seq<Octet>) returns (d': Config)
    requires Reaches(e, d) && Window(d) && Fitting(body) && |Wire(body)| <= BUFFER_SIZE
    ensures Reaches(e, d') && Window(d')
    ensures Stands(d', Assembling, OPENED, [], d.delivered, d.published + Wire(body), d.lates + 1)
  {
    hide Reaches, Fitting, Stuff;
    StuffHasNoFlag(body);
    var w := Wire(body);
    assert w[0] == ADV_FLAG && w[1..] == Stuff(body) + [ADV_FLAG] && [] + w == w;
    ReachesNext(e, d, Publish(w));
    var d1 := Apply(d, Publish(w));
    ReachesNext(e, d1, Step);
    var d2 := Apply(d1, Step);
    assert Stands(d2, Searching, Hunting, Stuff(body) + [ADV_FLAG], d.delivered, d.published + w, d.lates + 1);
    var d3 := SearchPasses(e, d2, Stuff(body), [ADV_FLAG]);
    ReachesNext(e, d3, Step);
    var d4 := Apply(d3, Step);
    ReachesNext(e, d4, Step);
    d' := Apply(d4, Step);
  }

  lemma {:induction false} WindowLosesFrames(e: Config, d: Config, bodies: seq<seq<Octet>>) returns (d': Config)
    requires Reaches(e, d) && Window(d) && AllFitting(bodies)
    requires forall i :: 0 <= i < |bodies| ==> |Wire(bodies[i])| <= BUFFER_SIZE
    ensures Reaches(e, d') && Stands(d', Assembling, OPENED, [], d.delivered, d.published + Stream(bodies), d.lates + |bodies|)
    decreases |bodies|
  {
    hide Reaches, Fitting, Wire;
    if bodies == [] {
      assert d.published + [] == d.published;
      d' := d;
    } else {
      var d1 := WindowLosesFrame(e, d, bodies[0]);
      d' := WindowLosesFrames(e, d1, bodies[1..]);
      assert (d.published + Wire(bodies[0])) + Stream(bodies[1..]) == d.published + Stream(bodies);
    }
  }

  /**
   Late flags can cost every frame: behind a single flag of garbage there is, for every list of frames that fit
   the ring, an interleaving in which all of them are published and read and none is delivered.
   */
  lemma LateFlagsCanLoseAll(e: Config, bodies: seq<seq<Octet>>) returns (d: Config)
    requires Init(e) && e.start == Hunting && AllFitting(bodies)
    requires forall i :: 0 <= i < |bodies| ==> |Wire(bodies[i])| <= BUFFER_SIZE
    ensures Reaches(e, d) && d.published == [ADV_FLAG] + Stream(bodies) && d.unread == [] && d.delivered == []
    ensures d.lates == |bodies|
  {
    hide Reaches, Stream, AllFitting, Wire;
    ReachesItself(e);
    ReachesNext(e, e, Begin);
    var d1 := Apply(e, Begin);
    ReachesNext(e, d1, Publish([ADV_FLAG]));
    var d2 := Apply(d1, Publish([ADV_FLAG]));
    ReachesNext(e, d2, Step);
    var d3 := Apply(d2, Step);
    ReachesNext(e, d3, Step);
    var d4 := Apply(d3, Step);
    assert [] + [ADV_FLAG] == [ADV_FLAG] && Stands(d4, Assembling, OPENED, [], [], [ADV_FLAG], 0);
    d := WindowLosesFrames(e, d4, bodies);
  }
}

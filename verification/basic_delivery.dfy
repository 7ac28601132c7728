/**
 What the basic option's receiver delivers of a stream of frames, and when its assertion stops it, in every
 interleaving of publications with its looks at the ring: whether the frames are to be accepted or rejected, and
 wherever within a call the octets arrive.
 */
module BasicDelivery {
  import opened Octets
  import opened BasicSpec
  import opened BasicStream
  import opened BasicRejection
  import opened BasicThreads
  import Fcs

  // ----- The moments of a run -----

  function StateAt(n1: Octet -> nat, e0: Config, trace: seq<Action>, t: nat): Config
    requires Runs(n1, e0, trace) && t <= |trace|
    decreases t
  {
    if t == 0 then e0 else StateAt(n1, Apply(n1, e0, trace[0]), trace[1..], t - 1)
  }

  lemma {:induction false} StateAtNext(n1: Octet -> nat, e0: Config, trace: seq<Action>, t: nat)
    requires Runs(n1, e0, trace) && t < |trace|
    ensures Enabled(StateAt(n1, e0, trace, t), trace[t])
    ensures StateAt(n1, e0, trace, t + 1) == Apply(n1, StateAt(n1, e0, trace, t), trace[t])
    decreases t
  {
    hide Apply, Enabled;
    if t > 0 {
      StateAtNext(n1, Apply(n1, e0, trace[0]), trace[1..], t - 1);
    }
  }

  lemma {:induction false} StateAtEnd(n1: Octet -> nat, e0: Config, trace: seq<Action>)
    requires Runs(n1, e0, trace)
    ensures StateAt(n1, e0, trace, |trace|) == Run(n1, e0, trace)
    decreases |trace|
  {
    hide Apply, Enabled;
    if trace != [] {
      StateAtEnd(n1, Apply(n1, e0, trace[0]), trace[1..]);
    }
  }

  /** What is recorded stays recorded. */
  predicate Extends(e: Config, d: Config) {
    e.published <= d.published && e.marks <= d.marks && e.delivered <= d.delivered && (e.asserted ==> d.asserted)
  }

  lemma ApplyRecords(n1: Octet -> nat, e: Config, a: Action)
    requires Enabled(e, a)
    ensures Extends(e, Apply(n1, e, a))
  {
    hide Parse;
  }

  lemma {:induction false} RunRecords(n1: Octet -> nat, e0: Config, trace: seq<Action>, t: nat, u: nat)
    requires Runs(n1, e0, trace) && t <= u <= |trace|
    ensures Extends(StateAt(n1, e0, trace, t), StateAt(n1, e0, trace, u))
    decreases u
  {
    hide Apply, Enabled, StateAt;
    if t < u {
      RunRecords(n1, e0, trace, t, u - 1);
      StateAtNext(n1, e0, trace, u - 1);
      ApplyRecords(n1, StateAt(n1, e0, trace, u - 1), trace[u - 1]);
    }
  }

  // ----- The stream ahead of a decoder in step -----

  /** The frame before has been rejected, so its end flag is still to be read, or was taken for a start flag. */
  predicate Behind(n1: Octet -> nat, frames: seq<Frame>, k: nat)
    requires AllFit(n1, frames) && k <= |frames|
  {
    k > 0 && !FcsAgrees(frames[k - 1])
  }

  /** `left` is what is left to be read of the rest `w` of the stream, which begins with a start flag. */
  predicate Ahead(flag: bool, behind: bool, left: seq<Octet>, w: seq<Octet>) {
    if flag then (w != [] && left == w[1..]) || (behind && left == w)
    else left == (if behind then [BASIC_FLAG] else []) + w
  }

  /** The octets that are unread, and those to come. */
  function Left(n1: Octet -> nat, frames: seq<Frame>, e: Config): seq<Octet>
    requires AllFit(n1, frames) && e.published <= Stream(n1, frames)
  {
    e.unread + Stream(n1, frames)[|e.published|..]
  }

  /** `k` frames are read, those of them that agree are delivered, and the next one is ahead. */
  predicate InStep(n1: Octet -> nat, frames: seq<Frame>, e: Config, k: nat)
    requires AllFit(n1, frames)
  {
    && k <= |frames| && PointOk(e) && e.published <= Stream(n1, frames) && |e.marks| + |e.unread| == |e.published|
    && e.delivered == Agreeing(n1, frames[..k])
    && Ahead(e.flag, Behind(n1, frames, k), Left(n1, frames, e), Stream(n1, frames[k..]))
  }

  lemma FirstOctets(f: Frame)
    requires |f.data| <= MAX_LENGTH
    ensures |Encode(f)| > 5 && Encode(f)[0] == BASIC_FLAG && Encode(f)[1] == Address(f.channel) != BASIC_FLAG
  {
    hide LengthField, Address;
    FieldSize(|f.data|);
    AddressFacts(f.channel);
  }

  /** The attempt behind the start flag of a frame. */
  lemma WholeFrame(n1: Octet -> nat, f: Frame, x: seq<Octet>)
    requires Fits(n1, f)
    ensures |Encode(f)| > 5 && Encode(f)[0] == BASIC_FLAG && Encode(f)[1] != BASIC_FLAG
    ensures Parse(n1, Encode(f)[1..] + x) == if FcsAgrees(f) then Got(f, x) else Drop([BASIC_FLAG] + x)
  {
    hide Parse, FcsAgrees, Encode;
    FirstOctets(f);
    FrameStep(n1, true, f, x);
    var w := Encode(f) + x;
    assert w == [BASIC_FLAG] + (Encode(f)[1..] + x);
    FlagEitherWay(n1, Encode(f)[1..] + x);
    FlagEitherWay(n1, w);
    ParseIsTry(n1, Encode(f)[1..] + x);
  }

  lemma NextFrame(n1: Octet -> nat, frames: seq<Frame>, k: nat)
    requires AllFit(n1, frames) && k < |frames|
    ensures var w := Stream(n1, frames[k..]);
      && w == Encode(frames[k]) + Stream(n1, frames[k + 1..]) && |w| > 5 && w[0] == BASIC_FLAG && w[1] != BASIC_FLAG
      && w[1..] == Encode(frames[k])[1..] + Stream(n1, frames[k + 1..])
      && Parse(n1, w[1..])
         == if FcsAgrees(frames[k]) then Got(frames[k], Stream(n1, frames[k + 1..]))
            else Drop([BASIC_FLAG] + Stream(n1, frames[k + 1..]))
  {
    hide Parse, FcsAgrees, Encode;
    assert frames[k..][1..] == frames[k + 1..];
    WholeFrame(n1, frames[k], Stream(n1, frames[k + 1..]));
    var x := Stream(n1, frames[k + 1..]);
    assert (Encode(frames[k]) + x)[1..] == Encode(frames[k])[1..] + x;
  }

  lemma StreamEnds(n1: Octet -> nat, frames: seq<Frame>, k: nat)
    requires AllFit(n1, frames) && k <= |frames|
    ensures k == |frames| <==> Stream(n1, frames[k..]) == []
  {
    if k < |frames| {
      hide Parse, Stream;
      NextFrame(n1, frames, k);
    }
  }

  lemma {:induction false} AgreeingSnoc(n1: Octet -> nat, frames: seq<Frame>, k: nat)
    requires AllFit(n1, frames) && k < |frames|
    ensures Agreeing(n1, frames[..k + 1]) == Agreeing(n1, frames[..k]) + if FcsAgrees(frames[k]) then [frames[k]] else []
    decreases k
  {
    hide FcsAgrees;
    if k == 0 {
      assert frames[..1] == [frames[0]] && frames[..0] == [] && frames[..1][1..] == [];
    } else {
      AgreeingSnoc(n1, frames[1..], k - 1);
      assert frames[..k + 1][1..] == frames[1..][..k] && frames[..k][1..] == frames[1..][..k - 1];
    }
  }

  /** The step is a decided attempt. */
  predicate Attempts(n1: Octet -> nat, e: Config, a: Action) {
    a.Step? && e.point.Counting? && !Parse(n1, e.unread).NeedMore?
  }

  /** The decided attempt takes a flag for an address. */
  predicate TakesFlag(n1: Octet -> nat, e: Config, a: Action) {
    Attempts(n1, e, a) && LatePending(e)
  }

  /** Where the next frame begins in the stream. */
  function Offset(n1: Octet -> nat, frames: seq<Frame>, k: nat): nat
    requires AllFit(n1, frames) && k <= |frames|
  {
    |Stream(n1, frames[..k])|
  }

  lemma OffsetLeft(n1: Octet -> nat, frames: seq<Frame>, k: nat)
    requires AllFit(n1, frames) && k <= |frames|
    ensures Offset(n1, frames, k) + |Stream(n1, frames[k..])| == |Stream(n1, frames)|
    ensures Stream(n1, frames)[Offset(n1, frames, k)..] == Stream(n1, frames[k..])
  {
    StreamAt(n1, frames, k);
    hide Stream;
  }

  lemma ParseDropLeaves(n1: Octet -> nat, c: seq<Octet>)
    requires Parse(n1, c).Drop?
    ensures Parse(n1, c).rest != []
  {}

  /** The rest of a stream: nothing, or a frame whose second octet is no flag. */
  predicate Starts(w: seq<Octet>) {
    w != [] ==> |w| > 1 && w[0] == BASIC_FLAG && w[1] != BASIC_FLAG
  }

  lemma StreamStarts(n1: Octet -> nat, frames: seq<Frame>, k: nat)
    requires AllFit(n1, frames) && k <= |frames|
    ensures Starts(Stream(n1, frames[k..])) && (k == |frames| <==> Stream(n1, frames[k..]) == [])
  {
    StreamEnds(n1, frames, k);
    if k < |frames| {
      hide Parse, Stream;
      NextFrame(n1, frames, k);
    }
  }

  /** The octet that is searched or skipped is a flag: the end flag before, or the start flag. */
  lemma AheadOfOne(flag: bool, behind: bool, left: seq<Octet>, w: seq<Octet>)
    requires Ahead(flag, behind, left, w) && Starts(w) && left != [] && (flag ==> left[0] == BASIC_FLAG)
    ensures left[0] == BASIC_FLAG && Ahead(true, behind, left[1..], w)
  {
    assert ([BASIC_FLAG] + w)[1..] == w;
  }

  lemma AheadOfFrame(behind: bool, left: seq<Octet>, w: seq<Octet>)
    requires Ahead(true, behind, left, w) && Starts(w) && left != []
    ensures if left[0] == BASIC_FLAG then behind && left == w else w != [] && left == w[1..]
  {}

  lemma LeftShrinks(n1: Octet -> nat, frames: seq<Frame>, e: Config, d: Config, n: nat)
    requires AllFit(n1, frames) && e.published <= Stream(n1, frames)
    requires d.published == e.published && n <= |e.unread| && d.unread == e.unread[n..]
    ensures Left(n1, frames, d) == Left(n1, frames, e)[n..]
    ensures e.unread != [] ==> Left(n1, frames, e) != [] && Left(n1, frames, e)[0] == e.unread[0]
  {
    hide Stream;
  }

  /** The attempt at what is unread of a frame and its successors is that at all of it. */
  lemma AttemptAtFrame(n1: Octet -> nat, f: Frame, x: seq<Octet>, u: seq<Octet>, coming: seq<Octet>)
    requires Fits(n1, f) && u + coming == Encode(f)[1..] + x && !Parse(n1, u).NeedMore?
    ensures var a := Parse(n1, u);
      && (a.Drop? <==> !FcsAgrees(f)) && (a.Got? ==> a.frame == f) && |coming| <= |x|
      && a.rest + coming == (if FcsAgrees(f) then [] else [BASIC_FLAG]) + x
  {
    hide Parse, FcsAgrees, Encode;
    WholeFrame(n1, f, x);
    ParseStable(n1, u, coming);
    if Parse(n1, u).Drop? {
      ParseDropLeaves(n1, u);
    }
    assert [] + x == x;
    assert |Parse(n1, u).rest + coming| == |Parse(n1, u).rest| + |coming|;
  }

  /** The attempt is that at frame `k`, which is all there, and leaves what is behind it. */
  predicate AttemptAt(n1: Octet -> nat, frames: seq<Frame>, e: Config, k: nat)
    requires AllFit(n1, frames) && e.published <= Stream(n1, frames)
  {
    && k < |frames| && |e.marks| == Offset(n1, frames, k) + 1 && |e.published| >= Offset(n1, frames, k + 1)
    && var a := Parse(n1, e.unread);
       && (a.Drop? <==> !FcsAgrees(frames[k])) && (a.Got? ==> a.frame == frames[k])
       && a.rest + Stream(n1, frames)[|e.published|..]
          == (if FcsAgrees(frames[k]) then [] else [BASIC_FLAG]) + Stream(n1, frames[k + 1..])
  }

  lemma FrameIsAhead(n1: Octet -> nat, frames: seq<Frame>, e: Config, k: nat)
    requires AllFit(n1, frames) && InStep(n1, frames, e, k) && Attempts(n1, e, Step) && !LatePending(e)
    ensures k < |frames| && Left(n1, frames, e) == Stream(n1, frames[k..])[1..]
  {
    hide Parse, Stream, FcsAgrees, Agreeing;
    NothingParses(n1);
    StreamStarts(n1, frames, k);
    LeftShrinks(n1, frames, e, e, 0);
    hide Left;
    AheadOfFrame(Behind(n1, frames, k), Left(n1, frames, e), Stream(n1, frames[k..]));
  }

  /** An attempt in step that takes no flag is that at the next frame, and that frame is all there. */
  lemma AttemptInStep(n1: Octet -> nat, frames: seq<Frame>, e: Config, k: nat)
    requires AllFit(n1, frames) && InStep(n1, frames, e, k) && Attempts(n1, e, Step) && !LatePending(e)
    ensures AttemptAt(n1, frames, e, k)
  {
    hide Parse, Stream, FcsAgrees, Agreeing, Encode;
    FrameIsAhead(n1, frames, e, k);
    hide Ahead, Behind;
    NextFrame(n1, frames, k);
    OffsetLeft(n1, frames, k);
    OffsetLeft(n1, frames, k + 1);
    AttemptAtFrame(n1, frames[k], Stream(n1, frames[k + 1..]), e.unread, Stream(n1, frames)[|e.published|..]);
  }

  /** What the attempt leaves, and what it delivers. */
  lemma FrameIsRead(n1: Octet -> nat, frames: seq<Frame>, e: Config, k: nat)
    requires AllFit(n1, frames) && InStep(n1, frames, e, k) && Attempts(n1, e, Step) && AttemptAt(n1, frames, e, k)
    ensures var d := LookAtRing(n1, e);
      && PointOk(d) && d.published == e.published && |d.marks| + |d.unread| == |d.published| && !d.flag
      && d.delivered == Agreeing(n1, frames[..k]) + (if FcsAgrees(frames[k]) then [frames[k]] else [])
      && d.unread + Stream(n1, frames)[|d.published|..]
         == (if FcsAgrees(frames[k]) then [] else [BASIC_FLAG]) + Stream(n1, frames[k + 1..])
  {
    hide Parse, Stream, FcsAgrees, Agreeing, LookAtRing, Left, Ahead, Offset;
    LookAttempts(n1, e);
    var a := Parse(n1, e.unread);
    assert Gained(a) == if FcsAgrees(frames[k]) then [frames[k]] else [];
  }

  lemma FrameInStep(n1: Octet -> nat, frames: seq<Frame>, e: Config, k: nat)
    requires AllFit(n1, frames) && InStep(n1, frames, e, k) && Attempts(n1, e, Step) && !LatePending(e)
    ensures InStep(n1, frames, LookAtRing(n1, e), k + 1)
  {
    AttemptInStep(n1, frames, e, k);
    FrameIsRead(n1, frames, e, k);
    AgreeingSnoc(n1, frames, k);
    hide Parse, Stream, FcsAgrees, Agreeing, LookAtRing, PointOk, Attempts, AttemptAt;
    assert InStep(n1, frames, LookAtRing(n1, e), k + 1);
  }

  lemma SkipInStep(n1: Octet -> nat, frames: seq<Frame>, e: Config, k: nat)
    requires AllFit(n1, frames) && InStep(n1, frames, e, k) && (e.point.Searching? || e.point.Skipping?)
    ensures InStep(n1, frames, LookAtRing(n1, e), k)
  {
    hide Parse, Stream, FcsAgrees, Agreeing, LookAtRing, Ahead, Left, Behind;
    LookSkips(n1, e);
    StreamStarts(n1, frames, k);
    var d := LookAtRing(n1, e);
    if d.unread == e.unread {
      LeftShrinks(n1, frames, e, d, 0);
      var left := Left(n1, frames, e);
      assert left[0..] == left;
    } else {
      LeftShrinks(n1, frames, e, d, 1);
      AheadOfOne(e.flag, Behind(n1, frames, k), Left(n1, frames, e), Stream(n1, frames[k..]));
    }
  }

  lemma PublishInStep(n1: Octet -> nat, frames: seq<Frame>, e: Config, p: seq<Octet>, k: nat)
    requires AllFit(n1, frames) && InStep(n1, frames, e, k)
    requires e.published + p <= Stream(n1, frames) && Enabled(e, Publish(p))
    ensures InStep(n1, frames, Apply(n1, e, Publish(p)), k)
  {
    hide Stream, FcsAgrees, Agreeing;
    var n, total := |e.published|, Stream(n1, frames);
    assert total[n..] == p + total[n + |p|..];
    JoinThree(e.unread, p, total[n + |p|..]);
  }

  /** Every other step keeps in step. A flag is taken for an address only right behind a rejected frame. */
  lemma StepInStep(n1: Octet -> nat, frames: seq<Frame>, e: Config, a: Action, k: nat)
    requires AllFit(n1, frames) && InStep(n1, frames, e, k) && Enabled(e, a)
    requires Apply(n1, e, a).published <= Stream(n1, frames)
    ensures !TakesFlag(n1, e, a) ==>
      InStep(n1, frames, Apply(n1, e, a), if Attempts(n1, e, a) then k + 1 else k)
    ensures TakesFlag(n1, e, a) ==> k < |frames| && Behind(n1, frames, k) && |e.marks| == Offset(n1, frames, k)
  {
    hide Parse, Stream, FcsAgrees, Agreeing, LookAtRing;
    match a {
      case Publish(p) => PublishInStep(n1, frames, e, p, k);
      case Begin =>
      case Step =>
        if !e.point.Counting? {
          SkipInStep(n1, frames, e, k);
        } else if !Attempts(n1, e, a) {
          LookAttempts(n1, e);
        } else if !LatePending(e) {
          FrameInStep(n1, frames, e, k);
        } else {
          FlagTakenBehind(n1, frames, e, k);
        }
    }
  }

  lemma FlagTakenBehind(n1: Octet -> nat, frames: seq<Frame>, e: Config, k: nat)
    requires AllFit(n1, frames) && InStep(n1, frames, e, k) && LatePending(e)
    ensures k < |frames| && Behind(n1, frames, k) && |e.marks| == Offset(n1, frames, k)
    ensures Left(n1, frames, e) == Stream(n1, frames[k..])
  {
    hide Parse, Stream, FcsAgrees, Agreeing;
    StreamStarts(n1, frames, k);
    LeftShrinks(n1, frames, e, e, 0);
    AheadOfFrame(Behind(n1, frames, k), Left(n1, frames, e), Stream(n1, frames[k..]));
    OffsetLeft(n1, frames, k);
  }

  // ----- As long as no flag is taken for an address -----

  lemma InitInStep(n1: Octet -> nat, frames: seq<Frame>, e: Config)
    requires Init(e) && AllFit(n1, frames)
    ensures InStep(n1, frames, e, 0)
  {
    hide Parse, Stream;
    assert frames[..0] == [] && frames[0..] == frames;
    assert [] + Stream(n1, frames)[0..] == Stream(n1, frames);
  }

  /** A flag taken for an address is marked. */
  lemma TakenIsMarked(n1: Octet -> nat, e: Config)
    requires TakesFlag(n1, e, Step)
    ensures true in LookAtRing(n1, e).marks
  {
    LookAttempts(n1, e);
    hide Parse, LookAtRing;
    assert LookAtRing(n1, e).marks[|e.marks|];
  }

  lemma NoMarkBefore(n1: Octet -> nat, e0: Config, trace: seq<Action>, t: nat, u: nat)
    requires Runs(n1, e0, trace) && t <= u <= |trace| && true !in StateAt(n1, e0, trace, u).marks
    ensures true !in StateAt(n1, e0, trace, t).marks
  {
    hide Apply, Enabled, Runs, StateAt;
    RunRecords(n1, e0, trace, t, u);
  }

  lemma PublishedAt(n1: Octet -> nat, e0: Config, trace: seq<Action>, t: nat)
    requires Runs(n1, e0, trace) && t <= |trace|
    ensures Extends(StateAt(n1, e0, trace, t), Run(n1, e0, trace))
  {
    hide Apply, Enabled, Runs, StateAt, Run, Extends;
    StateAtEnd(n1, e0, trace);
    RunRecords(n1, e0, trace, t, |trace|);
  }

  /** How many attempts have been decided in the first `t` steps. */
  function Decisions(n1: Octet -> nat, e0: Config, trace: seq<Action>, t: nat): nat
    requires Runs(n1, e0, trace) && t <= |trace|
  {
    if t == 0 then 0
    else Decisions(n1, e0, trace, t - 1)
         + if Attempts(n1, StateAt(n1, e0, trace, t - 1), trace[t - 1]) then 1 else 0
  }

  lemma {:induction false} RunInStep(n1: Octet -> nat, frames: seq<Frame>, e0: Config, trace: seq<Action>, t: nat)
    requires Init(e0) && Runs(n1, e0, trace) && AllFit(n1, frames) && t <= |trace|
    requires Run(n1, e0, trace).published <= Stream(n1, frames) && true !in StateAt(n1, e0, trace, t).marks
    ensures InStep(n1, frames, StateAt(n1, e0, trace, t), Decisions(n1, e0, trace, t))
    decreases t
  {
    hide Apply, Enabled, InStep, Stream, Run, Runs, Attempts, Fits, FcsAgrees;
    if t == 0 {
      InitInStep(n1, frames, e0);
    } else {
      var e, a := StateAt(n1, e0, trace, t - 1), trace[t - 1];
      NoMarkBefore(n1, e0, trace, t - 1, t);
      RunInStep(n1, frames, e0, trace, t - 1);
      StateAtNext(n1, e0, trace, t - 1);
      PublishedAt(n1, e0, trace, t);
      hide StateAt;
      StepInStep(n1, frames, e, a, Decisions(n1, e0, trace, t - 1));
      if TakesFlag(n1, e, a) {
        NoFlagTaken(n1, e, a);
      }
    }
  }

  lemma NoFlagTaken(n1: Octet -> nat, e: Config, a: Action)
    requires TakesFlag(n1, e, a) && Enabled(e, a)
    ensures true in Apply(n1, e, a).marks
  {
    hide Parse, LookAtRing;
    TakenIsMarked(n1, e);
  }

  /**
   In every interleaving over a stream of frames, accepted or not, in which no flag is taken for an address: the
   frames delivered are those that agree, of the ones read, in order; and once all is read they are all of these.
   */
  lemma AgreeingArriveInEveryInterleaving(n1: Octet -> nat, e0: Config, trace: seq<Action>, frames: seq<Frame>)
    requires Init(e0) && Runs(n1, e0, trace) && AllFit(n1, frames)
    requires Run(n1, e0, trace).published <= Stream(n1, frames) && true !in Run(n1, e0, trace).marks
    ensures var e, k := Run(n1, e0, trace), Decisions(n1, e0, trace, |trace|);
      && k <= |frames| && e.delivered == Agreeing(n1, frames[..k])
      && (e.published == Stream(n1, frames) && e.unread == [] ==> k == |frames| && e.delivered == Agreeing(n1, frames))
  {
    hide Apply, Enabled, Stream, Run, Runs, Agreeing, FcsAgrees, StateAt, Decisions, Fits;
    StateAtEnd(n1, e0, trace);
    RunInStep(n1, frames, e0, trace, |trace|);
    AllIsRead(n1, frames, Run(n1, e0, trace), Decisions(n1, e0, trace, |trace|));
  }

  lemma AllIsRead(n1: Octet -> nat, frames: seq<Frame>, e: Config, k: nat)
    requires AllFit(n1, frames) && InStep(n1, frames, e, k)
    ensures e.published == Stream(n1, frames) && e.unread == [] ==> k == |frames| && frames[..k] == frames
  {
    hide Stream, Agreeing, FcsAgrees;
    StreamStarts(n1, frames, k);
    if e.published == Stream(n1, frames) && e.unread == [] {
      assert Left(n1, frames, e) == [];
    }
  }

  // ----- The assertion -----

  /** Step `t` is the attempt at frame `i`, behind its start flag, with all of it published. */
  predicate Examines(n1: Octet -> nat, frames: seq<Frame>, e0: Config, trace: seq<Action>, t: nat, i: nat)
    requires AllFit(n1, frames) && Runs(n1, e0, trace)
  {
    && t < |trace| && i < |frames| && trace[t].Step?
    && var e := StateAt(n1, e0, trace, t);
       e.point.Counting? && |e.marks| == Offset(n1, frames, i) + 1 && |e.published| >= Offset(n1, frames, i + 1)
  }

  /** No call begins between the two steps. */
  predicate OneCall(trace: seq<Action>, t: nat, u: nat) {
    forall v :: t < v < u && v < |trace| ==> trace[v] != Begin
  }

  /** In one call the three frames from the `i`th on are examined, and all have to be rejected. */
  predicate RejectsThree(n1: Octet -> nat, frames: seq<Frame>, e0: Config, trace: seq<Action>,
                         i: nat, t: nat, u: nat, v: nat)
    requires AllFit(n1, frames) && Runs(n1, e0, trace)
  {
    && t < u < v && OneCall(trace, t, v) && Rejected(n1, frames, i)
    && Examines(n1, frames, e0, trace, t, i) && Examines(n1, frames, e0, trace, u, i + 1)
    && Examines(n1, frames, e0, trace, v, i + 2)
  }

  ghost predicate ThreeInOneCall(n1: Octet -> nat, frames: seq<Frame>, e0: Config, trace: seq<Action>)
    requires AllFit(n1, frames) && Runs(n1, e0, trace)
  {
    exists i: nat, t: nat, u: nat, v: nat :: RejectsThree(n1, frames, e0, trace, i, t, u, v)
  }

  /** Step `t` is an attempt that ends in a drop. */
  predicate Drops(n1: Octet -> nat, e0: Config, trace: seq<Action>, t: nat)
    requires Runs(n1, e0, trace)
  {
    && t < |trace|
    && var e := StateAt(n1, e0, trace, t);
       Attempts(n1, e, trace[t]) && Parse(n1, e.unread).Drop?
  }

  /** In one call three attempts in a row are dropped. */
  predicate DropsThree(n1: Octet -> nat, e0: Config, trace: seq<Action>, t: nat, u: nat, v: nat)
    requires Runs(n1, e0, trace)
  {
    && t < u < v && OneCall(trace, t, v)
    && Drops(n1, e0, trace, t) && Drops(n1, e0, trace, u) && Drops(n1, e0, trace, v)
    && Decisions(n1, e0, trace, u) == Decisions(n1, e0, trace, t) + 1
    && Decisions(n1, e0, trace, v) == Decisions(n1, e0, trace, t) + 2
  }

  ghost predicate ThreeDropped(n1: Octet -> nat, e0: Config, trace: seq<Action>)
    requires Runs(n1, e0, trace)
  {
    exists t: nat, u: nat, v: nat :: DropsThree(n1, e0, trace, t, u, v)
  }

  /** The assertion ends the calls, and only the third drop leads to it. */
  predicate DepthOk(e: Config) {
    && (e.asserted ==> e.point.Between?)
    && (e.asserted || !e.point.Between? ==> (e.asserted <==> e.depth >= MAX_RESYNC_GET_FRAME_COUNT))
  }

  lemma {:induction false} RunDepthOk(n1: Octet -> nat, e0: Config, trace: seq<Action>, t: nat)
    requires Init(e0) && Runs(n1, e0, trace) && t <= |trace|
    ensures DepthOk(StateAt(n1, e0, trace, t)) && PointOk(StateAt(n1, e0, trace, t))
    decreases t
  {
    hide Parse, Runs;
    if t > 0 {
      RunDepthOk(n1, e0, trace, t - 1);
      StateAtNext(n1, e0, trace, t - 1);
      hide StateAt;
      StepDepthOk(n1, StateAt(n1, e0, trace, t - 1), trace[t - 1]);
    }
  }

  lemma StepDepthOk(n1: Octet -> nat, e: Config, a: Action)
    requires DepthOk(e) && PointOk(e) && Enabled(e, a)
    ensures DepthOk(Apply(n1, e, a)) && PointOk(Apply(n1, e, a))
    ensures a != Begin ==> Apply(n1, e, a).depth >= e.depth
    ensures Attempts(n1, e, a) && Parse(n1, e.unread).Drop? ==> Apply(n1, e, a).depth == e.depth + 1
    ensures a.Step? && !(Attempts(n1, e, a) && Parse(n1, e.unread).Drop?) ==> Apply(n1, e, a).depth == e.depth
    ensures Attempts(n1, e, a) && Parse(n1, e.unread).Got? ==> Apply(n1, e, a).point.Between?
  {
    hide Parse;
    ParseShrinks(n1, e.unread);
  }

  /** Within a call the drops are counted, up to the assertion. */
  lemma {:induction false} DepthGrows(n1: Octet -> nat, e0: Config, trace: seq<Action>, t: nat, u: nat)
    requires Init(e0) && Runs(n1, e0, trace) && t <= u <= |trace| && forall v :: t <= v < u ==> trace[v] != Begin
    ensures StateAt(n1, e0, trace, u).depth >= StateAt(n1, e0, trace, t).depth
    decreases u
  {
    hide Parse, StateAt, Apply, Enabled, Runs;
    if t < u {
      DepthGrows(n1, e0, trace, t, u - 1);
      RunDepthOk(n1, e0, trace, u - 1);
      StateAtNext(n1, e0, trace, u - 1);
      StepDepthOk(n1, StateAt(n1, e0, trace, u - 1), trace[u - 1]);
    }
  }

  /** Wherever the decoder comes from: the attempt behind the start flag of a rejected frame is a drop. */
  lemma RejectedIsDropped(n1: Octet -> nat, frames: seq<Frame>, e0: Config, trace: seq<Action>, t: nat, i: nat)
    requires Init(e0) && Runs(n1, e0, trace) && AllFit(n1, frames)
    requires Run(n1, e0, trace).published <= Stream(n1, frames)
    requires Examines(n1, frames, e0, trace, t, i) && !FcsAgrees(frames[i])
    ensures Drops(n1, e0, trace, t)
  {
    hide Parse, StateAt, Apply, Enabled, Runs, Run, Stream, FcsAgrees, Accounted, Fits;
    PublishedAt(n1, e0, trace, t);
    PrefixAccount(n1, e0, trace, t);
    UnreadOfFrame(n1, frames, StateAt(n1, e0, trace, t), i);
  }

  lemma {:induction false} PrefixAccount(n1: Octet -> nat, e0: Config, trace: seq<Action>, t: nat)
    requires Init(e0) && Runs(n1, e0, trace) && t <= |trace|
    ensures MarksOk(StateAt(n1, e0, trace, t))
    decreases t
  {
    hide Parse, StateAt, Apply, Enabled, Runs, MarksOk, PointOk;
    if t == 0 {
      assert StateAt(n1, e0, trace, 0) == e0 by { StateAtStart(n1, e0, trace); }
      InitAccount(n1, e0);
    } else {
      PrefixAccount(n1, e0, trace, t - 1);
      RunDepthOk(n1, e0, trace, t - 1);
      StateAtNext(n1, e0, trace, t - 1);
      StepKeepsMarks(n1, StateAt(n1, e0, trace, t - 1), trace[t - 1]);
    }
  }

  lemma StateAtStart(n1: Octet -> nat, e0: Config, trace: seq<Action>)
    requires Runs(n1, e0, trace)
    ensures StateAt(n1, e0, trace, 0) == e0
  {}

  /** Behind its start flag all of frame `i` is unread. */
  lemma UnreadOfFrame(n1: Octet -> nat, frames: seq<Frame>, e: Config, i: nat)
    requires AllFit(n1, frames) && i < |frames| && e.published <= Stream(n1, frames) && MarksOk(e)
    requires |e.marks| == Offset(n1, frames, i) + 1 && |e.published| >= Offset(n1, frames, i + 1)
    ensures var a := Parse(n1, e.unread); if FcsAgrees(frames[i]) then a.Got? else a.Drop?
  {
    hide Parse, Stream, FcsAgrees, Encode;
    var total, m, n := Stream(n1, frames), Offset(n1, frames, i), |Encode(frames[i])|;
    NextFrame(n1, frames, i);
    OffsetLeft(n1, frames, i);
    OffsetLeft(n1, frames, i + 1);
    var x := e.published[m + n..];
    assert total[m..][..n] == Encode(frames[i]);
    assert e.unread == e.published[m + 1..];
    assert e.published[m + 1..] == total[m..][1..n] + x;
    assert Encode(frames[i])[1..] == total[m..][1..n];
    WholeFrame(n1, frames[i], x);
  }

  lemma DropIsStep(n1: Octet -> nat, e0: Config, trace: seq<Action>, t: nat)
    requires Runs(n1, e0, trace) && Drops(n1, e0, trace, t)
    ensures t < |trace| && trace[t].Step?
  {
    hide Runs, StateAt, Parse;
  }

  /** A drop is counted. */
  lemma DropCounts(n1: Octet -> nat, e0: Config, trace: seq<Action>, t: nat)
    requires Init(e0) && Runs(n1, e0, trace) && Drops(n1, e0, trace, t)
    ensures StateAt(n1, e0, trace, t + 1).depth == StateAt(n1, e0, trace, t).depth + 1
  {
    hide Parse, StateAt, Apply, Enabled, Runs;
    RunDepthOk(n1, e0, trace, t);
    StateAtNext(n1, e0, trace, t);
    StepDepthOk(n1, StateAt(n1, e0, trace, t), trace[t]);
  }

  lemma ThreeDropsAssert(n1: Octet -> nat, e0: Config, trace: seq<Action>, t: nat, u: nat, v: nat)
    requires Init(e0) && Runs(n1, e0, trace) && t < u < v && forall w :: t < w < v && w < |trace| ==> trace[w] != Begin
    requires Drops(n1, e0, trace, t) && Drops(n1, e0, trace, u) && Drops(n1, e0, trace, v)
    ensures Run(n1, e0, trace).asserted
  {
    hide StateAt, Run, Runs, Apply, Enabled, Parse, Init, DepthOk, Drops;
    DropIsStep(n1, e0, trace, v);
    DropCounts(n1, e0, trace, t);
    DropCounts(n1, e0, trace, u);
    DropCounts(n1, e0, trace, v);
    DepthGrows(n1, e0, trace, t + 1, u);
    DepthGrows(n1, e0, trace, u + 1, v);
    DroppedInCall(n1, e0, trace, v);
    AssertedStays(n1, e0, trace, v + 1);
  }

  /** Whatever becomes of the flags, three rejected frames that one call examines fire the assertion. */
  lemma RejectsThreeAsserts(n1: Octet -> nat, frames: seq<Frame>, e0: Config, trace: seq<Action>,
                            i: nat, t: nat, u: nat, v: nat)
    requires Init(e0) && Runs(n1, e0, trace) && AllFit(n1, frames)
    requires Run(n1, e0, trace).published <= Stream(n1, frames) && RejectsThree(n1, frames, e0, trace, i, t, u, v)
    ensures Run(n1, e0, trace).asserted
  {
    hide Stream, FcsAgrees, StateAt, Run, Runs, Apply, Enabled, Examines, Parse, Fits, Init, Rejected, OneCall, RejectsThree,
        Extends, Drops;
    MomentsOf(n1, frames, e0, trace, i, t, u, v);
    RejectedIsDropped(n1, frames, e0, trace, t, i);
    RejectedIsDropped(n1, frames, e0, trace, u, i + 1);
    RejectedIsDropped(n1, frames, e0, trace, v, i + 2);
    ThreeDropsAssert(n1, e0, trace, t, u, v);
  }

  lemma MomentsOf(n1: Octet -> nat, frames: seq<Frame>, e0: Config, trace: seq<Action>, i: nat, t: nat, u: nat, v: nat)
    requires Runs(n1, e0, trace) && AllFit(n1, frames) && RejectsThree(n1, frames, e0, trace, i, t, u, v)
    ensures t < u < v < |trace| && trace[v].Step? && i + 2 < |frames|
    ensures !FcsAgrees(frames[i]) && !FcsAgrees(frames[i + 1]) && !FcsAgrees(frames[i + 2])
    ensures Examines(n1, frames, e0, trace, t, i) && Examines(n1, frames, e0, trace, u, i + 1)
    ensures Examines(n1, frames, e0, trace, v, i + 2)
    ensures forall w :: t < w < v ==> trace[w] != Begin
  {
    hide FcsAgrees, StateAt, Fits, Stream;
  }

  lemma AssertedStays(n1: Octet -> nat, e0: Config, trace: seq<Action>, t: nat)
    requires Runs(n1, e0, trace) && t <= |trace| && StateAt(n1, e0, trace, t).asserted
    ensures Run(n1, e0, trace).asserted
  {
    hide StateAt, Runs, Run;
    PublishedAt(n1, e0, trace, t);
  }

  lemma DroppedInCall(n1: Octet -> nat, e0: Config, trace: seq<Action>, v: nat)
    requires Init(e0) && Runs(n1, e0, trace) && v < |trace| && trace[v].Step?
    requires StateAt(n1, e0, trace, v + 1).depth == StateAt(n1, e0, trace, v).depth + 1
    ensures StateAt(n1, e0, trace, v).depth >= 2 ==> StateAt(n1, e0, trace, v + 1).asserted
  {
    hide StateAt, Runs, Parse;
    StateAtNext(n1, e0, trace, v);
    RunDepthOk(n1, e0, trace, v);
  }

  /** The last attempts in the first `t` steps were drops of one call, at the moments `ts`. */
  predicate Dropped(n1: Octet -> nat, e0: Config, trace: seq<Action>, t: nat, ts: seq<nat>)
    requires Runs(n1, e0, trace) && t <= |trace|
    decreases |ts|
  {
    ts == [] ||
    (var u := ts[|ts| - 1];
     && u < t && Drops(n1, e0, trace, u) && OneCall(trace, u, t)
     && Decisions(n1, e0, trace, t) == Decisions(n1, e0, trace, u) + 1
     && Dropped(n1, e0, trace, u, ts[..|ts| - 1]))
  }

  /** The moments are those of all the drops of the call. */
  predicate DropsSoFar(n1: Octet -> nat, e0: Config, trace: seq<Action>, t: nat, ts: seq<nat>)
    requires Runs(n1, e0, trace) && t <= |trace|
  {
    var e := StateAt(n1, e0, trace, t);
    e.asserted || !e.point.Between? ==> |ts| == e.depth && Dropped(n1, e0, trace, t, ts)
  }

  lemma ExaminesNext(n1: Octet -> nat, frames: seq<Frame>, e0: Config, trace: seq<Action>, t: nat)
    requires Init(e0) && Runs(n1, e0, trace) && AllFit(n1, frames) && t < |trace|
    requires Run(n1, e0, trace).published <= Stream(n1, frames) && true !in Run(n1, e0, trace).marks
    requires Attempts(n1, StateAt(n1, e0, trace, t), trace[t])
    ensures var k := Decisions(n1, e0, trace, t);
      Examines(n1, frames, e0, trace, t, k) && (Parse(n1, StateAt(n1, e0, trace, t).unread).Drop? <==> !FcsAgrees(frames[k]))
  {
    hide Apply, Enabled, Stream, Run, Runs, Agreeing, FcsAgrees, StateAt, Decisions, Fits, Parse, InStep;
    var e, k := StateAt(n1, e0, trace, t), Decisions(n1, e0, trace, t);
    StateAtEnd(n1, e0, trace);
    NoMarkBefore(n1, e0, trace, t, |trace|);
    NoMarkBefore(n1, e0, trace, t + 1, |trace|);
    RunInStep(n1, frames, e0, trace, t);
    StateAtNext(n1, e0, trace, t);
    if LatePending(e) {
      NoFlagTaken(n1, e, trace[t]);
    }
    AttemptInStep(n1, frames, e, k);
  }

  lemma {:induction false} DropHistory(n1: Octet -> nat, e0: Config, trace: seq<Action>, t: nat) returns (ts: seq<nat>)
    requires Init(e0) && Runs(n1, e0, trace) && t <= |trace|
    ensures DropsSoFar(n1, e0, trace, t, ts)
    decreases t
  {
    hide Apply, Enabled, Run, Runs, Parse, DropsSoFar;
    if t == 0 {
      ts := [];
      NothingDropped(n1, e0, trace);
    } else {
      var before := DropHistory(n1, e0, trace, t - 1);
      hide StateAt, Decisions;
      if Attempts(n1, StateAt(n1, e0, trace, t - 1), trace[t - 1]) {
        ts := before + [t - 1];
        DropsOneMore(n1, e0, trace, t - 1, before);
      } else {
        ts := if trace[t - 1] == Begin then [] else before;
        DropsAsBefore(n1, e0, trace, t - 1, before);
      }
    }
  }

  lemma NothingDropped(n1: Octet -> nat, e0: Config, trace: seq<Action>)
    requires Init(e0) && Runs(n1, e0, trace)
    ensures DropsSoFar(n1, e0, trace, 0, [])
  {}

  lemma DroppedMore(n1: Octet -> nat, e0: Config, trace: seq<Action>, t: nat, ts: seq<nat>)
    requires Runs(n1, e0, trace) && t < |trace|
    requires Dropped(n1, e0, trace, t, ts) && Drops(n1, e0, trace, t)
    ensures Dropped(n1, e0, trace, t + 1, ts + [t])
  {
    assert Decisions(n1, e0, trace, t + 1) == Decisions(n1, e0, trace, t) + 1;
    hide Runs, Drops, Decisions;
    assert (ts + [t])[..|ts|] == ts;
  }

  lemma DroppedStill(n1: Octet -> nat, e0: Config, trace: seq<Action>, t: nat, ts: seq<nat>)
    requires Runs(n1, e0, trace) && t < |trace| && !Attempts(n1, StateAt(n1, e0, trace, t), trace[t])
    requires trace[t] != Begin ==> Dropped(n1, e0, trace, t, ts)
    ensures Dropped(n1, e0, trace, t + 1, if trace[t] == Begin then [] else ts)
  {
    hide Runs, Drops, StateAt, Attempts;
    SameDecisions(n1, e0, trace, t);
    hide Decisions;
    if trace[t] != Begin && ts != [] {
      assert OneCall(trace, ts[|ts| - 1], t + 1);
      hide OneCall;
    }
  }

  lemma SameDecisions(n1: Octet -> nat, e0: Config, trace: seq<Action>, t: nat)
    requires Runs(n1, e0, trace) && t < |trace| && !Attempts(n1, StateAt(n1, e0, trace, t), trace[t])
    ensures Decisions(n1, e0, trace, t + 1) == Decisions(n1, e0, trace, t)
  {
    hide Runs, StateAt, Attempts;
  }

  lemma DropsOneMore(n1: Octet -> nat, e0: Config, trace: seq<Action>, t: nat, before: seq<nat>)
    requires Init(e0) && Runs(n1, e0, trace) && t < |trace|
    requires DropsSoFar(n1, e0, trace, t, before) && Attempts(n1, StateAt(n1, e0, trace, t), trace[t])
    ensures DropsSoFar(n1, e0, trace, t + 1, before + [t])
  {
    hide Apply, Enabled, Runs, Parse, StateAt, Decisions, Dropped, PointOk;
    var e := StateAt(n1, e0, trace, t);
    RunDepthOk(n1, e0, trace, t);
    StateAtNext(n1, e0, trace, t);
    StepAttempts(n1, e, trace[t]);
    hide DepthOk;
    if Parse(n1, e.unread).Drop? {
      assert Drops(n1, e0, trace, t);
      hide Attempts, Drops;
      DroppedMore(n1, e0, trace, t, before);
    }
  }

  lemma DropsAsBefore(n1: Octet -> nat, e0: Config, trace: seq<Action>, t: nat, before: seq<nat>)
    requires Init(e0) && Runs(n1, e0, trace) && t < |trace|
    requires DropsSoFar(n1, e0, trace, t, before) && !Attempts(n1, StateAt(n1, e0, trace, t), trace[t])
    ensures DropsSoFar(n1, e0, trace, t + 1, if trace[t] == Begin then [] else before)
  {
    hide Apply, Enabled, Runs, Parse, StateAt, Decisions, Dropped, Attempts;
    RunDepthOk(n1, e0, trace, t);
    StateAtNext(n1, e0, trace, t);
    StepAsserts(n1, StateAt(n1, e0, trace, t), trace[t]);
    var d := StateAt(n1, e0, trace, t + 1);
    if d.asserted || !d.point.Between? {
      DroppedStill(n1, e0, trace, t, before);
    }
  }

  lemma StepAttempts(n1: Octet -> nat, e: Config, a: Action)
    requires Enabled(e, a) && DepthOk(e) && Attempts(n1, e, a)
    ensures var d := Apply(n1, e, a);
      && a != Begin && !e.point.Between?
      && if Parse(n1, e.unread).Drop? then d.depth == e.depth + 1 else d.point.Between? && !d.asserted
  {
    hide Parse;
    ParseShrinks(n1, e.unread);
  }

  lemma StepAsserts(n1: Octet -> nat, e: Config, a: Action)
    requires Enabled(e, a) && PointOk(e) && DepthOk(e) && !Attempts(n1, e, a)
    ensures var d := Apply(n1, e, a);
      && d.asserted == e.asserted && (a == Begin ==> d.depth == 0) && (a != Begin ==> d.depth == e.depth)
      && (d.asserted || !d.point.Between? ==> a == Begin || e.asserted || !e.point.Between?)
  {
    hide Parse;
    ParseShrinks(n1, e.unread);
  }

  /**
   The assertion, in every interleaving over octets whatever: it fires if and only if one call drops three attempts
   in a row, late flags or not.
   */
  lemma AssertsIffThreeDropped(n1: Octet -> nat, e0: Config, trace: seq<Action>)
    requires Init(e0) && Runs(n1, e0, trace)
    ensures Run(n1, e0, trace).asserted <==> ThreeDropped(n1, e0, trace)
  {
    hide Apply, Enabled, Run, Runs, Parse, StateAt, Decisions, Drops, Dropped;
    if Run(n1, e0, trace).asserted {
      var ts := DropHistory(n1, e0, trace, |trace|);
      StateAtEnd(n1, e0, trace);
      RunDepthOk(n1, e0, trace, |trace|);
      DepthIsThree(n1, e0, trace, |trace|);
      ThreeMoments(n1, e0, trace, ts);
    }
    if t: nat, u: nat, v: nat :| DropsThree(n1, e0, trace, t, u, v) {
      ThreeDropsAssert(n1, e0, trace, t, u, v);
    }
  }

  /**
   Over a stream of frames, accepted or not, of which no flag is taken for an address: it fires if and only if one
   call examines three frames in a row that are to be rejected, each at a moment when all of it has been published.
   */
  lemma AssertsInEveryInterleavingIff(n1: Octet -> nat, e0: Config, trace: seq<Action>, frames: seq<Frame>)
    requires Init(e0) && Runs(n1, e0, trace) && AllFit(n1, frames)
    requires Run(n1, e0, trace).published <= Stream(n1, frames) && true !in Run(n1, e0, trace).marks
    ensures Run(n1, e0, trace).asserted <==> ThreeInOneCall(n1, frames, e0, trace)
  {
    hide Apply, Enabled, Stream, Run, Runs, FcsAgrees, Fits, Parse, StateAt, Decisions, Examines, RejectsThree, DropsThree;
    AssertsIffThreeDropped(n1, e0, trace);
    if t: nat, u: nat, v: nat :| DropsThree(n1, e0, trace, t, u, v) {
      ThreeDropsReject(n1, frames, e0, trace, t, u, v);
    }
    if i: nat, t: nat, u: nat, v: nat :| RejectsThree(n1, frames, e0, trace, i, t, u, v) {
      RejectsThreeAsserts(n1, frames, e0, trace, i, t, u, v);
    }
  }

  lemma {:induction false} DepthIsThree(n1: Octet -> nat, e0: Config, trace: seq<Action>, t: nat)
    requires Init(e0) && Runs(n1, e0, trace) && t <= |trace|
    ensures StateAt(n1, e0, trace, t).depth <= MAX_RESYNC_GET_FRAME_COUNT
    decreases t
  {
    hide Parse, Runs;
    if t > 0 {
      DepthIsThree(n1, e0, trace, t - 1);
      RunDepthOk(n1, e0, trace, t - 1);
      StateAtNext(n1, e0, trace, t - 1);
    }
  }

  lemma ThreeMoments(n1: Octet -> nat, e0: Config, trace: seq<Action>, ts: seq<nat>)
    requires Runs(n1, e0, trace) && |ts| == 3 && Dropped(n1, e0, trace, |trace|, ts)
    ensures ThreeDropped(n1, e0, trace)
  {
    hide Runs, StateAt, Decisions, Drops;
    assert ts[..2] == [ts[0], ts[1]] && ts[..2][..1] == [ts[0]];
    var v, u, t := ts[2], ts[1], ts[0];
    assert Drops(n1, e0, trace, v) && OneCall(trace, v, |trace|) && Dropped(n1, e0, trace, v, ts[..2]);
    assert Drops(n1, e0, trace, u) && OneCall(trace, u, v) && Dropped(n1, e0, trace, u, ts[..2][..1]);
    assert Drops(n1, e0, trace, t) && OneCall(trace, t, u);
    DropIsStep(n1, e0, trace, u);
    assert DropsThree(n1, e0, trace, t, u, v);
  }

  /** Where no flag is taken for an address, attempts in a row are those at frames in a row. */
  lemma ThreeDropsReject(n1: Octet -> nat, frames: seq<Frame>, e0: Config, trace: seq<Action>, t: nat, u: nat, v: nat)
    requires Init(e0) && Runs(n1, e0, trace) && AllFit(n1, frames) && DropsThree(n1, e0, trace, t, u, v)
    requires Run(n1, e0, trace).published <= Stream(n1, frames) && true !in Run(n1, e0, trace).marks
    ensures ThreeInOneCall(n1, frames, e0, trace)
  {
    hide Apply, Enabled, Stream, Run, Runs, FcsAgrees, Fits, Parse, StateAt, Decisions, Attempts;
    ExaminesNext(n1, frames, e0, trace, t);
    ExaminesNext(n1, frames, e0, trace, u);
    ExaminesNext(n1, frames, e0, trace, v);
    assert RejectsThree(n1, frames, e0, trace, Decisions(n1, e0, trace, t), t, u, v);
  }

  // ----- The first flag that is taken for an address -----

  lemma {:induction false} FirstTaken(n1: Octet -> nat, e0: Config, trace: seq<Action>, t: nat) returns (s: nat)
    requires Init(e0) && Runs(n1, e0, trace) && t <= |trace| && true in StateAt(n1, e0, trace, t).marks
    ensures s < t && true !in StateAt(n1, e0, trace, s).marks
    ensures TakesFlag(n1, StateAt(n1, e0, trace, s), trace[s])
    decreases t
  {
    hide Apply, Enabled, Runs, TakesFlag, StateAt;
    if t == 0 {
      StateAtStart(n1, e0, trace);
    } else if true in StateAt(n1, e0, trace, t - 1).marks {
      s := FirstTaken(n1, e0, trace, t - 1);
    } else {
      s := t - 1;
      StateAtNext(n1, e0, trace, t - 1);
      OnlyTakenAreMarked(n1, StateAt(n1, e0, trace, t - 1), trace[t - 1]);
    }
  }

  lemma OnlyTakenAreMarked(n1: Octet -> nat, e: Config, a: Action)
    requires Enabled(e, a) && true in Apply(n1, e, a).marks && true !in e.marks
    ensures TakesFlag(n1, e, a)
  {
    hide Parse, LookAtRing;
    if a.Step? {
      if e.point.Counting? {
        LookAttempts(n1, e);
      } else {
        LookMarks(n1, e);
      }
    }
  }

  lemma LookMarks(n1: Octet -> nat, e: Config)
    requires !e.point.Between? && !e.point.Counting?
    ensures LookAtRing(n1, e).marks == e.marks || LookAtRing(n1, e).marks == e.marks + [false]
  {}

  /**
   If a flag is taken for an address at all, the first is the start flag of a frame whose predecessor is rejected, and
   up to there the frames that agree have been delivered. So nothing is lost before it.
   */
  lemma FirstLossIsBehindRejected(n1: Octet -> nat, e0: Config, trace: seq<Action>, frames: seq<Frame>) returns (k: nat)
    requires Init(e0) && Runs(n1, e0, trace) && AllFit(n1, frames)
    requires Run(n1, e0, trace).published <= Stream(n1, frames) && true in Run(n1, e0, trace).marks
    ensures var e := Run(n1, e0, trace);
      && 0 < k < |frames| && !FcsAgrees(frames[k - 1]) && Agreeing(n1, frames[..k]) <= e.delivered
      && Offset(n1, frames, k) < |e.marks| && e.marks[Offset(n1, frames, k)]
      && true !in e.marks[..Offset(n1, frames, k)]
  {
    hide Apply, Enabled, Stream, Run, Runs, Agreeing, FcsAgrees, StateAt, Decisions, Fits, Parse, LookAtRing;
    StateAtEnd(n1, e0, trace);
    var s := FirstTaken(n1, e0, trace, |trace|);
    var e := StateAt(n1, e0, trace, s);
    RunInStep(n1, frames, e0, trace, s);
    k := Decisions(n1, e0, trace, s);
    FlagTakenBehind(n1, frames, e, k);
    StateAtNext(n1, e0, trace, s);
    PublishedAt(n1, e0, trace, s);
    PublishedAt(n1, e0, trace, s + 1);
    LookAttempts(n1, e);
    MarkTaken(n1, e, trace[s]);
    assert Run(n1, e0, trace).marks[..|e.marks|] == e.marks;
  }

  lemma MarkTaken(n1: Octet -> nat, e: Config, a: Action)
    requires Enabled(e, a) && TakesFlag(n1, e, a)
    ensures |Apply(n1, e, a).marks| > |e.marks| && Apply(n1, e, a).marks[|e.marks|]
  {
    hide Parse, LookAtRing;
    LookAttempts(n1, e);
  }

  // ----- Frames that agree -----

  /** In step behind a frame that agrees, no flag comes into the window. */
  lemma NoLatePublication(n1: Octet -> nat, frames: seq<Frame>, e: Config, k: nat, p: seq<Octet>)
    requires AllFit(n1, frames) && InStep(n1, frames, e, k) && !Behind(n1, frames, k)
    requires e.published + p <= Stream(n1, frames) && Window(e) && p != []
    ensures p[0] != BASIC_FLAG
  {
    hide Stream, Agreeing, FcsAgrees;
    StreamStarts(n1, frames, k);
    assert Left(n1, frames, e)[0] == p[0];
  }

  lemma {:induction false} SendableInStep(n1: Octet -> nat, frames: seq<Frame>, e0: Config, trace: seq<Action>, t: nat)
    requires Init(e0) && Runs(n1, e0, trace) && AllSendable(n1, frames) && t <= |trace|
    requires Run(n1, e0, trace).published <= Stream(n1, frames)
    ensures true !in StateAt(n1, e0, trace, t).marks && StateAt(n1, e0, trace, t).lates == 0
    decreases t
  {
    hide Apply, Enabled, InStep, Stream, Run, Runs, Fits, FcsAgrees, StateAt, TakesFlag;
    if t == 0 {
      StateAtStart(n1, e0, trace);
    } else {
      SendableInStep(n1, frames, e0, trace, t - 1);
      RunInStep(n1, frames, e0, trace, t - 1);
      var e, a, k := StateAt(n1, e0, trace, t - 1), trace[t - 1], Decisions(n1, e0, trace, t - 1);
      StateAtNext(n1, e0, trace, t - 1);
      PublishedAt(n1, e0, trace, t);
      SendableStep(n1, frames, e, a, k);
    }
  }

  lemma SendableStep(n1: Octet -> nat, frames: seq<Frame>, e: Config, a: Action, k: nat)
    requires AllSendable(n1, frames) && InStep(n1, frames, e, k) && Enabled(e, a) && true !in e.marks && e.lates == 0
    requires Apply(n1, e, a).published <= Stream(n1, frames)
    ensures true !in Apply(n1, e, a).marks && Apply(n1, e, a).lates == 0
  {
    hide Parse, Stream, Agreeing, FcsAgrees, LookAtRing;
    assert !Behind(n1, frames, k);
    StepInStep(n1, frames, e, a, k);
    if true in Apply(n1, e, a).marks {
      OnlyTakenAreMarked(n1, e, a);
    }
    match a {
      case Publish(p) =>
        if Window(e) && p != [] {
          NoLatePublication(n1, frames, e, k, p);
        }
      case Begin =>
      case Step => LookKeepsLates(n1, e);
    }
  }

  lemma LookKeepsLates(n1: Octet -> nat, e: Config)
    requires !e.point.Between?
    ensures LookAtRing(n1, e).lates == e.lates
  {
    hide Parse;
  }

  lemma {:induction false} AgreeingPrefix(n1: Octet -> nat, frames: seq<Frame>, k: nat)
    requires AllSendable(n1, frames) && k <= |frames|
    ensures Agreeing(n1, frames[..k]) == frames[..k]
  {
    hide FcsAgrees;
    AgreeingAll(n1, frames[..k]);
  }

  /**
   In every interleaving of publications and looks at the ring the frames of a stream that agree are delivered in
   order, the assertion never fires, no flag comes into the window, and once everything is read all have arrived.
   */
  lemma FramesArriveInEveryInterleaving(n1: Octet -> nat, e0: Config, trace: seq<Action>, frames: seq<Frame>)
    requires Init(e0) && Runs(n1, e0, trace) && AllSendable(n1, frames)
    requires Run(n1, e0, trace).published <= Stream(n1, frames)
    ensures var e := Run(n1, e0, trace);
      && !e.asserted && e.lates == 0 && e.delivered <= frames
      && (e.published == Stream(n1, frames) && e.unread == [] ==> e.delivered == frames)
  {
    hide Apply, Enabled, Stream, Run, Runs, Agreeing, FcsAgrees, StateAt, Decisions, Parse, Examines;
    StateAtEnd(n1, e0, trace);
    SendableInStep(n1, frames, e0, trace, |trace|);
    AgreeingArriveInEveryInterleaving(n1, e0, trace, frames);
    AgreeingPrefix(n1, frames, Decisions(n1, e0, trace, |trace|));
    AgreeingAll(n1, frames);
    AssertsInEveryInterleavingIff(n1, e0, trace, frames);
  }

  // ----- Runs in which arrivals during a call matter -----

  function Publications(trace: seq<Action>): seq<seq<Octet>> {
    if trace == [] then []
    else (if trace[0].Publish? then [trace[0].p] else []) + Publications(trace[1..])
  }

  lemma StepPublishes(n1: Octet -> nat, e: Config, a: Action)
    requires Enabled(e, a)
    ensures Apply(n1, e, a).published == e.published + if a.Publish? then a.p else []
  {
    hide Parse;
    ParseShrinks(n1, e.unread);
  }

  lemma ConcatOfOne(a: Action)
    ensures Concat(if a.Publish? then [a.p] else []) == if a.Publish? then a.p else []
  {
    if a.Publish? {
      assert [a.p][1..] == [];
    }
  }

  /** What is recorded as published is what the run publishes. */
  lemma {:induction false} PublicationsJoinUp(n1: Octet -> nat, e: Config, trace: seq<Action>)
    requires Runs(n1, e, trace)
    ensures Run(n1, e, trace).published == e.published + Concat(Publications(trace))
    decreases |trace|
  {
    hide Apply, Enabled;
    if trace != [] {
      StepPublishes(n1, e, trace[0]);
      PublicationsJoinUp(n1, Apply(n1, e, trace[0]), trace[1..]);
      var first := if trace[0].Publish? then [trace[0].p] else [];
      ConcatAppend(first, Publications(trace[1..]));
      ConcatOfOne(trace[0]);
      JoinThree(e.published, Concat(first), Concat(Publications(trace[1..])));
    }
  }

  lemma {:induction false} OneMoreStep(n1: Octet -> nat, e0: Config, trace: seq<Action>, a: Action)
    requires Runs(n1, e0, trace) && Enabled(Run(n1, e0, trace), a)
    ensures Runs(n1, e0, trace + [a]) && Run(n1, e0, trace + [a]) == Apply(n1, Run(n1, e0, trace), a)
    ensures Publications(trace + [a]) == Publications(trace) + if a.Publish? then [a.p] else []
    decreases |trace|
  {
    hide Apply, Enabled;
    if trace == [] {
      assert (trace + [a])[1..] == [];
    } else {
      assert (trace + [a])[1..] == trace[1..] + [a];
      OneMoreStep(n1, Apply(n1, e0, trace[0]), trace[1..], a);
    }
  }

  lemma Then(n1: Octet -> nat, e0: Config, before: seq<Action>, a: Action) returns (trace: seq<Action>, e: Config)
    requires Runs(n1, e0, before) && Enabled(Run(n1, e0, before), a)
    ensures Runs(n1, e0, trace) && e == Run(n1, e0, trace) == Apply(n1, Run(n1, e0, before), a)
    ensures Publications(trace) == Publications(before) + if a.Publish? then [a.p] else []
  {
    OneMoreStep(n1, e0, before, a);
    trace := before + [a];
    e := Run(n1, e0, trace);
  }

  /** In the search of a call: nothing unread but the end flag of a dropped frame, if there was one. */
  predicate InSearch(e: Config) {
    && e.point.Searching? && !e.flag && !e.asserted && e.depth < MAX_RESYNC_GET_FRAME_COUNT
    && e.unread == if e.depth == 0 then [] else [BASIC_FLAG]
  }

  /** A whole frame arrives during the search: the decoder comes to stand behind its start flag. */
  lemma FrameArrives(n1: Octet -> nat, e0: Config, before: seq<Action>, f: Frame) returns (trace: seq<Action>, e: Config)
    requires Runs(n1, e0, before) && InSearch(Run(n1, e0, before)) && Fits(n1, f) && |Encode(f)| < BUFFER_SIZE
    ensures Runs(n1, e0, trace) && e == Run(n1, e0, trace) && Publications(trace) == Publications(before) + [Encode(f)]
    ensures var d := Run(n1, e0, before);
      && e.point.Counting? && e.flag && !e.asserted && e.depth == d.depth && e.unread == Encode(f)[1..]
      && e.published == d.published + Encode(f) && e.delivered == d.delivered && e.lates == d.lates
      && e.marks == d.marks + Unmarked(|d.unread| + 1)
  {
    hide Parse, Encode, Runs, Run, Publications;
    FirstOctets(f);
    var d := Run(n1, e0, before);
    trace, e := Then(n1, e0, before, Publish(Encode(f)));
    assert e.unread == d.unread + Encode(f) && !Window(d);
    trace, e := Then(n1, e0, trace, Step);
    if d.depth == 0 {
      assert d.unread + Encode(f) == Encode(f);
    } else {
      assert ([BASIC_FLAG] + Encode(f))[1..] == Encode(f);
      assert e.unread == Encode(f);
      trace, e := Then(n1, e0, trace, Step);
    }
    assert e.unread == Encode(f)[1..];
    trace, e := Then(n1, e0, trace, Step);
  }

  /** A frame that is to be rejected arrives during the search, and is dropped. */
  lemma RejectedArrives(n1: Octet -> nat, e0: Config, before: seq<Action>, f: Frame)
    returns (trace: seq<Action>, e: Config)
    requires Runs(n1, e0, before) && InSearch(Run(n1, e0, before))
    requires Fits(n1, f) && !FcsAgrees(f) && |Encode(f)| < BUFFER_SIZE
    ensures Runs(n1, e0, trace) && e == Run(n1, e0, trace) && Publications(trace) == Publications(before) + [Encode(f)]
    ensures var d := Run(n1, e0, before);
      && e.depth == d.depth + 1 && (if e.depth < MAX_RESYNC_GET_FRAME_COUNT then InSearch(e) else e.asserted)
      && e.published == d.published + Encode(f) && e.delivered == d.delivered && e.lates == d.lates
  {
    hide Parse, Encode, Runs, Run, Publications, FcsAgrees, LookAtRing;
    trace, e := FrameArrives(n1, e0, before, f);
    WholeFrame(n1, f, []);
    assert Encode(f)[1..] + [] == Encode(f)[1..];
    DropsOne(n1, e, [BASIC_FLAG]);
    trace, e := Then(n1, e0, trace, Step);
  }

  /** A dropped attempt, as a step. */
  lemma DropsOne(n1: Octet -> nat, e: Config, rest: seq<Octet>)
    requires e.point.Counting? && Parse(n1, e.unread) == Drop(rest)
    ensures var d := LookAtRing(n1, e);
      && d.depth == e.depth + 1 && d.unread == rest && !d.flag
      && (if d.depth >= MAX_RESYNC_GET_FRAME_COUNT then d.asserted else d.point.Searching? && d.asserted == e.asserted)
      && d.published == e.published && d.delivered == e.delivered && d.lates == e.lates
  {
    hide Parse;
  }

  lemma FirstCall(n1: Octet -> nat, e0: Config) returns (trace: seq<Action>)
    requires Init(e0)
    ensures Runs(n1, e0, trace) && InSearch(Run(n1, e0, trace)) && Publications(trace) == []
    ensures var e := Run(n1, e0, trace); e.depth == 0 && e.published == [] && e.delivered == [] && e.lates == 0
  {
    hide Parse;
    assert Runs(n1, e0, []) && Run(n1, e0, []) == e0 && Publications([]) == [];
    var e;
    trace, e := Then(n1, e0, [], Begin);
  }

  /**
   The same frames published one by one, which never lead to the assertion between calls, do lead to it when each
   arrives while the call that dropped the one before is still searching.
   */
  lemma OneByOneInOneCallAsserts(n1: Octet -> nat, e0: Config, f: Frame) returns (trace: seq<Action>)
    requires Init(e0) && Fits(n1, f) && !FcsAgrees(f) && |Encode(f)| < BUFFER_SIZE
    ensures Runs(n1, e0, trace) && Run(n1, e0, trace).asserted && Run(n1, e0, trace).lates == 0
    ensures AllFit(n1, [f, f, f]) && Publications(trace) == Encodings(n1, [f, f, f])
  {
    hide Parse, Encode, FcsAgrees, Runs, Run, Publications;
    trace := FirstCall(n1, e0);
    var e;
    trace, e := RejectedArrives(n1, e0, trace, f);
    trace, e := RejectedArrives(n1, e0, trace, f);
    trace, e := RejectedArrives(n1, e0, trace, f);
    OneFrameMore(n1, f, []);
    OneFrameMore(n1, f, [f]);
    OneFrameMore(n1, f, [f, f]);
    assert [f] + [f] == [f, f] && [f] + [f, f] == [f, f, f];
  }

  lemma OneFrameMore(n1: Octet -> nat, f: Frame, frames: seq<Frame>)
    requires Fits(n1, f) && AllFit(n1, frames)
    ensures AllFit(n1, [f] + frames) && Encodings(n1, [f] + frames) == [Encode(f)] + Encodings(n1, frames)
    ensures Stream(n1, [f] + frames) == Encode(f) + Stream(n1, frames)
    ensures Agreeing(n1, [f] + frames) == (if FcsAgrees(f) then [f] else []) + Agreeing(n1, frames)
  {
    hide FcsAgrees, Encode;
    assert ([f] + frames)[1..] == frames;
  }

  /** Behind a dropped frame the decoder takes the end flag for a start flag, and comes to stand in the window. */
  lemma ToWindow(n1: Octet -> nat, e0: Config, before: seq<Action>) returns (trace: seq<Action>, e: Config)
    requires Runs(n1, e0, before) && InSearch(Run(n1, e0, before)) && Run(n1, e0, before).depth > 0
    ensures Runs(n1, e0, trace) && e == Run(n1, e0, trace) && Publications(trace) == Publications(before)
    ensures var d := Run(n1, e0, before);
      && Window(e) && e.flag && !e.asserted && e.depth == d.depth
      && e.published == d.published && e.delivered == d.delivered && e.lates == d.lates
  {
    hide Parse, Runs, Run, Publications;
    trace, e := Then(n1, e0, before, Step);
    assert e.unread == [];
    trace, e := Then(n1, e0, trace, Step);
  }

  /** A frame without a payload that agrees, as `SomeFrame` gives it. */
  predicate Plain(n1: Octet -> nat, g: Frame) {
    && Sendable(n1, g) && g.data == [] && g.control == 0x01
    && Fcs.FrameFcs(Header(g.channel, g.control, 0)) != BASIC_FLAG
  }

  lemma PlainSize(n1: Octet -> nat, g: Frame)
    requires Plain(n1, g)
    ensures 5 < |Encode(g)| < BUFFER_SIZE && Encode(g)[0] == BASIC_FLAG
  {
    hide Fcs.FrameFcs, Address, FcsAgrees;
    FirstOctets(g);
    FieldSize(0);
  }

  /** A frame that agrees arrives in the window and is dropped, but for its last two octets. */
  lemma PlainArrivesLate(n1: Octet -> nat, e0: Config, before: seq<Action>, g: Frame)
    returns (trace: seq<Action>, e: Config)
    requires Runs(n1, e0, before) && Plain(n1, g)
    requires var d := Run(n1, e0, before);
      Window(d) && d.flag && !d.asserted && d.depth < MAX_RESYNC_GET_FRAME_COUNT
    ensures Runs(n1, e0, trace) && e == Run(n1, e0, trace) && Publications(trace) == Publications(before) + [Encode(g)]
    ensures var d := Run(n1, e0, before);
      && e.depth == d.depth + 1 && e.published == d.published + Encode(g) && e.delivered == d.delivered
      && e.lates == d.lates + 1 && e.asserted == (e.depth == MAX_RESYNC_GET_FRAME_COUNT)
      && (!e.asserted ==>
            && e.point.Searching? && !e.flag
            && e.unread == [Fcs.FrameFcs(Header(g.channel, g.control, 0)), BASIC_FLAG])
  {
    LateFlagDrops(n1, g);
    PlainSize(n1, g);
    hide Parse, Encode, Runs, Run, Publications, Plain, Fcs.FrameFcs, Header, LookAtRing;
    var d := Run(n1, e0, before);
    trace, e := Then(n1, e0, before, Publish(Encode(g)));
    assert e.unread == Encode(g);
    DropsOne(n1, e, [Fcs.FrameFcs(Header(g.channel, g.control, 0)), BASIC_FLAG]);
    trace, e := Then(n1, e0, trace, Step);
  }

  /** The rest of a plain frame is passed over in the search. */
  lemma RestIsPassed(n1: Octet -> nat, e0: Config, before: seq<Action>, b: Octet) returns (trace: seq<Action>, e: Config)
    requires Runs(n1, e0, before) && b != BASIC_FLAG
    requires var d := Run(n1, e0, before);
      d.point.Searching? && !d.flag && !d.asserted && 0 < d.depth < MAX_RESYNC_GET_FRAME_COUNT && d.unread == [b, BASIC_FLAG]
    ensures Runs(n1, e0, trace) && e == Run(n1, e0, trace) && Publications(trace) == Publications(before)
    ensures var d := Run(n1, e0, before);
      && InSearch(e) && e.depth == d.depth
      && e.published == d.published && e.delivered == d.delivered && e.lates == d.lates
  {
    hide Parse, Runs, Run, Publications;
    trace, e := Then(n1, e0, before, Step);
    assert e.unread == [BASIC_FLAG];
  }

  /** One rejected frame, and behind it an agreeing one that arrives in the window: nothing is delivered of it. */
  lemma LateFlagLosesAgreeing(n1: Octet -> nat, e0: Config, f: Frame) returns (g: Frame, trace: seq<Action>)
    requires Init(e0) && Fits(n1, f) && !FcsAgrees(f) && |Encode(f)| < BUFFER_SIZE
    ensures Plain(n1, g) && AllFit(n1, [f, g]) && Agreeing(n1, [f, g]) == [g]
    ensures Runs(n1, e0, trace) && Publications(trace) == Encodings(n1, [f, g])
    ensures var e := Run(n1, e0, trace);
      && e.published == Stream(n1, [f, g]) && e.unread == [] && e.point.Between? && !e.asserted && e.delivered == []
  {
    hide Parse, Encode, FcsAgrees, Runs, Run, Publications, Fcs.FrameFcs;
    g := SomeFrame(n1);
    trace := FirstCall(n1, e0);
    var e;
    trace, e := RejectedArrives(n1, e0, trace, f);
    trace, e := ToWindow(n1, e0, trace);
    trace, e := PlainArrivesLate(n1, e0, trace, g);
    trace, e := RestIsPassed(n1, e0, trace, Fcs.FrameFcs(Header(g.channel, g.control, 0)));
    trace, e := ToWindow(n1, e0, trace);
    NothingParses(n1);
    trace, e := Then(n1, e0, trace, Step);
    TwoFrames(n1, f, g);
  }

  lemma TwoFrames(n1: Octet -> nat, f: Frame, g: Frame)
    requires Fits(n1, f) && Sendable(n1, g) && !FcsAgrees(f)
    ensures AllFit(n1, [f, g]) && Agreeing(n1, [f, g]) == [g]
    ensures Stream(n1, [f, g]) == [] + Encode(f) + Encode(g) && Encodings(n1, [f, g]) == [] + [Encode(f)] + [Encode(g)]
  {
    hide FcsAgrees, Encode;
    OneFrameMore(n1, g, []);
    OneFrameMore(n1, f, [g]);
    assert [g] + [] == [g] && [f] + [g] == [f, g];
  }

  /** Two late flags are as good as two rejected frames: the assertion fires though only one frame is to be rejected. */
  lemma LateFlagsAssert(n1: Octet -> nat, e0: Config, f: Frame) returns (g: Frame, trace: seq<Action>)
    requires Init(e0) && Fits(n1, f) && !FcsAgrees(f) && |Encode(f)| < BUFFER_SIZE
    ensures Plain(n1, g) && Runs(n1, e0, trace) && Publications(trace) == [Encode(f), Encode(g), Encode(g)]
    ensures Run(n1, e0, trace).asserted && Run(n1, e0, trace).lates == 2
  {
    hide Parse, Encode, FcsAgrees, Runs, Run, Publications, Fcs.FrameFcs;
    g := SomeFrame(n1);
    trace := FirstCall(n1, e0);
    var e;
    trace, e := RejectedArrives(n1, e0, trace, f);
    trace, e := ToWindow(n1, e0, trace);
    trace, e := PlainArrivesLate(n1, e0, trace, g);
    trace, e := RestIsPassed(n1, e0, trace, Fcs.FrameFcs(Header(g.channel, g.control, 0)));
    trace, e := ToWindow(n1, e0, trace);
    trace, e := PlainArrivesLate(n1, e0, trace, g);
  }

  lemma SmallFrame(f: Frame)
    requires |f.data| <= 1
    ensures |Encode(f)| < BUFFER_SIZE
  {
    hide LengthField, Address;
    FieldSize(|f.data|);
  }

  /** On a channel with room for one octet there are three UI frames that in one piece lead to the assertion. */
  lemma ThreeUiFramesAssert(n1: Octet -> nat, channel: Octet) returns (f: Frame)
    requires channel < 64 && n1(channel) >= 1
    ensures Fits(n1, f) && f.channel == channel && f.control == TYPE_UI && |f.data| == 1 && !FcsAgrees(f)
    ensures |Encode(f)| < BUFFER_SIZE && PieceAsserts(n1, false, [], [Stream(n1, [f, f, f])])
  {
    hide PieceAsserts, Stream, FcsAgrees, Encode;
    var a, b := Frame(channel, TYPE_UI, [0]), Frame(channel, TYPE_UI, [1]);
    UiPayloadLost(channel, 0, 1);
    f := if FcsAgrees(a) then b else a;
    SmallFrame(f);
    AllAtOnceAssertsIff(n1, [f, f, f]);
    assert Rejected(n1, [f, f, f], 0);
  }
}

/**
 The advanced option's receiver when octets may arrive at any moment of a call. Two things can then happen to a
 flag that the octet machine knows nothing of: with an escape pending and nothing stored it may be skipped, and
 with nothing stored at all it may be taken for the end of an empty frame. A tag for every octet says which.
 */
module AdvancedTags {
  import opened Octets
  import opened Stuffing
  import opened AdvancedSpec
  import opened AdvancedStream
  import Fcs

  datatype Tag = Plain | Skipped | Late

  /** Inside a frame of which nothing has been read. */
  const OPENED := InFrame([], false)

  predicate Possible(s: State, b: Octet, t: Tag) {
    t == Plain || (b == ADV_FLAG && s == if t == Skipped then HAZARD else OPENED)
  }

  function TNext(s: State, b: Octet, t: Tag): State {
    if t == Plain then Next(s, b) else if t == Skipped then s else Hunting
  }

  function TEmit(s: State, b: Octet, t: Tag): seq<Frame> {
    if t == Plain then FramesOf(Emit(s, b)) else []
  }

  predicate Tagged(s: State, w: seq<Octet>, tags: seq<Tag>)
    decreases |w|
  {
    |w| == |tags| && (w != [] ==> Possible(s, w[0], tags[0]) && Tagged(TNext(s, w[0], tags[0]), w[1..], tags[1..]))
  }

  function TAfter(s: State, w: seq<Octet>, tags: seq<Tag>): State
    requires |w| == |tags|
    decreases |w|
  {
    if w == [] then s else TAfter(TNext(s, w[0], tags[0]), w[1..], tags[1..])
  }

  function TFrames(s: State, w: seq<Octet>, tags: seq<Tag>): seq<Frame>
    requires |w| == |tags|
    decreases |w|
  {
    if w == [] then [] else TEmit(s, w[0], tags[0]) + TFrames(TNext(s, w[0], tags[0]), w[1..], tags[1..])
  }

  /** How many flags were taken for the end of an empty frame. */
  function Lates(tags: seq<Tag>): nat {
    if tags == [] then 0 else (if tags[0] == Late then 1 else 0) + Lates(tags[1..])
  }

  lemma {:induction false} TaggedAppend(s: State, a: seq<Octet>, x: seq<Tag>, b: seq<Octet>, y: seq<Tag>)
    requires |a| == |x| && |b| == |y|
    ensures Tagged(s, a + b, x + y) <==> Tagged(s, a, x) && Tagged(TAfter(s, a, x), b, y)
    ensures TAfter(s, a + b, x + y) == TAfter(TAfter(s, a, x), b, y)
    ensures TFrames(s, a + b, x + y) == TFrames(s, a, x) + TFrames(TAfter(s, a, x), b, y)
    ensures Lates(x + y) == Lates(x) + Lates(y)
    decreases |a|
  {
    hide TNext, TEmit, Possible;
    if a == [] {
      assert a + b == b && x + y == y;
    } else {
      assert (a + b)[1..] == a[1..] + b && (x + y)[1..] == x[1..] + y;
      var s' := TNext(s, a[0], x[0]);
      TaggedAppend(s', a[1..], x[1..], b, y);
      var p, q, r := TEmit(s, a[0], x[0]), TFrames(s', a[1..], x[1..]), TFrames(TAfter(s', a[1..], x[1..]), b, y);
      assert p + (q + r) == (p + q) + r;
    }
  }

  /** On the way through `w` no flag is met in either of the two states. */
  predicate Untouched(s: State, w: seq<Octet>)
    decreases |w|
  {
    w != [] ==> !(w[0] == ADV_FLAG && (s == HAZARD || s == OPENED)) && Untouched(Next(s, w[0]), w[1..])
  }

  lemma {:induction false} UntouchedAppend(s: State, a: seq<Octet>, b: seq<Octet>)
    ensures Untouched(s, a + b) <==> Untouched(s, a) && Untouched(After(s, a), b)
    decreases |a|
  {
    hide Next;
    if a == [] {
      assert a + b == b;
    } else {
      assert (a + b)[1..] == a[1..] + b;
      UntouchedAppend(Next(s, a[0]), a[1..], b);
    }
  }

  /** Then the tags are plain, and the octet machine says it all. */
  lemma {:induction false} UntouchedIsPlain(s: State, w: seq<Octet>, tags: seq<Tag>)
    requires Tagged(s, w, tags) && Untouched(s, w)
    ensures TAfter(s, w, tags) == After(s, w) && TFrames(s, w, tags) == Frames(s, w) && Lates(tags) == 0
    decreases |w|
  {
    hide Next, Emit;
    if w != [] {
      assert tags[0] == Plain;
      UntouchedIsPlain(Next(s, w[0]), w[1..], tags[1..]);
    }
  }

  /** Octets other than flags are never touched. */
  lemma {:induction false} FlagFreeIsUntouched(s: State, w: seq<Octet>)
    requires ADV_FLAG !in w
    ensures Untouched(s, w)
    decreases |w|
  {
    hide Next;
    if w != [] {
      FlagFreeIsUntouched(Next(s, w[0]), w[1..]);
    }
  }

  /** The body of a frame and the flag behind it are untouched from every state. */
  lemma TailIsUntouched(s: State, body: seq<Octet>)
    requires Fitting(body)
    ensures Untouched(s, Stuff(body) + [ADV_FLAG])
  {
    hide Stuff, Next, After, Frames, Fcs.Accepts, Covered;
    StuffHasNoFlag(body);
    FlagFreeIsUntouched(s, Stuff(body));
    FlagFreeRun(s, Stuff(body));
    UntouchedAppend(s, Stuff(body), [ADV_FLAG]);
    OneUntouched(After(s, Stuff(body)));
  }

  lemma OneUntouched(s: State)
    requires s != HAZARD && s != OPENED
    ensures Untouched(s, [ADV_FLAG])
  {}

  lemma {:induction false} StreamIsUntouched(bodies: seq<seq<Octet>>)
    requires AllFitting(bodies)
    ensures Untouched(Hunting, Stream(bodies))
    decreases |bodies|
  {
    hide Fitting, Stuff, Untouched;
    if bodies == [] {
      NothingIsUntouched(Hunting);
    } else {
      var tail := Stuff(bodies[0]) + [ADV_FLAG];
      assert Wire(bodies[0]) == [ADV_FLAG] + tail;
      TailIsUntouched(OPENED, bodies[0]);
      OpeningFlag(Hunting);
      OneUntouched(Hunting);
      UntouchedAppend(Hunting, [ADV_FLAG], tail);
      WireInStep(Hunting, bodies[0]);
      UntouchedAppend(Hunting, Wire(bodies[0]), Stream(bodies[1..]));
      StreamIsUntouched(bodies[1..]);
    }
  }

  lemma NothingIsUntouched(s: State)
    ensures Untouched(s, [])
  {}

  /** Reading the rest of a frame behind its first flag, from the two states a receiver that lost step can be in. */
  lemma TailFromHunting(body: seq<Octet>)
    requires Fitting(body)
    ensures var tail := Stuff(body) + [ADV_FLAG]; After(Hunting, tail) == OPENED && Frames(Hunting, tail) == []
  {
    hide Stuff, After, Frames, Fitting;
    StuffHasNoFlag(body);
    HuntingRun(Stuff(body));
    AfterAppend(Hunting, Stuff(body), [ADV_FLAG]);
    FramesAppend(Hunting, Stuff(body), [ADV_FLAG]);
    OpeningFlag(Hunting);
  }

  lemma TailFromOpened(body: seq<Octet>)
    requires Fitting(body)
    ensures var tail := Stuff(body) + [ADV_FLAG]; After(OPENED, tail) == Hunting && Frames(OPENED, tail) == Accepted(body)
  {
    hide Stuff, After, Frames, Accepted;
    StuffedIsStored([], body);
    assert [] + body == body;
    AfterAppend(OPENED, Stuff(body), [ADV_FLAG]);
    FramesAppend(OPENED, Stuff(body), [ADV_FLAG]);
    ClosingFlag(body);
  }

  /** The tags of a stream of frames, split behind its first flag and behind its first frame. */
  lemma SplitTags(s: State, bodies: seq<seq<Octet>>, tags: seq<Tag>)
    returns (t: Tag, x: seq<Tag>, y: seq<Tag>)
    requires AllFitting(bodies) && bodies != [] && Tagged(s, Stream(bodies), tags)
    ensures tags == [t] + x + y && Possible(s, ADV_FLAG, t)
    ensures var s' := TNext(s, ADV_FLAG, t);
      var tail := Stuff(bodies[0]) + [ADV_FLAG];
      && |x| == |tail| && |y| == |Stream(bodies[1..])|
      && Tagged(After(s', tail), Stream(bodies[1..]), y)
      && TAfter(s, Stream(bodies), tags) == TAfter(After(s', tail), Stream(bodies[1..]), y)
      && TFrames(s, Stream(bodies), tags)
         == TEmit(s, ADV_FLAG, t) + Frames(s', tail) + TFrames(After(s', tail), Stream(bodies[1..]), y)
      && Lates(tags) == (if t == Late then 1 else 0) + Lates(y)
  {
    hide Fitting, Stuff, TNext, TEmit, Possible, Untouched, After, Frames, Stream;
    var tail, more := Stuff(bodies[0]) + [ADV_FLAG], Stream(bodies[1..]);
    StreamOfOne(bodies);
    var w := Stream(bodies);
    t, x, y := tags[0], tags[1..1 + |tail|], tags[1 + |tail|..];
    assert tags[1..] == x + y && w[1..] == tail + more && w[0] == ADV_FLAG;
    var s' := TNext(s, ADV_FLAG, t);
    TaggedAppend(s', tail, x, more, y);
    TailIsUntouched(s', bodies[0]);
    UntouchedIsPlain(s', tail, x);
    var p, q, r := TEmit(s, ADV_FLAG, t), Frames(s', tail), TFrames(After(s', tail), more, y);
    assert p + (q + r) == p + q + r;
  }

  lemma StreamOfOne(bodies: seq<seq<Octet>>)
    requires bodies != []
    ensures Stream(bodies) == [ADV_FLAG] + ((Stuff(bodies[0]) + [ADV_FLAG]) + Stream(bodies[1..]))
  {
    hide Stuff;
  }

  lemma Opened(t: Tag)
    requires Possible(OPENED, ADV_FLAG, t)
    ensures TEmit(OPENED, ADV_FLAG, t) == [] && TNext(OPENED, ADV_FLAG, t) == if t == Late then Hunting else OPENED
  {}

  /** From inside an empty frame each late flag costs one frame of the stream, and all frames behind them arrive. */
  lemma {:induction false} StreamFromOpened(bodies: seq<seq<Octet>>, tags: seq<Tag>)
    requires AllFitting(bodies) && Tagged(OPENED, Stream(bodies), tags)
    ensures Lates(tags) <= |bodies| && TFrames(OPENED, Stream(bodies), tags) == Sent(bodies[Lates(tags)..])
    ensures InStep(TAfter(OPENED, Stream(bodies), tags))
    decreases |bodies|
  {
    hide Fitting, Stuff, Wire, TNext, TEmit, Possible, Untouched, After, Frames, Accepted, Tagged, TAfter, TFrames;
    if bodies == [] {
      NothingTagged(OPENED, tags);
    } else {
      var t, x, y := SplitTags(OPENED, bodies, tags);
      Opened(t);
      if t == Late {
        TailFromHunting(bodies[0]);
        StreamFromOpened(bodies[1..], y);
        assert bodies[1..][Lates(y)..] == bodies[1 + Lates(y)..];
      } else {
        TailFromOpened(bodies[0]);
        StreamFromHunting(bodies[1..], y);
        assert bodies[0..] == bodies;
      }
    }
  }

  lemma NothingTagged(s: State, tags: seq<Tag>)
    requires Tagged(s, [], tags)
    ensures tags == [] && TFrames(s, [], tags) == [] && TAfter(s, [], tags) == s
  {}

  lemma StreamFromHunting(bodies: seq<seq<Octet>>, tags: seq<Tag>)
    requires AllFitting(bodies) && Tagged(Hunting, Stream(bodies), tags)
    ensures Lates(tags) == 0 && TFrames(Hunting, Stream(bodies), tags) == Sent(bodies)
    ensures InStep(TAfter(Hunting, Stream(bodies), tags))
  {
    StreamIsUntouched(bodies);
    UntouchedIsPlain(Hunting, Stream(bodies), tags);
    StreamInStep(Hunting, bodies);
  }

  /** The next flag opens a frame: in step, or at an escape that finds the buffer full. */
  predicate Opens(s: State) {
    Next(s, ADV_FLAG) == OPENED
  }

  /** How many frames of a stream a receiver in state `s` loses: one to get in step, and one for each late flag. */
  function Lost(s: State, tags: seq<Tag>): nat {
    Lates(tags) + if Opens(s) then 0 else 1
  }

  /**
   The whole account of a stream of frames, from every state: what is lost is lost at its beginning, at most one
   frame that was not sent is delivered before the rest, and from a state in step not even that.
   */
  lemma StreamAccount(s: State, bodies: seq<seq<Octet>>, tags: seq<Tag>) returns (stray: seq<Frame>)
    requires AllFitting(bodies) && bodies != [] && Tagged(s, Stream(bodies), tags)
    ensures Lost(s, tags) <= |bodies| && TFrames(s, Stream(bodies), tags) == stray + Sent(bodies[Lost(s, tags)..])
    ensures |stray| <= 1 && (Opens(s) ==> stray == [])
    ensures InStep(TAfter(s, Stream(bodies), tags))
  {
    hide Fitting, Stuff, Wire, TNext, TEmit, Possible, Untouched, After, Frames, Accepted, Tagged, TAfter,
        TFrames, Stream;
    stray := [];
    OpensInStep(s);
    hide Opens;
    if s == Hunting {
      StreamFromHunting(bodies, tags);
      assert bodies[0..] == bodies;
    } else if s == OPENED {
      StreamFromOpened(bodies, tags);
    } else {
      var t, x, y := SplitTags(s, bodies, tags);
      NeverLate(s, t);
      var tail := Stuff(bodies[0]) + [ADV_FLAG];
      if Opens(s) {
        TailFromOpened(bodies[0]);
        StreamFromHunting(bodies[1..], y);
        assert bodies[0..] == bodies;
      } else {
        stray := FirstFrameAtMost(s, t, bodies[0]);
        if After(TNext(s, ADV_FLAG, t), tail) == Hunting {
          StreamFromHunting(bodies[1..], y);
        } else {
          StreamFromOpened(bodies[1..], y);
        }
        assert bodies[1..][Lates(y)..] == bodies[1 + Lates(y)..];
        assert bodies[1..][0..] == bodies[1..];
      }
    }
  }

  lemma OpensInStep(s: State)
    ensures InStep(s) ==> Opens(s)
    ensures Opens(s) && !InStep(s) ==> s != HAZARD && forall t :: Possible(s, ADV_FLAG, t) ==>
      t == Plain && TNext(s, ADV_FLAG, t) == OPENED && TEmit(s, ADV_FLAG, t) == []
  {}

  lemma NeverLate(s: State, t: Tag)
    requires s != OPENED && Possible(s, ADV_FLAG, t)
    ensures t != Late
  {}

  /** Out of step the first frame of a stream brings the receiver in step and delivers one frame at most. */
  lemma FirstFrameAtMost(s: State, t: Tag, body: seq<Octet>) returns (stray: seq<Frame>)
    requires Fitting(body) && Possible(s, ADV_FLAG, t) && t != Late
    ensures var s', tail := TNext(s, ADV_FLAG, t), Stuff(body) + [ADV_FLAG];
      && stray == TEmit(s, ADV_FLAG, t) + Frames(s', tail) && |stray| <= 1 && InStep(After(s', tail))
  {
    hide Fitting, Stuff, Frames, After, Next, Emit;
    var tail := Stuff(body) + [ADV_FLAG];
    stray := TEmit(s, ADV_FLAG, t) + Frames(TNext(s, ADV_FLAG, t), tail);
    TailResyncs(TNext(s, ADV_FLAG, t), body);
    if t == Plain {
      WireResyncs(s, body);
      assert Wire(body) == [ADV_FLAG] + tail;
      OneOctet(s, ADV_FLAG);
      AfterAppend(s, [ADV_FLAG], tail);
      FramesAppend(s, [ADV_FLAG], tail);
    }
  }

  /** Without late flags, and with no escape directly before a flag, the octet machine says it all. */
  lemma {:induction false} NoLatesIsPlain(s: State, w: seq<Octet>, tags: seq<Tag>)
    requires Tagged(s, w, tags) && Lates(tags) == 0 && NoEscFlag(w)
    requires s == HAZARD ==> w == [] || w[0] != ADV_FLAG
    ensures TAfter(s, w, tags) == After(s, w) && TFrames(s, w, tags) == Frames(s, w)
    decreases |w|
  {
    hide Next, Emit;
    if w != [] {
      var s' := Next(s, w[0]);
      assert tags[0] == Plain;
      if s' == HAZARD {
        ToHazard(s, w[0]);
      }
      assert NoEscFlag(w[1..]);
      NoLatesIsPlain(s', w[1..], tags[1..]);
    }
  }

  lemma ToHazard(s: State, b: Octet)
    requires Next(s, b) == HAZARD
    ensures b == ADV_ESC
  {
    hide Complement;
  }
}

/**
 What reception of whole streams delivers in the advanced option: it does not depend on how the
 stream was cut, it returns what was sent, and it recovers from garbage within one frame.
 */
module AdvancedStream {
  import opened Octets
  import opened Stuffing
  import opened AdvancedSpec
  import Fcs

  // ----- Reception in pieces -----

  /** The state after every piece has been written to the buffer and drained from it. */
  function DeliverState(s: State, chunks: seq<seq<Octet>>): State
    decreases |chunks|
  {
    if chunks == [] then s else DeliverState(After(s, Enter(s, chunks[0])), chunks[1..])
  }

  /** The frames delivered when the stream arrives in these pieces. */
  function DeliverFrames(s: State, chunks: seq<seq<Octet>>): seq<Frame>
    decreases |chunks|
  {
    if chunks == [] then []
    else Frames(s, Enter(s, chunks[0])) + DeliverFrames(After(s, Enter(s, chunks[0])), chunks[1..])
  }

  /** The one state in which a call boundary shows: an escape has been read and nothing is stored. */
  const HAZARD := InFrame([], true)

  lemma {:induction false} FlagsAreIdle(w: seq<Octet>)
    ensures After(InFrame([], false), SkipFlags(w)) == After(InFrame([], false), w)
    ensures Frames(InFrame([], false), SkipFlags(w)) == Frames(InFrame([], false), w)
    decreases |w|
  {
    if w != [] && w[0] == ADV_FLAG {
      FlagsAreIdle(w[1..]);
      assert FramesOf(Emit(InFrame([], false), w[0])) == [];
    }
  }

  lemma EntryIsIdle(s: State, w: seq<Octet>)
    requires s != HAZARD || w == [] || w[0] != ADV_FLAG
    ensures After(s, Enter(s, w)) == After(s, w) && Frames(s, Enter(s, w)) == Frames(s, w)
  {
    if s == InFrame([], false) {
      FlagsAreIdle(w);
    }
  }

  /** A call boundary is invisible to everything that may follow exactly in the states other than the hazard. */
  lemma BoundaryInvisibleIff(s: State)
    ensures (forall w :: After(s, Enter(s, w)) == After(s, w) && Frames(s, Enter(s, w)) == Frames(s, w))
            <==> s != HAZARD
  {
    if s == HAZARD {
      var w := [ADV_FLAG];
      assert w[1..] == [];
      assert Enter(s, w) == [] by { assert SkipFlags(w[1..]) == []; }
      assert After(s, Enter(s, w)) == s;
      assert Next(s, w[0]) == InFrame([Complement(ADV_FLAG)], false) by {
        assert [] + [Complement(ADV_FLAG)] == [Complement(ADV_FLAG)];
      }
      assert After(s, w) == After(Next(s, w[0]), w[1..]) == Next(s, w[0]);
    } else {
      forall w
        ensures After(s, Enter(s, w)) == After(s, w) && Frames(s, Enter(s, w)) == Frames(s, w)
      {
        EntryIsIdle(s, w);
      }
    }
  }

  /** No escape character stands directly before a flag. */
  predicate NoEscFlag(w: seq<Octet>) {
    forall i :: 0 <= i < |w| - 1 && w[i] == ADV_ESC ==> w[i + 1] != ADV_FLAG
  }

  /** An escape is pending only right behind the escape character. */
  lemma {:induction false} PendingEscape(s: State, w: seq<Octet>)
    requires w != [] && w[|w| - 1] != ADV_ESC
    ensures After(s, w) == Hunting || !After(s, w).esc
    decreases |w|
  {
    if |w| == 1 {
      assert After(s, w) == After(Next(s, w[0]), []);
    } else {
      PendingEscape(Next(s, w[0]), w[1..]);
    }
  }

  /** Delivery does not depend on the cutting of a stream without an escape directly before a flag. */
  lemma {:induction false} ChunkingIsInvisible(s: State, chunks: seq<seq<Octet>>)
    requires NoEscFlag(Concat(chunks))
    requires s != HAZARD || Concat(chunks) == [] || Concat(chunks)[0] != ADV_FLAG
    ensures DeliverFrames(s, chunks) == Frames(s, Concat(chunks))
    ensures DeliverState(s, chunks) == After(s, Concat(chunks))
    decreases |chunks|
  {
    hide Next, Emit;
    if chunks != [] {
      var c, rest := chunks[0], Concat(chunks[1..]);
      assert Concat(chunks) == c + rest;
      EntryIsIdle(s, c);
      var s' := After(s, c);
      AfterAppend(s, c, rest);
      FramesAppend(s, c, rest);
      if c == [] {
        assert c + rest == rest;
      } else {
        forall i | 0 <= i < |rest| - 1 && rest[i] == ADV_ESC
          ensures rest[i + 1] != ADV_FLAG
        {
          assert (c + rest)[|c| + i] == rest[i] && (c + rest)[|c| + i + 1] == rest[i + 1];
        }
        if s' == HAZARD && rest != [] {
          if c[|c| - 1] != ADV_ESC {
            PendingEscape(s, c);
          }
          assert (c + rest)[|c| - 1] == c[|c| - 1] && (c + rest)[|c|] == rest[0];
        }
      }
      ChunkingIsInvisible(s', chunks[1..]);
    }
  }

  // ----- The stream that is sent -----

  /** What can stand between two flags: whether it is then accepted or not. */
  predicate Fitting(body: seq<Octet>) {
    0 < |body| <= BUFFER_SIZE
  }

  function Wire(body: seq<Octet>): seq<Octet> {
    [ADV_FLAG] + Stuff(body) + [ADV_FLAG]
  }

  function Stream(bodies: seq<seq<Octet>>): seq<Octet> {
    if bodies == [] then [] else Wire(bodies[0]) + Stream(bodies[1..])
  }

  predicate AllFitting(bodies: seq<seq<Octet>>) {
    forall i :: 0 <= i < |bodies| ==> Fitting(bodies[i])
  }

  /** The frame of a body that is accepted. */
  function Accepted(body: seq<Octet>): seq<Frame> {
    FramesOf(Close(body))
  }

  /** The frames of those bodies that are. */
  function Sent(bodies: seq<seq<Octet>>): seq<Frame> {
    if bodies == [] then [] else Accepted(bodies[0]) + Sent(bodies[1..])
  }

  lemma StuffCons(x: seq<Octet>)
    requires x != []
    ensures Stuff(x) == StuffOctet(x[0]) + Stuff(x[1..])
  {}

  /** Stuffed octets are stored unescaped as long as there is room for them. */
  lemma {:induction false} StuffedIsStored(acc: seq<Octet>, x: seq<Octet>)
    requires |acc| + |x| <= BUFFER_SIZE
    ensures After(InFrame(acc, false), Stuff(x)) == InFrame(acc + x, false)
    ensures Frames(InFrame(acc, false), Stuff(x)) == []
    decreases |x|
  {
    hide Next, Emit, StuffOctet, After, Frames, Stuff;
    if x == [] {
      StoreNone(acc);
      assert acc + x == acc;
    } else {
      StoreOne(acc, x[0]);
      StuffedIsStored(acc + [x[0]], x[1..]);
      StuffCons(x);
      AfterAppend(InFrame(acc, false), StuffOctet(x[0]), Stuff(x[1..]));
      FramesAppend(InFrame(acc, false), StuffOctet(x[0]), Stuff(x[1..]));
      assert acc + [x[0]] + x[1..] == acc + x;
    }
    assert After(InFrame(acc, false), Stuff(x)) == InFrame(acc + x, false);
    assert Frames(InFrame(acc, false), Stuff(x)) == [];
  }

  lemma StoreNone(acc: seq<Octet>)
    ensures After(InFrame(acc, false), Stuff([])) == InFrame(acc, false)
    ensures Frames(InFrame(acc, false), Stuff([])) == []
  {}

  lemma StoreOne(acc: seq<Octet>, b: Octet)
    requires |acc| < BUFFER_SIZE
    ensures After(InFrame(acc, false), StuffOctet(b)) == InFrame(acc + [b], false)
    ensures Frames(InFrame(acc, false), StuffOctet(b)) == []
  {
    var s, w := InFrame(acc, false), StuffOctet(b);
    ComplementFacts(b);
    if Escaped(b) {
      assert w[1..] == [Complement(b)] && w[1..][1..] == [];
      assert After(s, w) == After(InFrame(acc, true), w[1..]) == After(InFrame(acc + [b], false), []);
      assert Frames(InFrame(acc, true), w[1..]) == [];
    } else {
      assert w[1..] == [];
    }
  }

  lemma OneOctet(s: State, b: Octet)
    ensures After(s, [b]) == Next(s, b) && Frames(s, [b]) == FramesOf(Emit(s, b))
  {
    assert [b][1..] == [];
  }

  /** In step with the sender: nothing has been read of the next frame but flags. */
  predicate InStep(s: State) {
    s == Hunting || s == InFrame([], false)
  }

  lemma RunThrough(s: State, a: seq<Octet>, b: seq<Octet>, c: seq<Octet>)
    ensures After(s, a + b + c) == After(After(After(s, a), b), c)
    ensures Frames(s, a + b + c)
            == Frames(s, a) + Frames(After(s, a), b) + Frames(After(After(s, a), b), c)
  {
    hide After, Frames;
    AfterAppend(s, a + b, c);
    FramesAppend(s, a + b, c);
    AfterAppend(s, a, b);
    FramesAppend(s, a, b);
  }

  lemma OpeningFlag(s: State)
    requires InStep(s)
    ensures After(s, [ADV_FLAG]) == InFrame([], false) && Frames(s, [ADV_FLAG]) == []
  {
    OneOctet(s, ADV_FLAG);
  }

  lemma ClosingFlag(body: seq<Octet>)
    requires body != []
    ensures After(InFrame(body, false), [ADV_FLAG]) == Hunting
    ensures Frames(InFrame(body, false), [ADV_FLAG]) == Accepted(body)
  {
    hide Fcs.Accepts;
    OneOctet(InFrame(body, false), ADV_FLAG);
  }

  lemma WireInStep(s: State, body: seq<Octet>)
    requires InStep(s) && Fitting(body)
    ensures After(s, Wire(body)) == Hunting
    ensures Frames(s, Wire(body)) == Accepted(body)
  {
    hide After, Frames, Stuff, Accepted;
    OpeningFlag(s);
    StuffedIsStored([], body);
    assert [] + body == body;
    ClosingFlag(body);
    RunThrough(s, [ADV_FLAG], Stuff(body), [ADV_FLAG]);
  }

  lemma {:induction false} StreamInStep(s: State, bodies: seq<seq<Octet>>)
    requires InStep(s) && AllFitting(bodies)
    ensures Frames(s, Stream(bodies)) == Sent(bodies)
    ensures After(s, Stream(bodies)) == if bodies == [] then s else Hunting
    decreases |bodies|
  {
    hide Next, Emit, Wire;
    if bodies != [] {
      WireInStep(s, bodies[0]);
      AfterAppend(s, Wire(bodies[0]), Stream(bodies[1..]));
      FramesAppend(s, Wire(bodies[0]), Stream(bodies[1..]));
      StreamInStep(Hunting, bodies[1..]);
    }
  }

  lemma StuffHasNoFlag(x: seq<Octet>)
    ensures ADV_FLAG !in Stuff(x)
    ensures x != [] ==> Stuff(x) != [] && Stuff(x)[|Stuff(x)| - 1] != ADV_ESC
  {
    StuffIsClean(x);
    hide Stuff, Complement;
    assert Escaped(ADV_FLAG);
    hide Escaped;
    assert ADV_FLAG !in Stuff(x);
  }

  lemma WireIsUnambiguous(body: seq<Octet>)
    requires Fitting(body)
    ensures var w := Wire(body); NoEscFlag(w) && |w| > 0 && w[0] == w[|w| - 1] == ADV_FLAG
  {
    hide Stuff, Fcs.Accepts, Covered, Escaped;
    StuffHasNoFlag(body);
    BetweenFlags(Stuff(body));
  }

  lemma BetweenFlags(s: seq<Octet>)
    requires s != [] && ADV_FLAG !in s && s[|s| - 1] != ADV_ESC
    ensures var w := [ADV_FLAG] + s + [ADV_FLAG]; NoEscFlag(w) && |w| > 0 && w[0] == w[|w| - 1] == ADV_FLAG
  {
    var w := [ADV_FLAG] + s + [ADV_FLAG];
    forall i | 0 <= i < |w| - 1 && w[i] == ADV_ESC
      ensures w[i + 1] != ADV_FLAG
    {
      assert w[i] == s[i - 1];
      if i < |s| {
        assert w[i + 1] == s[i];
      }
    }
  }

  lemma UnambiguousJoin(a: seq<Octet>, b: seq<Octet>)
    requires NoEscFlag(a) && NoEscFlag(b) && a != [] && a[|a| - 1] == ADV_FLAG
    ensures NoEscFlag(a + b)
  {}

  lemma {:induction false} StreamIsUnambiguous(bodies: seq<seq<Octet>>)
    requires AllFitting(bodies)
    ensures NoEscFlag(Stream(bodies))
    ensures bodies != [] ==> Stream(bodies) != [] && Stream(bodies)[0] == ADV_FLAG
    ensures bodies != [] ==> Stream(bodies)[|Stream(bodies)| - 1] == ADV_FLAG
    decreases |bodies|
  {
    hide Wire, Fitting, NoEscFlag;
    if bodies == [] {
      assert NoEscFlag(Stream(bodies)) by { NothingIsUnambiguous(); }
    } else {
      WireIsUnambiguous(bodies[0]);
      StreamIsUnambiguous(bodies[1..]);
      UnambiguousJoin(Wire(bodies[0]), Stream(bodies[1..]));
    }
  }

  lemma NothingIsUnambiguous()
    ensures NoEscFlag([])
  {}

  /** Everything sent comes back, once and in order, however the stream was cut. */
  lemma StreamRoundTrip(bodies: seq<seq<Octet>>, chunks: seq<seq<Octet>>)
    requires AllFitting(bodies) && Concat(chunks) == Stream(bodies)
    ensures DeliverFrames(Hunting, chunks) == Sent(bodies)
    ensures DeliverState(Hunting, chunks) == Hunting
  {
    StreamIsUnambiguous(bodies);
    ChunkingIsInvisible(Hunting, chunks);
    StreamInStep(Hunting, bodies);
  }

  // ----- Recovery from garbage -----

  lemma FlagFreeStep(s: State, b: Octet)
    requires b != ADV_FLAG
    ensures FramesOf(Emit(s, b)) == []
    ensures var s' := Next(s, b);
      s' == Hunting || (s'.InFrame? && (s'.acc != [] || s'.esc) && (s'.esc ==> b == ADV_ESC))
  {
    hide Close, Complement;
  }

  /** Octets without a flag deliver nothing, and leave no escape pending unless they end in one. */
  lemma {:induction false} FlagFreeRun(s: State, w: seq<Octet>)
    requires w != [] && ADV_FLAG !in w && w[|w| - 1] != ADV_ESC
    ensures Frames(s, w) == []
    ensures After(s, w) == Hunting || (After(s, w).InFrame? && After(s, w).acc != [] && !After(s, w).esc)
    decreases |w|
  {
    hide Next, Emit, FramesOf;
    FlagFreeStep(s, w[0]);
    if |w| == 1 {
      assert w[1..] == [];
    } else {
      FlagFreeRun(Next(s, w[0]), w[1..]);
    }
  }

  /** Behind octets without a flag, a flag brings any receiver in step, at the cost of one frame at most. */
  lemma FlagResyncs(s: State)
    requires s == Hunting || (s.InFrame? && s.acc != [] && !s.esc)
    ensures InStep(Next(s, ADV_FLAG)) && |FramesOf(Emit(s, ADV_FLAG))| <= 1
  {
    hide Close;
  }

  /** The rest of a frame behind its first flag does that. */
  lemma TailResyncs(s: State, body: seq<Octet>)
    requires Fitting(body)
    ensures InStep(After(s, Stuff(body) + [ADV_FLAG]))
    ensures |Frames(s, Stuff(body) + [ADV_FLAG])| <= 1
  {
    hide Stuff, Next, Emit, FramesOf, After, Frames, InStep, Fcs.Accepts, Covered;
    StuffIsClean(body);
    assert ADV_FLAG !in Stuff(body);
    FlagFreeRun(s, Stuff(body));
    var s' := After(s, Stuff(body));
    FlagResyncs(s');
    AfterAppend(s, Stuff(body), [ADV_FLAG]);
    FramesAppend(s, Stuff(body), [ADV_FLAG]);
    OneOctet(s', ADV_FLAG);
    assert InStep(After(s, Stuff(body) + [ADV_FLAG]));
    assert |Frames(s, Stuff(body) + [ADV_FLAG])| <= 1;
  }

  lemma HuntingRun(w: seq<Octet>)
    requires ADV_FLAG !in w
    ensures After(Hunting, w) == Hunting && Frames(Hunting, w) == []
    decreases |w|
  {
    if w != [] {
      HuntingRun(w[1..]);
      assert FramesOf(Emit(Hunting, w[0])) == [];
    }
  }

  /** A flag delivers one frame at most, and then leaves the receiver hunting. */
  lemma FlagDelivers(s: State)
    ensures |FramesOf(Emit(s, ADV_FLAG))| <= 1 && FramesOf(Emit(Hunting, ADV_FLAG)) == []
    ensures FramesOf(Emit(s, ADV_FLAG)) != [] ==> Next(s, ADV_FLAG) == Hunting
  {
    hide Close;
  }

  /** A whole frame does the same from every state. */
  lemma WireResyncs(s: State, body: seq<Octet>)
    requires Fitting(body)
    ensures InStep(After(s, Wire(body))) && |Frames(s, Wire(body))| <= 1
  {
    hide Stuff, Next, Emit, FramesOf, After, Frames, InStep, Fitting;
    var tail := Stuff(body) + [ADV_FLAG];
    assert Wire(body) == [ADV_FLAG] + tail;
    var s' := Next(s, ADV_FLAG);
    OneOctet(s, ADV_FLAG);
    AfterAppend(s, [ADV_FLAG], tail);
    FramesAppend(s, [ADV_FLAG], tail);
    TailResyncs(s', body);
    FlagDelivers(s);
    if FramesOf(Emit(s, ADV_FLAG)) != [] {
      StuffIsClean(body);
      HuntingRun(Stuff(body));
      FramesAppend(Hunting, Stuff(body), [ADV_FLAG]);
      OneOctet(Hunting, ADV_FLAG);
    }
    assert InStep(After(s, Wire(body))) && |Frames(s, Wire(body))| <= 1;
  }

  /** Behind a frame that brought the receiver in step all later frames are delivered. */
  lemma StreamBehindTail(s: State, tail: seq<Octet>, bodies: seq<seq<Octet>>)
    requires AllFitting(bodies)
    requires InStep(After(s, tail)) && |Frames(s, tail)| <= 1
    ensures Frames(s, tail + Stream(bodies)) == Frames(s, tail) + Sent(bodies)
    ensures InStep(After(s, tail + Stream(bodies)))
  {
    hide After, Frames, Sent, Stream;
    AfterAppend(s, tail, Stream(bodies));
    FramesAppend(s, tail, Stream(bodies));
    StreamInStep(After(s, tail), bodies);
  }

  /** `all` is at most one frame followed by the frames of all bodies but the first. */
  predicate AllButFirst(all: seq<Frame>, bodies: seq<seq<Octet>>)
    requires bodies != []
  {
    var rest := Sent(bodies[1..]);
    |rest| <= |all| <= |rest| + 1 && all[|all| - |rest|..] == rest
  }

  lemma AllButFirstIntro(first: seq<Frame>, bodies: seq<seq<Octet>>)
    requires bodies != [] && |first| <= 1
    ensures AllButFirst(first + Sent(bodies[1..]), bodies)
  {}

  lemma StraightStream(s: State, bodies: seq<seq<Octet>>)
    requires AllFitting(bodies) && bodies != []
    ensures AllButFirst(Frames(s, Stream(bodies)), bodies) && InStep(After(s, Stream(bodies)))
  {
    hide After, Frames, Sent, Wire;
    WireResyncs(s, bodies[0]);
    StreamBehindTail(s, Wire(bodies[0]), bodies[1..]);
    AllButFirstIntro(Frames(s, Wire(bodies[0])), bodies);
  }

  lemma SkippedStream(s: State, bodies: seq<seq<Octet>>)
    requires AllFitting(bodies) && bodies != []
    ensures Stream(bodies) != [] && AllButFirst(Frames(s, Stream(bodies)[1..]), bodies)
    ensures InStep(After(s, Stream(bodies)[1..]))
  {
    hide After, Frames, Sent;
    var tail := Stuff(bodies[0]) + [ADV_FLAG];
    TailResyncs(s, bodies[0]);
    StreamBehindTail(s, tail, bodies[1..]);
    AllButFirstIntro(Frames(s, tail), bodies);
    assert Stream(bodies) == [ADV_FLAG] + (tail + Stream(bodies[1..]));
  }

  lemma SuffixNoEscFlag(a: seq<Octet>, b: seq<Octet>)
    requires NoEscFlag(a + b)
    ensures NoEscFlag(b)
    ensures a != [] && b != [] && a[|a| - 1] == ADV_ESC ==> b[0] != ADV_FLAG
  {
    var w := a + b;
    forall i | 0 <= i < |b| - 1 && b[i] == ADV_ESC
      ensures b[i + 1] != ADV_FLAG
    {
      assert w[|a| + i] == b[i] && w[|a| + i + 1] == b[i + 1];
    }
    if a != [] && b != [] {
      assert w[|a| - 1] == a[|a| - 1] && w[|a| - 1 + 1] == b[0];
    }
  }

  lemma SecondIsNoFlag(bodies: seq<seq<Octet>>)
    requires AllFitting(bodies) && bodies != []
    ensures |Stream(bodies)| > 1 && Stream(bodies)[1] != ADV_FLAG
  {
    StuffIsClean(bodies[0]);
    assert Stream(bodies)[1] == Wire(bodies[0])[1] == Stuff(bodies[0])[0];
  }

  /** A stream whose first piece is read on entry to a call, from any state. */
  lemma {:induction false} DeliverStream(s: State, chunks: seq<seq<Octet>>, bodies: seq<seq<Octet>>)
    requires AllFitting(bodies) && bodies != [] && Concat(chunks) == Stream(bodies)
    ensures AllButFirst(DeliverFrames(s, chunks), bodies) && InStep(DeliverState(s, chunks))
    decreases |chunks|
  {
    hide After, Frames, AllButFirst, Stream, AllFitting, NoEscFlag;
    StreamIsUnambiguous(bodies);
    if s != HAZARD {
      ChunkingIsInvisible(s, chunks);
      StraightStream(s, bodies);
    } else if chunks[0] == [] {
      NothingRead(s);
      assert Concat(chunks) == Concat(chunks[1..]);
      DeliverStream(s, chunks[1..], bodies);
      assert [] + DeliverFrames(s, chunks[1..]) == DeliverFrames(s, chunks[1..]);
    } else {
      var c, w := chunks[0], Stream(bodies);
      var behind := [c[1..]] + chunks[1..];
      assert c[0] == w[0];
      assert behind[1..] == chunks[1..];
      assert Concat(behind) == w[1..];
      SecondIsNoFlag(bodies);
      assert c[1..] == [] || c[1..][0] == w[1];
      SkipOneFlag(c);
      assert w == [w[0]] + w[1..];
      SuffixNoEscFlag([w[0]], w[1..]);
      ChunkingIsInvisible(s, behind);
      SkippedStream(s, bodies);
    }
  }

  lemma NothingRead(s: State)
    ensures After(s, Enter(s, [])) == s && Frames(s, Enter(s, [])) == []
  {}

  lemma SkipOneFlag(c: seq<Octet>)
    requires c != [] && c[0] == ADV_FLAG && (|c| == 1 || c[1] != ADV_FLAG)
    ensures Enter(HAZARD, c) == c[1..] == Enter(HAZARD, c[1..])
  {
    assert SkipFlags(c[1..]) == c[1..];
  }

  /** The pieces cut down to the first `n` octets. */
  function Cut(chunks: seq<seq<Octet>>, n: nat): seq<seq<Octet>>
    decreases |chunks|
  {
    if chunks == [] || n == 0 then []
    else if |chunks[0]| <= n then [chunks[0]] + Cut(chunks[1..], n - |chunks[0]|)
    else [chunks[0][..n]]
  }

  lemma {:induction false} SkipFlagsAppend(g: seq<Octet>, t: seq<Octet>)
    ensures SkipFlags(g + t) == if SkipFlags(g) == [] then SkipFlags(t) else SkipFlags(g) + t
    decreases |g|
  {
    if g == [] {
      assert g + t == t;
    } else {
      assert (g + t)[1..] == g[1..] + t;
      SkipFlagsAppend(g[1..], t);
    }
  }

  /** The rest of a stream whose first octets `t` are read without a call boundary before them. */
  lemma RestOfStream(s: State, t: seq<Octet>, rest: seq<seq<Octet>>, bodies: seq<seq<Octet>>)
    requires AllFitting(bodies) && bodies != [] && t != [] && t + Concat(rest) == Stream(bodies)
    ensures Frames(s, t) + DeliverFrames(After(s, t), rest) == Frames(s, Stream(bodies))
    ensures DeliverState(After(s, t), rest) == After(s, Stream(bodies))
  {
    hide After, Frames, Stream, AllFitting, NoEscFlag;
    StreamIsUnambiguous(bodies);
    SuffixNoEscFlag(t, Concat(rest));
    if After(s, t) == HAZARD && t[|t| - 1] != ADV_ESC {
      PendingEscape(s, t);
    }
    ChunkingIsInvisible(After(s, t), rest);
    AfterAppend(s, t, Concat(rest));
    FramesAppend(s, t, Concat(rest));
  }

  lemma FirstPiece(s: State, c: seq<Octet>, rest: seq<seq<Octet>>)
    ensures DeliverFrames(s, [c] + rest) == Frames(s, Enter(s, c)) + DeliverFrames(After(s, Enter(s, c)), rest)
    ensures DeliverState(s, [c] + rest) == DeliverState(After(s, Enter(s, c)), rest)
  {
    hide After, Frames, Enter;
    assert ([c] + rest)[1..] == rest;
  }

  /** A piece that holds the end of the garbage and the beginning of the stream. */
  lemma StraddlingPiece(s: State, garbage: seq<Octet>, t: seq<Octet>, rest: seq<seq<Octet>>, bodies: seq<seq<Octet>>)
    returns (part: seq<Frame>)
    requires AllFitting(bodies) && bodies != [] && t != [] && t + Concat(rest) == Stream(bodies)
    ensures InStep(DeliverState(s, [garbage + t] + rest))
    ensures DeliverFrames(s, [garbage + t] + rest) == Frames(s, Enter(s, garbage)) + part
    ensures AllButFirst(part, bodies)
  {
    hide After, Frames, AllButFirst, Stream, AllFitting, SkipFlags, DeliverFrames, DeliverState;
    var c, g := garbage + t, Enter(s, garbage);
    FirstPiece(s, c, rest);
    SkipFlagsAppend(garbage, t);
    if s.InFrame? && s.acc == [] && g == [] {
      SkipNothing();
      NothingRead(s);
      FirstPiece(s, t, rest);
      assert ([t] + rest)[1..] == rest;
      DeliverStream(s, [t] + rest, bodies);
      part := DeliverFrames(s, [t] + rest);
    } else {
      var s' := After(s, g);
      assert Enter(s, c) == g + t;
      AfterAppend(s, g, t);
      FramesAppend(s, g, t);
      RestOfStream(s', t, rest, bodies);
      StraightStream(s', bodies);
      part := Frames(s', Stream(bodies));
    }
  }

  lemma SkipNothing()
    ensures SkipFlags([]) == []
  {}

  /** A piece that is garbage throughout adds the same to both sides. */
  lemma GarbagePiece(s: State, c: seq<Octet>, rest: seq<seq<Octet>>, n: nat, part: seq<Frame>)
    requires var s' := After(s, Enter(s, c)); DeliverFrames(s', rest) == DeliverFrames(s', Cut(rest, n)) + part
    requires c == [] ==> n > 0
    ensures DeliverFrames(s, [c] + rest) == DeliverFrames(s, Cut([c] + rest, |c| + n)) + part
  {
    hide After, Frames, Enter, DeliverFrames;
    var s' := After(s, Enter(s, c));
    assert ([c] + rest)[1..] == rest;
    assert Cut([c] + rest, |c| + n) == [c] + Cut(rest, n);
    FirstPiece(s, c, rest);
    FirstPiece(s, c, Cut(rest, n));
    var x, y := Frames(s, Enter(s, c)), DeliverFrames(s', Cut(rest, n));
    assert x + (y + part) == (x + y) + part;
    assert DeliverFrames(s, [c] + rest) == DeliverFrames(s, Cut([c] + rest, |c| + n)) + part;
  }

  /** Two ways to cut one sequence in two. */
  lemma TwoCuts(c: seq<Octet>, r: seq<Octet>, g: seq<Octet>, t: seq<Octet>)
    requires c + r == g + t
    ensures |c| <= |g| ==> g == c + g[|c|..] && r == g[|c|..] + t
    ensures |c| > |g| ==> c == g + c[|g|..] && t == c[|g|..] + r
  {
    var w := c + r;
    assert w[..|c|] == c && w[|c|..] == r;
    if |c| <= |g| {
      assert w[..|g|] == g && w[|g|..] == t;
      assert g[..|c|] == w[..|c|];
    } else {
      assert c[..|g|] == w[..|g|] == g;
      assert w[|g|..] == t;
    }
  }

  /**
   Whatever the receiver went through before, it loses at most the first frame of the stream, and
   delivers at most one frame in its place; every later frame comes back in order.
   */
  lemma {:induction false} SelfStabilisation(s: State, garbage: seq<Octet>, bodies: seq<seq<Octet>>,
      chunks: seq<seq<Octet>>)
    requires AllFitting(bodies) && bodies != [] && Concat(chunks) == garbage + Stream(bodies)
    ensures InStep(DeliverState(s, chunks))
    ensures exists part ::
      && DeliverFrames(s, chunks) == DeliverFrames(s, Cut(chunks, |garbage|)) + part
      && AllButFirst(part, bodies)
    decreases |chunks|
  {
    hide After, Frames, AllButFirst, Stream, AllFitting, SkipFlags, DeliverFrames, DeliverState, Enter, InStep;
    if garbage == [] {
      assert garbage + Stream(bodies) == Stream(bodies);
      DeliverStream(s, chunks, bodies);
      NothingDelivered(s);
      var part := DeliverFrames(s, chunks);
      assert Cut(chunks, 0) == [] && [] + part == part;
      assert DeliverFrames(s, chunks) == DeliverFrames(s, Cut(chunks, |garbage|)) + part && AllButFirst(part, bodies);
    } else {
      var c, rest := chunks[0], chunks[1..];
      assert chunks == [c] + rest;
      TwoCuts(c, Concat(rest), garbage, Stream(bodies));
      if |c| <= |garbage| {
        var n := |garbage| - |c|;
        var s' := After(s, Enter(s, c));
        FirstPiece(s, c, rest);
        SelfStabilisation(s', garbage[|c|..], bodies, rest);
        var part :| DeliverFrames(s', rest) == DeliverFrames(s', Cut(rest, n)) + part && AllButFirst(part, bodies);
        GarbagePiece(s, c, rest, n, part);
        assert DeliverFrames(s, chunks) == DeliverFrames(s, Cut(chunks, |garbage|)) + part && AllButFirst(part, bodies);
      } else {
        var t := c[|garbage|..];
        var part := StraddlingPiece(s, garbage, t, rest, bodies);
        assert Cut(chunks, |garbage|) == [garbage];
        OnePiece(s, garbage);
        assert DeliverFrames(s, chunks) == DeliverFrames(s, Cut(chunks, |garbage|)) + part && AllButFirst(part, bodies);
      }
    }
    assert InStep(DeliverState(s, chunks));
  }

  lemma NothingDelivered(s: State)
    ensures DeliverFrames(s, []) == []
  {}

  lemma OnePiece(s: State, c: seq<Octet>)
    ensures DeliverFrames(s, [c]) == Frames(s, Enter(s, c))
  {
    hide Frames, Enter;
    assert [c][1..] == [];
  }

  /**
   Behind an opening escape it matters whether a flag is read or skipped: here one way holds a frame, the other
   none.
   */
  lemma HazardMatters(control: Octet)
    requires !FrameIs(TYPE_UI, control) && !Escaped(control)
    ensures var late := [control] + Stuff([Fcs.FrameFcs([0x5E, control])]);
      && Frames(HAZARD, [ADV_FLAG] + late + [ADV_FLAG]) == [Frame(DecodeAddress(0x5E), control, [])]
      && Frames(HAZARD, late + [ADV_FLAG]) == []
  {
    hide Fcs.Fold, After, Frames, Stuff, FrameIs;
    var fcs := Fcs.FrameFcs([0x5E, control]);
    var body, late := [0x5E, control, fcs], [control] + Stuff([fcs]);
    assert body[..2] == [0x5E, control];
    Fcs.ResidueAcceptsOnlyFrameFcs([0x5E, control], fcs);
    assert BodyFrame(body) == Frame(DecodeAddress(0x5E), control, []);
    StuffedPair(control, fcs);
    StoreEscaped(ADV_FLAG);
    StuffedIsStored([0x5E], [control, fcs]);
    assert [0x5E] + [control, fcs] == body;
    ClosingFlag(body);
    RunThrough(HAZARD, [ADV_FLAG], late, [ADV_FLAG]);
    StoreEscaped(control);
    StuffedIsStored([Complement(control)], [fcs]);
    RunThrough(HAZARD, [control], Stuff([fcs]), [ADV_FLAG]);
    ShortFrame(Complement(control), fcs);
  }

  /**
   The cutting does show where an escape opens a frame directly before a flag: read in one piece these
   octets hold a valid frame, cut between the escape and the flag they hold none.
   */
  lemma CutBehindEscapeLosesFrame(control: Octet)
    requires !FrameIs(TYPE_UI, control) && !Escaped(control)
    ensures var fcs := Fcs.FrameFcs([0x5E, control]);
      var head, tail := [ADV_FLAG, ADV_ESC], [ADV_FLAG, control] + Stuff([fcs]) + [ADV_FLAG];
      && DeliverFrames(Hunting, [head + tail]) == [Frame(DecodeAddress(0x5E), control, [])]
      && DeliverFrames(Hunting, [head, tail]) == []
  {
    hide Fcs.FrameFcs, After, Frames, Stuff, FrameIs;
    var fcs := Fcs.FrameFcs([0x5E, control]);
    var head, late := [ADV_FLAG, ADV_ESC], [control] + Stuff([fcs]);
    var tail := [ADV_FLAG] + late + [ADV_FLAG];
    assert tail == [ADV_FLAG, control] + Stuff([fcs]) + [ADV_FLAG];
    HazardMatters(control);
    EscapePending();
    FramesAppend(Hunting, head, tail);
    OnePiece(Hunting, head + tail);
    SkipOneFlag(tail);
    assert [head, tail] == [head] + [tail];
    FirstPiece(Hunting, head, [tail]);
    OnePiece(HAZARD, tail);
    assert tail[1..] == late + [ADV_FLAG];
  }

  lemma StuffedPair(control: Octet, fcs: Octet)
    requires !Escaped(control)
    ensures Stuff([control, fcs]) == [control] + Stuff([fcs])
  {
    assert [control, fcs][1..] == [fcs];
  }

  lemma EscapePending()
    ensures After(Hunting, [ADV_FLAG, ADV_ESC]) == HAZARD && Frames(Hunting, [ADV_FLAG, ADV_ESC]) == []
  {
    var w := [ADV_FLAG, ADV_ESC];
    assert w[1..] == [ADV_ESC];
    OneOctet(InFrame([], false), ADV_ESC);
  }

  lemma StoreEscaped(b: Octet)
    ensures After(HAZARD, [b]) == InFrame([Complement(b)], false) && Frames(HAZARD, [b]) == []
  {
    OneOctet(HAZARD, b);
    assert [] + [Complement(b)] == [Complement(b)];
  }

  lemma ShortFrame(x: Octet, y: Octet)
    ensures Frames(InFrame([x] + [y], false), [ADV_FLAG]) == []
  {
    OneOctet(InFrame([x] + [y], false), ADV_FLAG);
  }

  // ----- What the sender puts on the line -----

  /** A body that a receiver accepts. */
  predicate WellFormed(body: seq<Octet>) {
    |body| <= BUFFER_SIZE && BodyOk(body)
  }

  const MAX_PAYLOAD := BUFFER_SIZE - 3

  function Head(f: Frame): seq<Octet> {
    [Address(f.channel), f.control]
  }

  /** Address, control, payload and the check octet, which covers the first two only. */
  function Body(f: Frame): seq<Octet> {
    Head(f) + f.data + [Fcs.FrameFcs(Head(f))]
  }

  /** Sender and receiver come to the same check octet. */
  predicate FcsAgrees(f: Frame) {
    Fcs.Agrees(Head(f), f)
  }

  /** A frame that fits is accepted unless it is a UI frame whose payload disturbs the FCS, and reads back as sent. */
  lemma BodyAcceptedIff(f: Frame)
    requires f.channel < 64 && |f.data| <= MAX_PAYLOAD
    ensures WellFormed(Body(f)) <==> FcsAgrees(f)
    ensures BodyFrame(Body(f)) == f
  {
    hide Fcs.Accepts, Fcs.FrameFcs, Address, DecodeAddress;
    var body, head, fcs := Body(f), Head(f), Fcs.FrameFcs(Head(f));
    AddressFacts(f.channel);
    assert body[|body| - 1] == fcs && body[..2] == head && body[..|body| - 1] == head + f.data;
    assert body[2..|body| - 1] == f.data;
    Fcs.ResidueAcceptsOnlyFrameFcs(head, fcs);
    Fcs.ResidueAcceptsOnlyFrameFcs(head + f.data, fcs);
  }

  predicate Fits(f: Frame) {
    f.channel < 64 && |f.data| <= MAX_PAYLOAD
  }

  predicate Sendable(f: Frame) {
    Fits(f) && FcsAgrees(f)
  }

  /** The frames that the receiver accepts. */
  function Agreeing(frames: seq<Frame>): seq<Frame> {
    if frames == [] then [] else (if FcsAgrees(frames[0]) then [frames[0]] else []) + Agreeing(frames[1..])
  }

  function Bodies(frames: seq<Frame>): (bodies: seq<seq<Octet>>)
    ensures |bodies| == |frames|
  {
    if frames == [] then [] else [Body(frames[0])] + Bodies(frames[1..])
  }

  lemma {:induction false} BodiesAreFrames(frames: seq<Frame>)
    requires forall i :: 0 <= i < |frames| ==> Fits(frames[i])
    ensures AllFitting(Bodies(frames)) && Sent(Bodies(frames)) == Agreeing(frames)
    decreases |frames|
  {
    if frames != [] {
      BodiesAreFrames(frames[1..]);
      BodyAcceptedIff(frames[0]);
      hide FcsAgrees, Fcs.FrameFcs, Fcs.Accepts, BodyFrame, Covered;
      var bodies := Bodies(frames);
      assert bodies[1..] == Bodies(frames[1..]);
      forall i | 0 <= i < |bodies|
        ensures Fitting(bodies[i])
      {
        assert i > 0 ==> bodies[i] == bodies[1..][i - 1];
      }
      assert Accepted(bodies[0]) == if FcsAgrees(frames[0]) then [frames[0]] else [];
    }
  }

  lemma {:induction false} AllAgree(frames: seq<Frame>)
    requires forall i :: 0 <= i < |frames| ==> Sendable(frames[i])
    ensures Agreeing(frames) == frames
  {
    hide FcsAgrees;
    if frames != [] {
      AllAgree(frames[1..]);
      assert [frames[0]] + frames[1..] == frames;
    }
  }

  /**
   From sender to receiver: of the frames written those whose check octets agree come out of the decoder, all of them
   and in order, for every cutting.
   */
  lemma EndToEnd(frames: seq<Frame>, chunks: seq<seq<Octet>>)
    requires forall i :: 0 <= i < |frames| ==> Fits(frames[i])
    requires Concat(chunks) == Stream(Bodies(frames))
    ensures DeliverFrames(Hunting, chunks) == Agreeing(frames) && DeliverState(Hunting, chunks) == Hunting
    ensures (forall i :: 0 <= i < |frames| ==> Sendable(frames[i])) ==> DeliverFrames(Hunting, chunks) == frames
  {
    hide FcsAgrees, Stream, Bodies, DeliverFrames, DeliverState, Sent;
    BodiesAreFrames(frames);
    StreamRoundTrip(Bodies(frames), chunks);
    if forall i :: 0 <= i < |frames| ==> Sendable(frames[i]) {
      AllAgree(frames);
    }
  }
}

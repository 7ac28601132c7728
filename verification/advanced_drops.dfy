/**
 What the advanced option's receiver counts as dropped: each frame whose check octet is wrong, and each that is longer
 than the buffer, once.
 */
module AdvancedDrops {
  import opened Octets
  import opened Stuffing
  import opened AdvancedSpec
  import opened AdvancedStream

  /** How many frames are dropped while `w` is read. */
  function Drops(s: State, w: seq<Octet>): nat
    decreases |w|
  {
    if w == [] then 0 else (if Emit(s, w[0]).Dropped? then 1 else 0) + Drops(Next(s, w[0]), w[1..])
  }

  lemma {:induction false} DropsAppend(s: State, a: seq<Octet>, b: seq<Octet>)
    ensures Drops(s, a + b) == Drops(s, a) + Drops(After(s, a), b)
    decreases |a|
  {
    hide Next, Emit;
    if a == [] {
      assert a + b == b;
    } else {
      assert (a + b)[1..] == a[1..] + b;
      DropsAppend(Next(s, a[0]), a[1..], b);
    }
  }

  /** A call counts the frames it drops. */
  lemma {:induction false} ScanDrops(s: State, w: seq<Octet>, dropped: nat)
    ensures var c := Scan(s, w, dropped); c.dropped + Drops(c.state, c.rest) == dropped + Drops(s, w)
    decreases |w|
  {
    hide Next, Emit;
    if w != [] && !Emit(s, w[0]).Got? {
      ScanDrops(Next(s, w[0]), w[1..], if Emit(s, w[0]).Dropped? then dropped + 1 else dropped);
    }
  }

  lemma {:induction false} FlagsDropNothing(w: seq<Octet>)
    ensures Drops(InFrame([], false), SkipFlags(w)) == Drops(InFrame([], false), w)
    decreases |w|
  {
    if w != [] && w[0] == ADV_FLAG {
      FlagsDropNothing(w[1..]);
    }
  }

  lemma EntryDrops(s: State, w: seq<Octet>)
    requires s != HAZARD || w == [] || w[0] != ADV_FLAG
    ensures Drops(s, Enter(s, w)) == Drops(s, w)
  {
    hide Drops;
    FlagsDropNothing(w);
  }

  // ----- Reception in pieces -----

  function DeliverDrops(s: State, chunks: seq<seq<Octet>>): nat
    decreases |chunks|
  {
    if chunks == [] then 0
    else
      var w := Enter(s, chunks[0]);
      Drops(s, w) + DeliverDrops(After(s, w), chunks[1..])
  }

  lemma {:induction false} ChunksDrop(s: State, chunks: seq<seq<Octet>>)
    requires NoEscFlag(Concat(chunks))
    requires s != HAZARD || Concat(chunks) == [] || Concat(chunks)[0] != ADV_FLAG
    ensures DeliverDrops(s, chunks) == Drops(s, Concat(chunks))
    decreases |chunks|
  {
    hide Next, Emit, Drops, After, NoEscFlag;
    if chunks == [] {
      assert Drops(s, []) == 0 by { NothingDrops(s); }
    } else {
      var c, rest := chunks[0], Concat(chunks[1..]);
      assert Concat(chunks) == c + rest;
      EntryDrops(s, c);
      EntryIsIdle(s, c);
      DropsAppend(s, c, rest);
      BehindPiece(s, c, rest);
      ChunksDrop(After(s, c), chunks[1..]);
    }
  }

  lemma NothingDrops(s: State)
    ensures Drops(s, []) == 0 && After(s, []) == s
  {}

  /** Behind a piece the rest is again without an escape before a flag, and no such pair stands across the cut. */
  lemma BehindPiece(s: State, c: seq<Octet>, rest: seq<Octet>)
    requires NoEscFlag(c + rest) && (s != HAZARD || c + rest == [] || (c + rest)[0] != ADV_FLAG)
    ensures NoEscFlag(rest) && (After(s, c) != HAZARD || rest == [] || rest[0] != ADV_FLAG)
  {
    hide Next, After;
    SuffixNoEscFlag(c, rest);
    if c == [] {
      NothingDrops(s);
      assert c + rest == rest;
    } else if After(s, c) == HAZARD && rest != [] && c[|c| - 1] != ADV_ESC {
      PendingEscape(s, c);
    }
  }

  // ----- The stream that is sent -----

  /** Long enough for a frame, and not accepted. */
  predicate Rejected(body: seq<Octet>) {
    |body| >= 3 && Accepted(body) == []
  }

  function RejectedCount(bodies: seq<seq<Octet>>): nat {
    if bodies == [] then 0 else (if Rejected(bodies[0]) then 1 else 0) + RejectedCount(bodies[1..])
  }

  lemma {:induction false} StoringDropsNothing(acc: seq<Octet>, x: seq<Octet>)
    requires |acc| + |x| <= BUFFER_SIZE
    ensures Drops(InFrame(acc, false), Stuff(x)) == 0
    decreases |x|
  {
    hide Next, Emit, StuffOctet, Drops, Stuff, After;
    if x == [] {
      StuffNone();
      NothingDrops(InFrame(acc, false));
    } else {
      StuffCons(x);
      StoreOne(acc, x[0]);
      OneDropsNothing(acc, x[0]);
      DropsAppend(InFrame(acc, false), StuffOctet(x[0]), Stuff(x[1..]));
      StoringDropsNothing(acc + [x[0]], x[1..]);
    }
  }

  lemma StuffNone()
    ensures Stuff([]) == []
  {}

  lemma OneDropsNothing(acc: seq<Octet>, b: Octet)
    requires |acc| < BUFFER_SIZE
    ensures Drops(InFrame(acc, false), StuffOctet(b)) == 0
  {
    var w := StuffOctet(b);
    ComplementFacts(b);
    if Escaped(b) {
      assert w[1..] == [Complement(b)] && w[1..][1..] == [];
      assert Drops(InFrame(acc, true), w[1..]) == Drops(InFrame(acc + [b], false), []);
    } else {
      assert w[1..] == [];
    }
  }

  lemma OneDrop(s: State, b: Octet)
    ensures Drops(s, [b]) == if Emit(s, b).Dropped? then 1 else 0
  {
    hide Emit, Next;
    assert [b][1..] == [];
  }

  lemma ThroughDrops(s: State, a: seq<Octet>, b: seq<Octet>, c: seq<Octet>)
    ensures Drops(s, a + b + c) == Drops(s, a) + Drops(After(s, a), b) + Drops(After(After(s, a), b), c)
  {
    hide Drops, After;
    DropsAppend(s, a + b, c);
    DropsAppend(s, a, b);
    AfterAppend(s, a, b);
  }

  lemma WireDrops(s: State, body: seq<Octet>)
    requires InStep(s) && Fitting(body)
    ensures Drops(s, Wire(body)) == if Rejected(body) then 1 else 0
  {
    hide Drops, After, Stuff, BodyOk;
    OpeningFlag(s);
    OneDrop(s, ADV_FLAG);
    StuffedIsStored([], body);
    StoringDropsNothing([], body);
    assert [] + body == body;
    OneDrop(InFrame(body, false), ADV_FLAG);
    ThroughDrops(s, [ADV_FLAG], Stuff(body), [ADV_FLAG]);
  }

  lemma {:induction false} StreamDrops(s: State, bodies: seq<seq<Octet>>)
    requires InStep(s) && AllFitting(bodies)
    ensures Drops(s, Stream(bodies)) == RejectedCount(bodies)
    decreases |bodies|
  {
    hide Next, Emit, Wire, Drops, Rejected, After;
    if bodies == [] {
      NothingDrops(s);
    } else {
      WireDrops(s, bodies[0]);
      WireInStep(s, bodies[0]);
      DropsAppend(s, Wire(bodies[0]), Stream(bodies[1..]));
      StreamDrops(Hunting, bodies[1..]);
    }
  }

  lemma {:induction false} SentOrRejected(bodies: seq<seq<Octet>>)
    requires forall i :: 0 <= i < |bodies| ==> |bodies[i]| >= 3
    ensures |Sent(bodies)| + RejectedCount(bodies) == |bodies|
  {
    hide Close;
    if bodies != [] {
      SentOrRejected(bodies[1..]);
    }
  }

  /**
   In step, for every cutting into pieces that arrive between calls: exactly the frames that are not accepted are
   counted as dropped, so each frame is counted once.
   */
  lemma EveryFrameIsCounted(bodies: seq<seq<Octet>>, chunks: seq<seq<Octet>>)
    requires AllFitting(bodies) && Concat(chunks) == Stream(bodies)
    ensures DeliverDrops(Hunting, chunks) == RejectedCount(bodies)
    ensures (forall i :: 0 <= i < |bodies| ==> |bodies[i]| >= 3) ==>
      |DeliverFrames(Hunting, chunks)| + DeliverDrops(Hunting, chunks) == |bodies|
  {
    hide Stream, Drops, Wire;
    StreamIsUnambiguous(bodies);
    ChunksDrop(Hunting, chunks);
    StreamDrops(Hunting, bodies);
    StreamRoundTrip(bodies, chunks);
    if forall i :: 0 <= i < |bodies| ==> |bodies[i]| >= 3 {
      SentOrRejected(bodies);
    }
  }

  // ----- Frames longer than the buffer -----

  lemma {:induction false} HuntingDropsNothing(w: seq<Octet>)
    requires ADV_FLAG !in w
    ensures Drops(Hunting, w) == 0
    decreases |w|
  {
    if w != [] {
      HuntingDropsNothing(w[1..]);
    }
  }

  /** With the buffer full one more octet throws the frame away, and what follows up to the next flag is passed over. */
  lemma FullBuffer(acc: seq<Octet>, w: seq<Octet>)
    requires |acc| == BUFFER_SIZE && w != [] && ADV_FLAG !in w
    ensures After(InFrame(acc, false), w) == Hunting && Frames(InFrame(acc, false), w) == []
    ensures Drops(InFrame(acc, false), w) == 1
  {
    assert w[0] != ADV_FLAG && ADV_FLAG !in w[1..];
    var s := InFrame(acc, false);
    assert Next(s, w[0]) == Hunting && Emit(s, w[0]) == Dropped;
    HuntingRun(w[1..]);
    HuntingDropsNothing(w[1..]);
  }

  /**
   A frame longer than the buffer delivers nothing and is counted once. Its closing flag is taken for an opening one,
   so the receiver is in step for the next.
   */
  lemma OversizedIsDropped(s: State, body: seq<Octet>)
    requires InStep(s) && |body| > BUFFER_SIZE
    ensures Frames(s, Wire(body)) == [] && Drops(s, Wire(body)) == 1 && After(s, Wire(body)) == InFrame([], false)
  {
    hide Drops, After, Frames, Stuff;
    var x, y := body[..BUFFER_SIZE], body[BUFFER_SIZE..];
    assert body == x + y;
    StuffAppend(x, y);
    StuffHasNoFlag(y);
    OpeningFlag(s);
    OneDrop(s, ADV_FLAG);
    StuffedIsStored([], x);
    StoringDropsNothing([], x);
    assert [] + x == x;
    FullBuffer(x, Stuff(y));
    OneOctet(Hunting, ADV_FLAG);
    OneDrop(Hunting, ADV_FLAG);
    assert Wire(body) == ([ADV_FLAG] + Stuff(x)) + Stuff(y) + [ADV_FLAG];
    RunThrough(s, [ADV_FLAG] + Stuff(x), Stuff(y), [ADV_FLAG]);
    ThroughDrops(s, [ADV_FLAG] + Stuff(x), Stuff(y), [ADV_FLAG]);
    AfterAppend(s, [ADV_FLAG], Stuff(x));
    FramesAppend(s, [ADV_FLAG], Stuff(x));
    DropsAppend(s, [ADV_FLAG], Stuff(x));
  }

  /** Of a stream of frames short and long: those that fit and are accepted. */
  function SentOfAll(bodies: seq<seq<Octet>>): seq<Frame> {
    if bodies == [] then []
    else (if |bodies[0]| <= BUFFER_SIZE then Accepted(bodies[0]) else []) + SentOfAll(bodies[1..])
  }

  function LostOfAll(bodies: seq<seq<Octet>>): nat {
    if bodies == [] then 0
    else (if |bodies[0]| > BUFFER_SIZE || Rejected(bodies[0]) then 1 else 0) + LostOfAll(bodies[1..])
  }

  /** Whatever their lengths, the frames of a stream are delivered if they fit and are accepted, and counted if not. */
  lemma {:induction false} ShortAndLong(s: State, bodies: seq<seq<Octet>>)
    requires InStep(s) && forall i :: 0 <= i < |bodies| ==> bodies[i] != []
    ensures Frames(s, Stream(bodies)) == SentOfAll(bodies) && Drops(s, Stream(bodies)) == LostOfAll(bodies)
    ensures InStep(After(s, Stream(bodies)))
    decreases |bodies|
  {
    hide Next, Emit, Wire, Drops, Rejected, After, Frames, Accepted;
    if bodies == [] {
      NothingDrops(s);
      NothingRead(s);
    } else {
      var b, rest := bodies[0], Stream(bodies[1..]);
      if |b| <= BUFFER_SIZE {
        WireDrops(s, b);
        WireInStep(s, b);
      } else {
        OversizedIsDropped(s, b);
      }
      AfterAppend(s, Wire(b), rest);
      FramesAppend(s, Wire(b), rest);
      DropsAppend(s, Wire(b), rest);
      ShortAndLong(After(s, Wire(b)), bodies[1..]);
    }
  }
}

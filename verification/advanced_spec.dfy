/**
 The advanced option's receiver as a machine that takes one octet at a time, and what its
 runs have to do with the stream that was sent.
 */
module AdvancedSpec {
  import opened Octets
  import opened Stuffing
  import Fcs

  /** Either looking for a flag, or inside a frame whose unescaped octets so far are `acc`. */
  datatype State = Hunting | InFrame(acc: seq<Octet>, esc: bool)

  /** What closing a frame, or running out of room, amounts to. */
  datatype Event = Nothing | Got(frame: Frame) | Dropped

  /** The octets between the flags that the check octet, the last one, protects. */
  function Covered(body: seq<Octet>): seq<Octet>
    requires |body| >= 3
  {
    if FrameIs(TYPE_UI, body[1]) then body[..|body| - 1] else body[..2]
  }

  predicate BodyOk(body: seq<Octet>) {
    |body| >= 3 && Fcs.Accepts(Covered(body) + [body[|body| - 1]])
  }

  function BodyFrame(body: seq<Octet>): Frame
    requires |body| >= 3
  {
    Frame(DecodeAddress(body[0]), body[1], body[2..|body| - 1])
  }

  function Close(body: seq<Octet>): Event {
    if |body| < 3 then Nothing else if BodyOk(body) then Got(BodyFrame(body)) else Dropped
  }

  function Hunt(b: Octet): State {
    if b == ADV_FLAG then InFrame([], false) else Hunting
  }

  function Next(s: State, b: Octet): State {
    match s
    case Hunting => Hunt(b)
    case InFrame(acc, esc) =>
      if !esc && b == ADV_FLAG then if acc == [] then s else Hunting
      else if |acc| >= BUFFER_SIZE then Hunt(b)
      else if esc then InFrame(acc + [Complement(b)], false)
      else if b == ADV_ESC then InFrame(acc, true)
      else InFrame(acc + [b], false)
  }

  function Emit(s: State, b: Octet): Event {
    match s
    case Hunting => Nothing
    case InFrame(acc, esc) =>
      if !esc && b == ADV_FLAG then if acc == [] then Nothing else Close(acc)
      else if |acc| >= BUFFER_SIZE then Dropped
      else Nothing
  }

  function FramesOf(e: Event): seq<Frame> {
    if e.Got? then [e.frame] else []
  }

  /** The state after the octets of `w`, and the frames delivered on the way. */
  function After(s: State, w: seq<Octet>): State
    decreases |w|
  {
    if w == [] then s else After(Next(s, w[0]), w[1..])
  }

  function Frames(s: State, w: seq<Octet>): seq<Frame>
    decreases |w|
  {
    if w == [] then [] else FramesOf(Emit(s, w[0])) + Frames(Next(s, w[0]), w[1..])
  }

  lemma {:induction false} AfterAppend(s: State, a: seq<Octet>, b: seq<Octet>)
    ensures After(s, a + b) == After(After(s, a), b)
    decreases |a|
  {
    hide Next;
    if a == [] {
      assert a + b == b;
    } else {
      AfterAppend(Next(s, a[0]), a[1..], b);
      assert (a + b)[1..] == a[1..] + b;
    }
  }

  lemma {:induction false} FramesAppend(s: State, a: seq<Octet>, b: seq<Octet>)
    ensures Frames(s, a + b) == Frames(s, a) + Frames(After(s, a), b)
    decreases |a|
  {
    hide Next, Emit, FramesOf;
    if a == [] {
      assert a + b == b;
    } else {
      var s' := Next(s, a[0]);
      FramesAppend(s', a[1..], b);
      assert (a + b)[1..] == a[1..] + b;
      var x, y, z := FramesOf(Emit(s, a[0])), Frames(s', a[1..]), Frames(After(s', a[1..]), b);
      assert x + (y + z) == (x + y) + z;
    }
  }

  // ----- One call of the decoder -----

  function SkipFlags(w: seq<Octet>): seq<Octet> {
    if w != [] && w[0] == ADV_FLAG then SkipFlags(w[1..]) else w
  }

  /** On entry flags are skipped while no octet of the frame is stored, even with an escape pending. */
  function Enter(s: State, w: seq<Octet>): seq<Octet> {
    if s.InFrame? && s.acc == [] then SkipFlags(w) else w
  }

  /** The end of a call: the frame if there was one, the state, what is unread and the drop counter. */
  datatype Call = Call(frame: Option<Frame>, state: State, rest: seq<Octet>, dropped: nat)

  /** Octet after octet until a frame is complete or the buffer is empty. */
  function Scan(s: State, w: seq<Octet>, dropped: nat): Call
    decreases |w|
  {
    if w == [] then Call(None, s, [], dropped)
    else
      match Emit(s, w[0])
      case Got(f) => Call(Some(f), Next(s, w[0]), w[1..], dropped)
      case Dropped => Scan(Next(s, w[0]), w[1..], dropped + 1)
      case Nothing => Scan(Next(s, w[0]), w[1..], dropped)
  }

  function GetFrame(s: State, w: seq<Octet>, dropped: nat): Call {
    Scan(s, Enter(s, w), dropped)
  }

  /** A call consumes from the front, and returns nothing only once everything is read. */
  lemma {:induction false} ScanConsumes(s: State, w: seq<Octet>, dropped: nat)
    ensures var c := Scan(s, w, dropped);
      && |c.rest| <= |w| && c.rest == w[|w| - |c.rest|..]
      && (c.frame.Some? ==> c.state == Hunting && |c.rest| < |w|)
      && (c.frame.None? ==> c.rest == [])
      && After(s, w) == After(c.state, c.rest)
      && Frames(s, w) == (if c.frame.Some? then [c.frame.value] else []) + Frames(c.state, c.rest)
    decreases |w|
  {
    if w != [] {
      var s' := Next(s, w[0]);
      var d := if Emit(s, w[0]).Dropped? then dropped + 1 else dropped;
      if !Emit(s, w[0]).Got? {
        ScanConsumes(s', w[1..], d);
        assert Scan(s, w, dropped) == Scan(s', w[1..], d);
        assert FramesOf(Emit(s, w[0])) == [];
      } else {
        assert s' == Hunting;
      }
    }
  }

  // ----- Step by step -----

  lemma {:induction false} SkippingIsScanning(w: seq<Octet>, dropped: nat)
    ensures Scan(InFrame([], false), SkipFlags(w), dropped) == Scan(InFrame([], false), w, dropped)
    ensures SkipFlags(w) == [] || SkipFlags(w)[0] != ADV_FLAG
    decreases |w|
  {
    if w != [] && w[0] == ADV_FLAG {
      SkippingIsScanning(w[1..], dropped);
      assert Emit(InFrame([], false), w[0]) == Nothing;
    }
  }

  lemma ScanEmpty(s: State, dropped: nat)
    ensures Scan(s, [], dropped) == Call(None, s, [], dropped)
  {}

  lemma ScanCloses(acc: seq<Octet>, w: seq<Octet>, dropped: nat)
    requires acc != [] && w != [] && w[0] == ADV_FLAG
    ensures Scan(InFrame(acc, false), w, dropped)
            == match Close(acc)
               case Got(f) => Call(Some(f), Hunting, w[1..], dropped)
               case Dropped => Scan(Hunting, w[1..], dropped + 1)
               case Nothing => Scan(Hunting, w[1..], dropped)
  {
    hide Close;
  }

  lemma ScanOverflows(acc: seq<Octet>, esc: bool, w: seq<Octet>, dropped: nat)
    requires |acc| >= BUFFER_SIZE && w != [] && (esc || w[0] != ADV_FLAG)
    ensures Scan(InFrame(acc, esc), w, dropped) == Scan(Hunting, w, dropped + 1)
  {
    hide Close;
  }

  lemma ScanStores(acc: seq<Octet>, esc: bool, w: seq<Octet>, dropped: nat)
    requires |acc| < BUFFER_SIZE && w != [] && (esc || w[0] != ADV_FLAG)
    ensures Scan(InFrame(acc, esc), w, dropped) == Scan(Next(InFrame(acc, esc), w[0]), w[1..], dropped)
  {}
}

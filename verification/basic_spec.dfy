/**
 The basic option's receiver: what one parse of the buffer amounts to, what a call makes of it,
 and why neither the cutting of the stream nor a full buffer changes what is delivered.
 */
module BasicSpec {
  import opened Octets
  import Fcs

  const MAX_RESYNC_GET_FRAME_COUNT := 3

  /** The octets behind the first flag. */
  function FindFlag(c: seq<Octet>): Option<seq<Octet>> {
    if c == [] then None else if c[0] == BASIC_FLAG then Some(c[1..]) else FindFlag(c[1..])
  }

  function SkipFlags(c: seq<Octet>): seq<Octet> {
    if c != [] && c[0] == BASIC_FLAG then SkipFlags(c[1..]) else c
  }

  /** Address, control and length field: three octets, or four if the first length octet says so. */
  function SizeOf(low: Octet): (h: nat)
    ensures h == 3 || h == 4
  {
    if low & EA == 0 then 4 else 3
  }

  function LengthOf(low: Octet, high: Octet): nat {
    ((low & 254) >> 1) as int + if low & EA == 0 then high as int * 128 else 0
  }

  function HeaderSize(c: seq<Octet>): nat
    requires |c| >= 5
  {
    SizeOf(c[2])
  }

  function PayloadSize(c: seq<Octet>): nat
    requires |c| >= 5
  {
    LengthOf(c[2], c[3])
  }

  /** The outcome of one attempt at the octets in the buffer. */
  datatype Attempt =
    | NeedMore(flag: bool, rest: seq<Octet>)
    | Got(frame: Frame, rest: seq<Octet>)
    | Drop(rest: seq<Octet>)

  /** The octets of a complete frame that its check octet protects, and that octet. */
  function Checked(c: seq<Octet>): seq<Octet>
    requires |c| >= 5 && |c| >= HeaderSize(c) + PayloadSize(c) + 2
  {
    var h, n := HeaderSize(c), PayloadSize(c);
    c[..h] + (if FrameIs(TYPE_UI, c[1]) then c[h..h + n] else []) + [c[h + n]]
  }

  /** The attempt at octets that begin behind a flag. */
  function Parse(n1: Octet -> nat, c: seq<Octet>): Attempt {
    if |c| < 5 then NeedMore(true, c)
    else
      var h, n := HeaderSize(c), PayloadSize(c);
      if n > n1(DecodeAddress(c[0])) then Drop(c[h - 1..])
      else if |c| < h + n + 2 then NeedMore(true, c)
      else if !Fcs.Accepts(Checked(c)) || c[h + n + 1] != BASIC_FLAG then Drop(c[h + n + 1..])
      else Got(Frame(DecodeAddress(c[0]), c[1], c[h..h + n]), c[h + n + 2..])
  }

  /** Flag search, skipping of further flags, and the parse. */
  function Try(n1: Octet -> nat, flag: bool, c: seq<Octet>): Attempt {
    if flag then Parse(n1, SkipFlags(c))
    else
      match FindFlag(c)
      case None => NeedMore(false, [])
      case Some(behind) => Parse(n1, SkipFlags(behind))
  }

  /**
   How a call ends: with a frame or none, or at the assertion on the fourth nested attempt, which is fatal in
   the build meant here, the one without __PRODUCTION_RELEASE__.
   */
  datatype Call =
    | Returned(frame: Option<Frame>, flag: bool, rest: seq<Octet>, dropped: nat)
    | Asserted(rest: seq<Octet>, dropped: nat)

  function GetFrame(n1: Octet -> nat, flag: bool, c: seq<Octet>, depth: nat, dropped: nat): Call
    decreases MAX_RESYNC_GET_FRAME_COUNT - depth
  {
    if depth >= MAX_RESYNC_GET_FRAME_COUNT then Asserted(c, dropped)
    else
      match Try(n1, flag, c)
      case NeedMore(f, rest) => Returned(None, f, rest, dropped)
      case Got(frame, rest) => Returned(Some(frame), false, rest, dropped)
      case Drop(rest) => GetFrame(n1, false, rest, depth + 1, dropped + 1)
  }

  // ----- Progress -----

  lemma {:induction false} FindFlagFacts(c: seq<Octet>, x: seq<Octet>)
    ensures FindFlag(c).None? ==> FindFlag(c + x) == FindFlag(x)
    ensures FindFlag(c).Some? ==> FindFlag(c + x) == Some(FindFlag(c).value + x) && |FindFlag(c).value| < |c|
    decreases |c|
  {
    if c == [] {
      assert c + x == x;
    } else {
      assert (c + x)[1..] == c[1..] + x;
      FindFlagFacts(c[1..], x);
    }
  }

  lemma {:induction false} SkipFlagsFacts(c: seq<Octet>, x: seq<Octet>)
    ensures SkipFlags(c + x) == if SkipFlags(c) == [] then SkipFlags(x) else SkipFlags(c) + x
    ensures SkipFlags(SkipFlags(c) + x) == SkipFlags(c + x)
    ensures |SkipFlags(c)| <= |c| && (SkipFlags(c) == c || |SkipFlags(c)| < |c|)
    ensures SkipFlags(c) != [] ==> SkipFlags(c)[0] != BASIC_FLAG
    decreases |c|
  {
    if c == [] {
      assert c + x == x && SkipFlags(c) + x == x;
    } else {
      assert (c + x)[1..] == c[1..] + x;
      SkipFlagsFacts(c[1..], x);
    }
  }

  /** A frame or a drop takes octets off the front, and at least two behind the flag. */
  lemma ParseShrinks(n1: Octet -> nat, c: seq<Octet>)
    ensures var a := Parse(n1, c);
      if a.NeedMore? then a.flag && a.rest == c
      else |a.rest| < |c| - 1 && a.rest == c[|c| - |a.rest|..]
  {
    hide Fcs.Accepts;
  }

  lemma TryShrinks(n1: Octet -> nat, flag: bool, c: seq<Octet>)
    ensures |Try(n1, flag, c).rest| <= |c|
    ensures !Try(n1, flag, c).NeedMore? ==> |Try(n1, flag, c).rest| < |c| - 1
  {
    hide Parse, FindFlag, SkipFlags;
    FindFlagFacts(c, []);
    SkipFlagsFacts(c, []);
    if flag {
      ParseShrinks(n1, SkipFlags(c));
    } else if FindFlag(c).Some? {
      SkipFlagsFacts(FindFlag(c).value, []);
      ParseShrinks(n1, SkipFlags(FindFlag(c).value));
    }
  }

  // ----- Octets that arrive later do not change what is there -----

  lemma SplitAppend(c: seq<Octet>, x: seq<Octet>, k: nat, m: nat)
    requires k <= m <= |c|
    ensures (c + x)[k..m] == c[k..m] && (c + x)[m..] == c[m..] + x
  {}

  lemma CheckedStable(c: seq<Octet>, x: seq<Octet>)
    requires |c| >= 5 && |c| >= HeaderSize(c) + PayloadSize(c) + 2
    ensures HeaderSize(c + x) == HeaderSize(c) && PayloadSize(c + x) == PayloadSize(c)
    ensures Checked(c + x) == Checked(c)
  {
    hide SizeOf, LengthOf, FrameIs;
    var h, n := HeaderSize(c), PayloadSize(c);
    assert HeaderSize(c + x) == h && PayloadSize(c + x) == n;
    hide HeaderSize, PayloadSize;
    SplitAppend(c, x, 0, h);
    SplitAppend(c, x, h, h + n);
  }

  lemma ParseStable(n1: Octet -> nat, c: seq<Octet>, x: seq<Octet>)
    ensures var a := Parse(n1, c);
      && (a.Got? ==> Parse(n1, c + x) == Got(a.frame, a.rest + x))
      && (a.Drop? ==> Parse(n1, c + x) == Drop(a.rest + x))
  {
    hide Fcs.Accepts, Checked, DecodeAddress, SizeOf, LengthOf;
    if |c| >= 5 {
      var h, n := HeaderSize(c), PayloadSize(c);
      assert 3 <= h <= 4 && HeaderSize(c + x) == h && PayloadSize(c + x) == n;
      hide HeaderSize, PayloadSize;
      if n > n1(DecodeAddress(c[0])) {
        SplitAppend(c, x, h - 1, h - 1);
      } else if |c| >= h + n + 2 {
        CheckedStable(c, x);
        SplitAppend(c, x, h, h + n);
        SplitAppend(c, x, h, h + n + 1);
        SplitAppend(c, x, h, h + n + 2);
      }
    }
  }

  /** An attempt that wants more resumes as if the later octets had been there from the start. */
  lemma TryStable(n1: Octet -> nat, flag: bool, c: seq<Octet>, x: seq<Octet>)
    ensures var a := Try(n1, flag, c);
      && (a.NeedMore? ==> Try(n1, flag, c + x) == Try(n1, a.flag, a.rest + x))
      && (a.Got? ==> Try(n1, flag, c + x) == Got(a.frame, a.rest + x))
      && (a.Drop? ==> Try(n1, flag, c + x) == Drop(a.rest + x))
  {
    hide Parse, FindFlag, SkipFlags;
    FindFlagFacts(c, x);
    if flag {
      BehindFlagStable(n1, c, x);
    } else if FindFlag(c).None? {
      assert [] + x == x;
    } else {
      BehindFlagStable(n1, FindFlag(c).value, x);
    }
  }

  lemma BehindFlagStable(n1: Octet -> nat, c: seq<Octet>, x: seq<Octet>)
    ensures var a := Parse(n1, SkipFlags(c));
      && (a.NeedMore? ==> a.flag && Parse(n1, SkipFlags(c + x)) == Parse(n1, SkipFlags(a.rest + x)))
      && (a.Got? ==> Parse(n1, SkipFlags(c + x)) == Got(a.frame, a.rest + x))
      && (a.Drop? ==> Parse(n1, SkipFlags(c + x)) == Drop(a.rest + x))
  {
    hide Parse, SkipFlags;
    SkipFlagsFacts(c, x);
    ParseShrinks(n1, SkipFlags(c));
    ParseStable(n1, SkipFlags(c), x);
    EmptyWantsMore(n1);
  }

  lemma EmptyWantsMore(n1: Octet -> nat)
    ensures Parse(n1, []) == NeedMore(true, [])
  {}

  // ----- Whole runs -----

  /** The frames in `c` if attempts follow one another without limit. */
  function RunFrames(n1: Octet -> nat, flag: bool, c: seq<Octet>): seq<Frame>
    decreases |c|
  {
    TryShrinks(n1, flag, c);
    match Try(n1, flag, c)
    case NeedMore(_, _) => []
    case Got(frame, rest) => [frame] + RunFrames(n1, false, rest)
    case Drop(rest) => RunFrames(n1, false, rest)
  }

  /** The attempt that ends such a run. */
  function RunEnd(n1: Octet -> nat, flag: bool, c: seq<Octet>): (e: Attempt)
    ensures e.NeedMore? && |e.rest| <= |c|
    decreases |c|
  {
    TryShrinks(n1, flag, c);
    match Try(n1, flag, c)
    case NeedMore(f, rest) => NeedMore(f, rest)
    case Got(_, rest) => RunEnd(n1, false, rest)
    case Drop(rest) => RunEnd(n1, false, rest)
  }

  predicate NoDrops(n1: Octet -> nat, flag: bool, c: seq<Octet>)
    decreases |c|
  {
    TryShrinks(n1, flag, c);
    match Try(n1, flag, c)
    case NeedMore(_, _) => true
    case Got(_, rest) => NoDrops(n1, false, rest)
    case Drop(_) => false
  }

  /** Reading a stream in two pieces is reading it in one: for every stream and every cut. */
  lemma {:induction false} RunAppend(n1: Octet -> nat, flag: bool, c: seq<Octet>, x: seq<Octet>)
    ensures var e := RunEnd(n1, flag, c);
      && RunFrames(n1, flag, c + x) == RunFrames(n1, flag, c) + RunFrames(n1, e.flag, e.rest + x)
      && RunEnd(n1, flag, c + x) == RunEnd(n1, e.flag, e.rest + x)
      && (NoDrops(n1, flag, c + x) <==> NoDrops(n1, flag, c) && NoDrops(n1, e.flag, e.rest + x))
    decreases |c|
  {
    hide Try;
    TryShrinks(n1, flag, c);
    TryStable(n1, flag, c, x);
    match Try(n1, flag, c)
    case NeedMore(f, rest) =>
      RunsAlike(n1, flag, c + x, f, rest + x);
    case Got(frame, rest) =>
      RunAppend(n1, false, rest, x);
    case Drop(rest) =>
      RunAppend(n1, false, rest, x);
  }

  lemma RunsAlike(n1: Octet -> nat, flag: bool, c: seq<Octet>, flag': bool, c': seq<Octet>)
    requires Try(n1, flag, c) == Try(n1, flag', c')
    ensures RunFrames(n1, flag, c) == RunFrames(n1, flag', c')
    ensures RunEnd(n1, flag, c) == RunEnd(n1, flag', c')
    ensures NoDrops(n1, flag, c) == NoDrops(n1, flag', c')
  {
    hide Try;
  }

  /** Three drops without a frame in between. */
  predicate ThreeDrops(n1: Octet -> nat, flag: bool, c: seq<Octet>, before: nat)
    decreases |c|
  {
    TryShrinks(n1, flag, c);
    match Try(n1, flag, c)
    case NeedMore(_, _) => false
    case Got(_, _) => false
    case Drop(rest) => before >= 2 || ThreeDrops(n1, false, rest, before + 1)
  }

  /**
   A call either follows the run to its next frame or its end, or stops at the assertion after three drops in a
   row.
   */
  lemma {:induction false} CallFollowsRun(n1: Octet -> nat, flag: bool, c: seq<Octet>, depth: nat, dropped: nat)
    requires depth < MAX_RESYNC_GET_FRAME_COUNT
    ensures var r := GetFrame(n1, flag, c, depth, dropped);
      && (r.Asserted? <==> ThreeDrops(n1, flag, c, depth))
      && |r.rest| <= |c|
      && (r.Returned? ==>
            && RunEnd(n1, r.flag, r.rest) == RunEnd(n1, flag, c)
            && RunFrames(n1, flag, c)
               == (if r.frame.Some? then [r.frame.value] + RunFrames(n1, r.flag, r.rest) else [])
            && (r.frame.Some? ==> |r.rest| < |c| && !r.flag)
            && (r.frame.None? ==> RunEnd(n1, flag, c) == NeedMore(r.flag, r.rest)))
      && (NoDrops(n1, flag, c) ==> r.Returned? && r.dropped == dropped && NoDrops(n1, r.flag, r.rest))
    decreases MAX_RESYNC_GET_FRAME_COUNT - depth
  {
    hide Try;
    TryShrinks(n1, flag, c);
    match Try(n1, flag, c)
    case NeedMore(f, rest) =>
      RestWantsMore(n1, flag, c);
    case Got(frame, rest) =>
    case Drop(rest) =>
      if depth + 1 < MAX_RESYNC_GET_FRAME_COUNT {
        CallFollowsRun(n1, false, rest, depth + 1, dropped + 1);
      }
  }

  lemma RestWantsMore(n1: Octet -> nat, flag: bool, c: seq<Octet>)
    requires Try(n1, flag, c).NeedMore?
    ensures var a := Try(n1, flag, c);
      Try(n1, a.flag, a.rest) == a
  {
    hide Parse;
    var a := Try(n1, flag, c);
    TryStable(n1, flag, c, []);
    assert c + [] == c && a.rest + [] == a.rest;
  }

  // ----- The assembler's loop of calls -----

  /** Some call of the loop stops at the assertion. */
  predicate LoopAsserts(n1: Octet -> nat, flag: bool, c: seq<Octet>)
    decreases |c|
  {
    CallFollowsRun(n1, flag, c, 0, 0);
    var r := GetFrame(n1, flag, c, 0, 0);
    r.Asserted? || (r.frame.Some? && LoopAsserts(n1, r.flag, r.rest))
  }

  /** The frames its calls return, up to the assertion if there is one. */
  function LoopFrames(n1: Octet -> nat, flag: bool, c: seq<Octet>): seq<Frame>
    decreases |c|
  {
    CallFollowsRun(n1, flag, c, 0, 0);
    var r := GetFrame(n1, flag, c, 0, 0);
    if r.Returned? && r.frame.Some? then [r.frame.value] + LoopFrames(n1, r.flag, r.rest) else []
  }

  /** Attempts that follow one another without limit drop three times in a row somewhere. */
  predicate ThreeInARow(n1: Octet -> nat, flag: bool, c: seq<Octet>, before: nat)
    decreases |c|
  {
    TryShrinks(n1, flag, c);
    match Try(n1, flag, c)
    case NeedMore(_, _) => false
    case Got(_, rest) => ThreeInARow(n1, false, rest, 0)
    case Drop(rest) => before >= 2 || ThreeInARow(n1, false, rest, before + 1)
  }

  /** The loop asserts exactly when three drops follow one another somewhere, in whatever call. */
  lemma {:induction false} CallOrLoopAssertsIff(n1: Octet -> nat, flag: bool, c: seq<Octet>, depth: nat, dropped: nat)
    requires depth < MAX_RESYNC_GET_FRAME_COUNT
    ensures var r := GetFrame(n1, flag, c, depth, dropped);
      r.Asserted? || (r.frame.Some? && LoopAsserts(n1, r.flag, r.rest)) <==> ThreeInARow(n1, flag, c, depth)
    decreases |c|
  {
    hide Try;
    TryShrinks(n1, flag, c);
    var a := Try(n1, flag, c);
    if a.Got? {
      CallOrLoopAssertsIff(n1, false, a.rest, 0, 0);
    } else if a.Drop? && depth + 1 < MAX_RESYNC_GET_FRAME_COUNT {
      CallOrLoopAssertsIff(n1, false, a.rest, depth + 1, dropped + 1);
    }
  }

  lemma LoopAssertsIff(n1: Octet -> nat, flag: bool, c: seq<Octet>)
    ensures LoopAsserts(n1, flag, c) <==> ThreeInARow(n1, flag, c, 0)
  {
    hide Try, ThreeInARow;
    CallOrLoopAssertsIff(n1, flag, c, 0, 0);
  }

  /** The loop returns the run's frames in order, and all of them unless the assertion stops it. */
  lemma {:induction false} LoopFollowsRun(n1: Octet -> nat, flag: bool, c: seq<Octet>)
    ensures LoopFrames(n1, flag, c) <= RunFrames(n1, flag, c)
    ensures !LoopAsserts(n1, flag, c) ==> LoopFrames(n1, flag, c) == RunFrames(n1, flag, c)
    decreases |c|
  {
    hide RunFrames, RunEnd, GetFrame, NoDrops, ThreeDrops;
    CallFollowsRun(n1, flag, c, 0, 0);
    var r := GetFrame(n1, flag, c, 0, 0);
    if r.Returned? && r.frame.Some? {
      LoopFollowsRun(n1, r.flag, r.rest);
    }
  }

  /** Behind a flag, or at one, it does not matter whether a flag was found before. */
  lemma FlagEitherWay(n1: Octet -> nat, c: seq<Octet>)
    ensures c != [] && c[0] == BASIC_FLAG ==> Try(n1, true, c) == Try(n1, false, c)
    ensures Try(n1, false, [BASIC_FLAG] + c) == Try(n1, true, c)
  {
    hide Parse;
    assert ([BASIC_FLAG] + c)[1..] == c;
  }
}

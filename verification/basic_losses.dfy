/**
 What late flags cost the basic option's receiver. An attempt that takes a start flag for an address spoils the frames
 that begin within the octets it takes off, and the receiver is in step again behind them, as long as no frame holds a
 flag between its first octet and its last.
 */
module BasicLosses {
  import opened Octets
  import opened BasicSpec
  import opened BasicStream
  import opened BasicRejection
  import opened BasicThreads
  import opened BasicDelivery

  /** Only the first and the last octet are flags. */
  predicate Clean(f: Frame)
    requires |f.data| <= MAX_LENGTH
  {
    forall i :: 0 < i < |Encode(f)| - 1 ==> Encode(f)[i] != BASIC_FLAG
  }

  predicate AllClean(n1: Octet -> nat, frames: seq<Frame>)
    requires AllFit(n1, frames)
  {
    forall i :: 0 <= i < |frames| ==> Clean(frames[i])
  }

  /** How many frames begin within the first `n` octets of the stream. */
  function Begun(n1: Octet -> nat, frames: seq<Frame>, n: nat): (m: nat)
    requires AllFit(n1, frames)
    ensures m <= |frames| && (n > 0 && frames != [] ==> m > 0)
    decreases |frames|
  {
    if frames == [] || n == 0 then 0
    else
      var size := |Encode(frames[0])|;
      1 + Begun(n1, frames[1..], if n <= size then 0 else n - size)
  }

  /**
   What is delivered of the frames, when `late` tells of each whether its start flag was taken for an address. That
   can be only behind a dropped frame or another such attempt, whose end flag was taken for a start flag.
   */
  function Account(n1: Octet -> nat, behind: bool, frames: seq<Frame>, late: seq<bool>): seq<Frame>
    requires AllFit(n1, frames) && |late| == |frames|
    decreases |frames|
  {
    if frames == [] then []
    else if behind && late[0] then
      ParseShrinks(n1, Stream(n1, frames));
      match Parse(n1, Stream(n1, frames))
      case NeedMore(_, _) => []
      case Got(stray, rest) => [stray] + AccountBehind(n1, frames, late, |Stream(n1, frames)| - |rest|)
      case Drop(rest) => AccountBehind(n1, frames, late, |Stream(n1, frames)| - |rest|)
    else if FcsAgrees(frames[0]) then [frames[0]] + Account(n1, false, frames[1..], late[1..])
    else Account(n1, true, frames[1..], late[1..])
  }

  /** Of the frames that begin behind the first `n` octets. */
  function AccountBehind(n1: Octet -> nat, frames: seq<Frame>, late: seq<bool>, n: nat): seq<Frame>
    requires AllFit(n1, frames) && |late| == |frames| && frames != [] && n > 0
    decreases |frames|, 0
  {
    var m := Begun(n1, frames, n);
    Account(n1, n != Offset(n1, frames, m), frames[m..], late[m..])
  }

  /** The marks of the start flags. */
  function Firsts(n1: Octet -> nat, frames: seq<Frame>, marks: seq<bool>): (late: seq<bool>)
    requires AllFit(n1, frames) && |marks| == |Stream(n1, frames)|
    ensures |late| == |frames|
    decreases |frames|
  {
    if frames == [] then []
    else
      WholeFrame(n1, frames[0], []);
      [marks[0]] + Firsts(n1, frames[1..], marks[|Encode(frames[0])|..])
  }

  /** The marks of the frames from the `m`th on are found there. */
  predicate FirstsAgree(n1: Octet -> nat, frames: seq<Frame>, marks: seq<bool>, m: nat)
    requires AllFit(n1, frames) && |marks| == |Stream(n1, frames)| && m <= |frames|
  {
    var n := Offset(n1, frames, m);
    && n + |Stream(n1, frames[m..])| == |marks|
    && Firsts(n1, frames[m..], marks[n..]) == Firsts(n1, frames, marks)[m..]
  }

  lemma {:induction false} FirstsBehind(n1: Octet -> nat, frames: seq<Frame>, marks: seq<bool>, m: nat)
    requires AllFit(n1, frames) && |marks| == |Stream(n1, frames)| && m <= |frames|
    ensures FirstsAgree(n1, frames, marks, m)
    decreases m
  {
    hide Encode;
    if m == 0 {
      assert frames[..0] == [] && frames[0..] == frames && marks[0..] == marks;
    } else {
      var size, tail, rest := |Encode(frames[0])|, frames[1..], marks[|Encode(frames[0])|..];
      StreamCons(n1, frames, m);
      assert |rest| == |Stream(n1, tail)| && Firsts(n1, frames, marks)[m..] == Firsts(n1, tail, rest)[m - 1..];
      FirstsBehind(n1, tail, rest, m - 1);
      assert Offset(n1, frames, m) == size + Offset(n1, tail, m - 1);
      hide Firsts, Stream, Fits;
      DropBoth(marks, size, Offset(n1, tail, m - 1));
    }
  }

  lemma DropBoth(marks: seq<bool>, i: nat, j: nat)
    requires i + j <= |marks|
    ensures marks[i..][j..] == marks[i + j..]
  {}

  /** The rest of a frame that was cut in its middle: its only flag is the last octet. */
  predicate Tail(t: seq<Octet>) {
    t != [] ==> t[|t| - 1] == BASIC_FLAG && forall i :: 0 <= i < |t| - 1 ==> t[i] != BASIC_FLAG
  }

  lemma CleanTail(f: Frame, n: nat)
    requires |f.data| <= MAX_LENGTH && Clean(f) && 0 < n <= |Encode(f)|
    ensures Tail(Encode(f)[n..])
  {}

  lemma CutInFirst(w: seq<Octet>, x: seq<Octet>, n: nat)
    ensures n <= |w| ==> (w + x)[n..] == w[n..] + x
    ensures |w| <= n <= |w| + |x| ==> (w + x)[n..] == x[n - |w|..]
  {}

  /** Whatever the stream is cut behind: the rest of a frame is left, and the frames that begin later. */
  lemma {:induction false} SuffixShape(n1: Octet -> nat, frames: seq<Frame>, n: nat) returns (t: seq<Octet>)
    requires AllFit(n1, frames) && AllClean(n1, frames) && n <= |Stream(n1, frames)|
    ensures var m := Begun(n1, frames, n);
      && Stream(n1, frames)[n..] == t + Stream(n1, frames[m..]) && Tail(t)
      && n + |t| == Offset(n1, frames, m)
    decreases |frames|
  {
    hide Encode, Clean, Tail;
    if frames == [] || n == 0 {
      t := [];
      assert frames[0..] == frames && frames[..0] == [];
      EmptyTail();
    } else {
      var w, x, m := Encode(frames[0]), Stream(n1, frames[1..]), Begun(n1, frames, n);
      StreamCons(n1, frames, m);
      CutInFirst(w, x, n);
      if n <= |w| {
        t := w[n..];
        CleanTail(frames[0], n);
        assert m == 1 && frames[1..][..0] == [];
      } else {
        t := SuffixShape(n1, frames[1..], n - |w|);
      }
    }
  }

  lemma EmptyTail()
    ensures Tail([])
  {}

  // ----- The run that takes late flags for addresses -----

  /** The attempt behind the start flag of a frame, in that run. */
  lemma MarkedFrame(n1: Octet -> nat, f: Frame, x: seq<Octet>, marks: seq<bool>)
    requires Fits(n1, f) && |marks| == |Encode(f)| + |x|
    ensures |Encode(f)| > 5
    ensures MarkedFrames(n1, true, Encode(f)[1..] + x, marks[1..])
            == if FcsAgrees(f) then [f] + MarkedFrames(n1, false, x, marks[|Encode(f)|..])
               else MarkedFrames(n1, false, [BASIC_FLAG] + x, marks[|Encode(f)| - 1..])
  {
    hide Parse, FcsAgrees, Encode;
    WholeFrame(n1, f, x);
    var c, n := Encode(f)[1..] + x, |Encode(f)|;
    assert c[0] == Encode(f)[1];
    assert marks[1..][n - 1..] == marks[n..] && marks[1..][n - 2..] == marks[n - 1..];
  }

  /** A start flag that is searched or skipped. */
  lemma MarkedStart(n1: Octet -> nat, flag: bool, f: Frame, x: seq<Octet>, marks: seq<bool>)
    requires Fits(n1, f) && |marks| == |Encode(f)| + |x| && |Encode(f)| > 5 && (flag ==> !marks[0])
    ensures MarkedFrames(n1, flag, Encode(f) + x, marks)
            == if FcsAgrees(f) then [f] + MarkedFrames(n1, false, x, marks[|Encode(f)|..])
               else MarkedFrames(n1, false, [BASIC_FLAG] + x, marks[|Encode(f)| - 1..])
  {
    hide Parse, FcsAgrees, Encode;
    MarkedFrame(n1, f, x, marks);
    WholeFrame(n1, f, x);
    var c := Encode(f) + x;
    assert c[0] == BASIC_FLAG && c[1..] == Encode(f)[1..] + x;
    assert MarkedFrames(n1, flag, c, marks) == MarkedFrames(n1, true, c[1..], marks[1..]);
    hide MarkedFrames;
  }

  /** The octets before the next frame are searched for the end flag. */
  lemma {:induction false} MarkedTail(n1: Octet -> nat, t: seq<Octet>, x: seq<Octet>, marks: seq<bool>)
    requires Tail(t) && t != [] && |marks| == |t| + |x|
    ensures MarkedFrames(n1, false, t + x, marks) == MarkedFrames(n1, true, x, marks[|t|..])
    decreases |t|
  {
    hide Parse;
    assert (t + x)[1..] == t[1..] + x;
    if |t| == 1 {
      assert t[1..] + x == x;
    } else {
      MarkedTail(n1, t[1..], x, marks[1..]);
      assert marks[1..][|t| - 1..] == marks[|t|..];
    }
  }

  lemma {:induction false} MarkedIsAccount(n1: Octet -> nat, flag: bool, frames: seq<Frame>, marks: seq<bool>)
    requires AllFit(n1, frames) && AllClean(n1, frames) && |marks| == |Stream(n1, frames)|
    ensures MarkedFrames(n1, flag, Stream(n1, frames), marks) == Account(n1, flag, frames, Firsts(n1, frames, marks))
    decreases |frames|, 2
  {
    hide Parse, Encode, FcsAgrees, Clean, Account;
    if frames == [] {
      NothingAccounted(n1, flag, frames, marks);
    } else {
      var f, tail := frames[0], frames[1..];
      var w, x := Encode(f), Stream(n1, tail);
      WholeFrame(n1, f, x);
      if flag && marks[0] {
        LateIsAccount(n1, frames, marks);
      } else {
        MarkedStart(n1, flag, f, x, marks);
        hide MarkedFrames;
        FrameAccounted(n1, flag, frames, Firsts(n1, frames, marks));
        MarkedIsAccount(n1, false, tail, marks[|w|..]);
        MarkedIsAccount(n1, true, tail, marks[|w|..]);
        MarkedTail(n1, [BASIC_FLAG], x, marks[|w| - 1..]);
        assert marks[|w| - 1..][1..] == marks[|w|..];
      }
    }
  }

  lemma NothingAccounted(n1: Octet -> nat, flag: bool, frames: seq<Frame>, marks: seq<bool>)
    requires frames == [] && marks == []
    ensures MarkedFrames(n1, flag, Stream(n1, frames), marks) == [] == Account(n1, flag, frames, Firsts(n1, frames, marks))
  {}

  lemma FrameAccounted(n1: Octet -> nat, behind: bool, frames: seq<Frame>, late: seq<bool>)
    requires AllFit(n1, frames) && |late| == |frames| && frames != [] && !(behind && late[0])
    ensures Account(n1, behind, frames, late)
            == if FcsAgrees(frames[0]) then [frames[0]] + Account(n1, false, frames[1..], late[1..])
               else Account(n1, true, frames[1..], late[1..])
  {
    hide FcsAgrees, Parse, Stream;
  }

  lemma LateIsAccount(n1: Octet -> nat, frames: seq<Frame>, marks: seq<bool>)
    requires AllFit(n1, frames) && AllClean(n1, frames) && |marks| == |Stream(n1, frames)|
    requires frames != [] && |marks| > 5 && marks[0]
    ensures MarkedFrames(n1, true, Stream(n1, frames), marks) == Account(n1, true, frames, Firsts(n1, frames, marks))
    decreases |frames|, 1
  {
    hide Parse, Encode, FcsAgrees, Clean, AllClean, Stream, AccountBehind;
    var c := Stream(n1, frames);
    ParseShrinks(n1, c);
    var a := Parse(n1, c);
    LateAttempt(n1, c, marks);
    assert Firsts(n1, frames, marks)[0];
    if !a.NeedMore? {
      SuffixIsAccount(n1, frames, marks, |c| - |a.rest|);
    }
  }

  lemma LateAttempt(n1: Octet -> nat, c: seq<Octet>, marks: seq<bool>)
    requires |marks| == |c| && c != [] && marks[0]
    ensures var a := Parse(n1, c);
      && |a.rest| <= |c|
      && MarkedFrames(n1, true, c, marks)
         == if a.NeedMore? then [] else Gained(a) + MarkedFrames(n1, false, a.rest, marks[|c| - |a.rest|..])
  {
    ParseShrinks(n1, c);
    hide Parse;
  }

  lemma SuffixIsAccount(n1: Octet -> nat, frames: seq<Frame>, marks: seq<bool>, n: nat)
    requires AllFit(n1, frames) && AllClean(n1, frames) && |marks| == |Stream(n1, frames)|
    requires frames != [] && 0 < n <= |marks|
    ensures MarkedFrames(n1, false, Stream(n1, frames)[n..], marks[n..])
            == AccountBehind(n1, frames, Firsts(n1, frames, marks), n)
    decreases |frames|, 0
  {
    hide Parse, Encode, FcsAgrees, Clean, Stream, MarkedFrames, Account, Firsts, Offset, Fits;
    var m := Begun(n1, frames, n);
    var t := SuffixShape(n1, frames, n);
    var x := Stream(n1, frames[m..]);
    FirstsBehind(n1, frames, marks, m);
    assert FirstsAgree(n1, frames, marks, m);
    assert marks[n..][|t|..] == marks[Offset(n1, frames, m)..];
    if t == [] {
      assert [] + x == x;
      MarkedIsAccount(n1, false, frames[m..], marks[Offset(n1, frames, m)..]);
    } else {
      MarkedTail(n1, t, x, marks[n..]);
      MarkedIsAccount(n1, true, frames[m..], marks[Offset(n1, frames, m)..]);
    }
  }

  /** Without a late flag nothing is lost. */
  lemma {:induction false} NoLateNoLoss(n1: Octet -> nat, behind: bool, frames: seq<Frame>, late: seq<bool>)
    requires AllFit(n1, frames) && |late| == |frames| && true !in late
    ensures Account(n1, behind, frames, late) == Agreeing(n1, frames)
    decreases |frames|
  {
    hide FcsAgrees, Parse, Stream;
    if frames != [] {
      NoLateNoLoss(n1, FcsAgrees(frames[0]) == false, frames[1..], late[1..]);
    }
  }

  /**
   The account of every interleaving over frames without inner flags, accepted or not. Of the frames that agree all are
   delivered but those whose start flag was taken for an address, and those that begin within the octets such an
   attempt takes off; and besides at most what such an attempt reads as a frame.
   */
  lemma LossesInEveryInterleaving(n1: Octet -> nat, e0: Config, trace: seq<Action>, frames: seq<Frame>)
    requires Init(e0) && Runs(n1, e0, trace) && AllFit(n1, frames) && AllClean(n1, frames)
    requires Run(n1, e0, trace).published == Stream(n1, frames) && Run(n1, e0, trace).unread == []
    ensures var e := Run(n1, e0, trace);
      && |e.marks| == |Stream(n1, frames)|
      && e.delivered == Account(n1, false, frames, Firsts(n1, frames, e.marks))
      && (e.lates == 0 ==> e.delivered == Agreeing(n1, frames))
  {
    hide Parse, Encode, FcsAgrees, Stream, MarkedFrames, Account, Firsts, Run, Runs, Fits, Agreeing;
    InterleavingAccount(n1, e0, trace);
    var e := Run(n1, e0, trace);
    assert e.marks + Unmarked(0) == e.marks;
    RunOfNone(n1, e.flag);
    MarkedIsAccount(n1, false, frames, e.marks);
    if e.lates == 0 {
      FirstsUnmarked(n1, frames, e.marks);
      NoLateNoLoss(n1, false, frames, Firsts(n1, frames, e.marks));
    }
  }

  lemma {:induction false} FirstsUnmarked(n1: Octet -> nat, frames: seq<Frame>, marks: seq<bool>)
    requires AllFit(n1, frames) && |marks| == |Stream(n1, frames)| && true !in marks
    ensures true !in Firsts(n1, frames, marks)
    decreases |frames|
  {
    hide Encode, FcsAgrees, Parse;
    if frames != [] {
      WholeFrame(n1, frames[0], []);
      FirstsUnmarked(n1, frames[1..], marks[|Encode(frames[0])|..]);
      assert marks[0] in marks;
    }
  }
}

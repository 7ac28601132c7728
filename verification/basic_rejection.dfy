/**
 What the basic option's receiver makes of frames it has to reject: which of a stream of frames it delivers, and
 exactly when the assertion stops it, for every cutting of the stream.
 */
module BasicRejection {
  import opened Octets
  import opened BasicSpec
  import opened BasicStream
  import Fcs

  /** Those of the frames whose check octets agree. */
  function Agreeing(n1: Octet -> nat, frames: seq<Frame>): seq<Frame>
    requires AllFit(n1, frames)
  {
    if frames == [] then []
    else (if FcsAgrees(frames[0]) then [frames[0]] else []) + Agreeing(n1, frames[1..])
  }

  /** Three frames in a row are rejected, from the `i`th on. */
  predicate Rejected(n1: Octet -> nat, frames: seq<Frame>, i: nat)
    requires AllFit(n1, frames)
  {
    i + 2 < |frames| && !FcsAgrees(frames[i]) && !FcsAgrees(frames[i + 1]) && !FcsAgrees(frames[i + 2])
  }

  /** The same, with `before` rejections just before the first of them. */
  predicate RejectedAfter(n1: Octet -> nat, frames: seq<Frame>, before: nat)
    requires AllFit(n1, frames)
    decreases |frames|
  {
    frames != [] &&
    if FcsAgrees(frames[0]) then RejectedAfter(n1, frames[1..], 0)
    else before >= 2 || RejectedAfter(n1, frames[1..], before + 1)
  }

  /** The first `k` frames are rejected. */
  predicate FirstRejected(n1: Octet -> nat, frames: seq<Frame>, k: nat)
    requires AllFit(n1, frames)
  {
    k <= |frames| && forall i :: 0 <= i < k ==> !FcsAgrees(frames[i])
  }

  lemma FirstRejectedShifts(n1: Octet -> nat, frames: seq<Frame>, k: nat)
    requires AllFit(n1, frames) && frames != [] && k > 0
    ensures FirstRejected(n1, frames, k) <==> !FcsAgrees(frames[0]) && FirstRejected(n1, frames[1..], k - 1)
  {
    hide FcsAgrees;
    var tail := frames[1..];
    if FirstRejected(n1, frames, k) {
      assert forall i :: 0 <= i < k - 1 ==> tail[i] == frames[i + 1];
    }
    if !FcsAgrees(frames[0]) && FirstRejected(n1, tail, k - 1) {
      assert forall i :: 0 < i < k ==> frames[i] == tail[i - 1];
    }
  }

  lemma RejectedShifts(n1: Octet -> nat, frames: seq<Frame>)
    requires AllFit(n1, frames) && frames != []
    ensures (exists i: nat :: Rejected(n1, frames, i))
            <==> FirstRejected(n1, frames, 3) || exists i: nat :: Rejected(n1, frames[1..], i)
  {
    hide FcsAgrees;
    var tail := frames[1..];
    if i: nat :| Rejected(n1, frames, i) {
      if i == 0 {
        assert FirstRejected(n1, frames, 3);
      } else {
        assert Rejected(n1, tail, i - 1);
      }
    }
    if FirstRejected(n1, frames, 3) {
      assert Rejected(n1, frames, 0);
    }
    if i: nat :| Rejected(n1, tail, i) {
      assert Rejected(n1, frames, i + 1);
    }
  }

  /** Some three frames are rejected, or the first `3 - before`. */
  lemma {:induction false} RejectedAfterIff(n1: Octet -> nat, frames: seq<Frame>, before: nat)
    requires AllFit(n1, frames) && before <= 2
    ensures RejectedAfter(n1, frames, before)
            <==> (exists i: nat :: Rejected(n1, frames, i)) || FirstRejected(n1, frames, 3 - before)
    decreases |frames|
  {
    hide FcsAgrees, Rejected;
    if frames == [] {
      NoneRejected(n1);
    } else {
      var tail := frames[1..];
      RejectedShifts(n1, frames);
      FirstRejectedShifts(n1, frames, 3);
      FirstRejectedShifts(n1, frames, 3 - before);
      if FirstRejected(n1, tail, 3) {
        ThreeAreRejected(n1, tail);
      }
      hide FirstRejected;
      if FcsAgrees(frames[0]) {
        RejectedAfterIff(n1, tail, 0);
      } else if before < 2 {
        RejectedAfterIff(n1, tail, before + 1);
      } else {
        NothingFirst(n1, tail);
      }
    }
  }

  lemma ThreeAreRejected(n1: Octet -> nat, frames: seq<Frame>)
    requires AllFit(n1, frames) && FirstRejected(n1, frames, 3)
    ensures Rejected(n1, frames, 0)
  {}

  lemma NoneRejected(n1: Octet -> nat)
    ensures forall i: nat :: !Rejected(n1, [], i)
  {}

  lemma NothingFirst(n1: Octet -> nat, frames: seq<Frame>)
    requires AllFit(n1, frames)
    ensures FirstRejected(n1, frames, 0)
  {}

  // ----- One run over a stream of frames -----

  lemma FrameStep(n1: Octet -> nat, flag: bool, f: Frame, x: seq<Octet>)
    requires Fits(n1, f)
    ensures Try(n1, flag, Encode(f) + x) == if FcsAgrees(f) then Got(f, x) else Drop([BASIC_FLAG] + x)
  {
    hide FcsAgrees, Try;
    EncodedIsParsed(n1, f, x);
    assert (Encode(f) + x)[0] == BASIC_FLAG;
    FlagEitherWay(n1, Encode(f) + x);
  }

  /** The two situations read on alike, whatever comes. */
  ghost predicate Alike(n1: Octet -> nat, flag: bool, c: seq<Octet>, flag': bool, c': seq<Octet>) {
    forall x :: Try(n1, flag, c + x) == Try(n1, flag', c' + x)
  }

  /** Nothing, or the beginning of a frame, whether a flag was found before or not. */
  predicate WantsMore(n1: Octet -> nat, q: seq<Octet>) {
    Try(n1, true, q).NeedMore? && Try(n1, false, q).NeedMore?
  }

  lemma ThreeAlike(n1: Octet -> nat, flag: bool, c: seq<Octet>, flag': bool, c': seq<Octet>, before: nat)
    requires Try(n1, flag, c) == Try(n1, flag', c')
    ensures ThreeInARow(n1, flag, c, before) == ThreeInARow(n1, flag', c', before)
  {
    hide Try;
    TryShrinks(n1, flag, c);
    TryShrinks(n1, flag', c');
  }

  /** Behind a rejected frame its end flag has been taken for a start flag. */
  function FlagAfter(n1: Octet -> nat, flag: bool, frames: seq<Frame>): bool
    requires AllFit(n1, frames)
  {
    if frames == [] then flag else !FcsAgrees(frames[|frames| - 1])
  }

  lemma NothingFollows(n1: Octet -> nat, flag: bool, q: seq<Octet>)
    requires WantsMore(n1, q)
    ensures RunFrames(n1, flag, q) == [] && forall before :: !ThreeInARow(n1, flag, q, before)
    ensures var e := RunEnd(n1, flag, q); Alike(n1, e.flag, e.rest, flag, q)
  {
    hide Try;
    TryShrinks(n1, flag, q);
    var e := RunEnd(n1, flag, q);
    forall x
      ensures Try(n1, e.flag, e.rest + x) == Try(n1, flag, q + x)
    {
      TryStable(n1, flag, q, x);
    }
  }

  /** The run delivers the frames that agree, drops each other one once, and goes on with what is behind them. */
  lemma {:induction false} RunOfFrames(n1: Octet -> nat, flag: bool, frames: seq<Frame>, q: seq<Octet>, before: nat)
    requires AllFit(n1, frames) && WantsMore(n1, q)
    ensures RunFrames(n1, flag, Stream(n1, frames) + q) == Agreeing(n1, frames)
    ensures ThreeInARow(n1, flag, Stream(n1, frames) + q, before) <==> RejectedAfter(n1, frames, before)
    ensures var e := RunEnd(n1, flag, Stream(n1, frames) + q);
      Alike(n1, e.flag, e.rest, FlagAfter(n1, flag, frames), q)
    decreases |frames|
  {
    hide Try, Encode, FcsAgrees, WantsMore, Alike;
    if frames == [] {
      assert Stream(n1, frames) + q == q;
      NothingFollows(n1, flag, q);
    } else {
      var f, tail := frames[0], frames[1..];
      var w, x := Stream(n1, frames) + q, Stream(n1, tail) + q;
      assert w == Encode(f) + x;
      FrameStep(n1, flag, f, x);
      TryShrinks(n1, flag, w);
      if FcsAgrees(f) {
        RunOfFrames(n1, false, tail, q, 0);
      } else {
        FlagEitherWay(n1, x);
        RunsAlike(n1, false, [BASIC_FLAG] + x, true, x);
        ThreeAlike(n1, false, [BASIC_FLAG] + x, true, x, before + 1);
        RunOfFrames(n1, true, tail, q, before + 1);
      }
    }
  }

  // ----- Frames and pieces -----

  /** How many frames end within the first `n` octets of the stream. */
  function Ended(n1: Octet -> nat, frames: seq<Frame>, n: nat): (m: nat)
    requires AllFit(n1, frames)
    ensures m <= |frames|
    decreases |frames|
  {
    if frames == [] || n < |Encode(frames[0])| then 0 else 1 + Ended(n1, frames[1..], n - |Encode(frames[0])|)
  }

  lemma StreamCons(n1: Octet -> nat, frames: seq<Frame>, m: nat)
    requires AllFit(n1, frames) && 0 < m <= |frames|
    ensures Stream(n1, frames[..m]) == Encode(frames[0]) + Stream(n1, frames[1..][..m - 1])
    ensures frames[m..] == frames[1..][m - 1..]
  {
    hide Encode;
    assert frames[..m][1..] == frames[1..][..m - 1];
  }

  /** The stream is its first `m` frames and the others. */
  lemma {:induction false} StreamAt(n1: Octet -> nat, frames: seq<Frame>, m: nat)
    requires AllFit(n1, frames) && m <= |frames|
    ensures Stream(n1, frames) == Stream(n1, frames[..m]) + Stream(n1, frames[m..])
    decreases m
  {
    hide Encode;
    if m == 0 {
      assert frames[..0] == [] && frames[0..] == frames;
    } else {
      StreamAt(n1, frames[1..], m - 1);
      StreamCons(n1, frames, m);
      JoinThree(Encode(frames[0]), Stream(n1, frames[1..][..m - 1]), Stream(n1, frames[m..]));
    }
  }

  /** The frames that end within `n` octets fill these but for the beginning of the next frame. */
  lemma {:induction false} CutStream(n1: Octet -> nat, frames: seq<Frame>, n: nat)
    requires AllFit(n1, frames)
    ensures var m := Ended(n1, frames, n);
      var done, more := Stream(n1, frames[..m]), Stream(n1, frames[m..]);
      && |done| <= n && Stream(n1, frames) == done + more
      && (m == |frames| ==> more == []) && (m < |frames| ==> n - |done| < |Encode(frames[m])|)
    decreases |frames|
  {
    hide Encode;
    var m := Ended(n1, frames, n);
    StreamAt(n1, frames, m);
    if m > 0 {
      CutStream(n1, frames[1..], n - |Encode(frames[0])|);
      StreamCons(n1, frames, m);
    }
  }

  /** Two ways to cut a word in two. */
  lemma CutTwice(a: seq<Octet>, b: seq<Octet>, x: seq<Octet>, y: seq<Octet>)
    requires a + b == x + y && |x| <= |a|
    ensures |a| - |x| <= |y| && a == x + y[..|a| - |x|] && b == y[|a| - |x|..]
    ensures y[..|a| - |x|] + b == y
  {
    var w, n := a + b, |a|;
    assert a == w[..n] && b == w[n..];
    assert (x + y)[..n] == x + y[..n - |x|] && (x + y)[n..] == y[n - |x|..];
  }

  /** What ends within `n` octets ends first; what ends within more comes on top. */
  lemma {:induction false} EndedOnTop(n1: Octet -> nat, frames: seq<Frame>, n: nat, more: nat)
    requires AllFit(n1, frames) && n <= |Stream(n1, frames)| && n <= more
    ensures var m := Ended(n1, frames, n);
      && |Stream(n1, frames[..m])| <= n
      && Ended(n1, frames, more) == m + Ended(n1, frames[m..], more - |Stream(n1, frames[..m])|)
    decreases |frames|
  {
    hide Encode;
    var m := Ended(n1, frames, n);
    if m == 0 {
      assert frames[..0] == [] && frames[0..] == frames;
    } else {
      EndedOnTop(n1, frames[1..], n - |Encode(frames[0])|, more - |Encode(frames[0])|);
      StreamCons(n1, frames, m);
    }
  }

  lemma DropLeaves(n1: Octet -> nat, flag: bool, c: seq<Octet>)
    requires Try(n1, flag, c).Drop?
    ensures Try(n1, flag, c).rest != []
  {
    hide Fcs.Accepts, Checked, DecodeAddress, SizeOf, LengthOf;
  }

  /** The beginning of a frame that fits leads to nothing yet. */
  lemma BeginningWantsMore(n1: Octet -> nat, f: Frame, n: nat)
    requires Fits(n1, f) && n < |Encode(f)|
    ensures WantsMore(n1, Encode(f)[..n])
  {
    hide Try, FcsAgrees;
    var q, t := Encode(f)[..n], Encode(f)[n..];
    assert q + t == Encode(f) + [];
    hide Encode;
    if q == [] {
      NothingWantsMore(n1);
    } else {
      assert q[0] == BASIC_FLAG by { StartsWithFlag(f); }
      FlagEitherWay(n1, q);
      FrameStep(n1, false, f, []);
      TryStable(n1, false, q, t);
      var a := Try(n1, false, q);
      assert |a.rest + t| == |a.rest| + |t|;
      if a.Drop? {
        DropLeaves(n1, false, q);
      }
    }
  }

  lemma StartsWithFlag(f: Frame)
    requires |f.data| <= MAX_LENGTH
    ensures |Encode(f)| > 0 && Encode(f)[0] == BASIC_FLAG
  {}

  lemma NothingWantsMore(n1: Octet -> nat)
    ensures WantsMore(n1, [])
  {}

  /** The octets that arrive before piece `j`. */
  function Before(pieces: seq<seq<Octet>>, j: nat): nat
    requires j <= |pieces|
  {
    |Concat(pieces[..j])|
  }

  /** Piece `j` ends the three frames from the `i`th on, and all three are rejected. */
  predicate PieceRejects(n1: Octet -> nat, frames: seq<Frame>, n: nat, pieces: seq<seq<Octet>>, j: nat, i: nat)
    requires AllFit(n1, frames)
  {
    && j < |pieces| && Rejected(n1, frames, i)
    && Ended(n1, frames, n + Before(pieces, j)) <= i && i + 3 <= Ended(n1, frames, n + Before(pieces, j + 1))
  }

  ghost predicate SomePieceRejects(n1: Octet -> nat, frames: seq<Frame>, n: nat, pieces: seq<seq<Octet>>)
    requires AllFit(n1, frames)
  {
    exists j: nat, i: nat :: PieceRejects(n1, frames, n, pieces, j, i)
  }

  lemma BeforeNext(pieces: seq<seq<Octet>>, j: nat)
    requires j < |pieces|
    ensures Before(pieces, 0) == 0 && Before(pieces, j + 1) == |pieces[0]| + Before(pieces[1..], j)
  {
    assert pieces[..j + 1][1..] == pieces[1..][..j];
    assert pieces[..0] == [];
  }

  lemma RejectedLater(n1: Octet -> nat, frames: seq<Frame>, m: nat, i: nat)
    requires AllFit(n1, frames) && m <= |frames|
    ensures m <= i ==> (Rejected(n1, frames, i) <==> Rejected(n1, frames[m..], i - m))
    ensures i + 3 <= m ==> (Rejected(n1, frames, i) <==> Rejected(n1, frames[..m], i))
    ensures Rejected(n1, frames[..m], i) ==> i + 3 <= m
  {
    hide FcsAgrees;
  }

  /** Either the first piece does, or a later one does with the frames that are left. */
  lemma SomePieceRejectsNext(n1: Octet -> nat, frames: seq<Frame>, n: nat, pieces: seq<seq<Octet>>)
    requires AllFit(n1, frames) && pieces != [] && Ended(n1, frames, n) == 0 && n + |pieces[0]| <= |Stream(n1, frames)|
    ensures var m := Ended(n1, frames, n + |pieces[0]|);
      && |Stream(n1, frames[..m])| <= n + |pieces[0]|
      && (SomePieceRejects(n1, frames, n, pieces) <==>
            || (exists i: nat :: Rejected(n1, frames[..m], i))
            || SomePieceRejects(n1, frames[m..], n + |pieces[0]| - |Stream(n1, frames[..m])|, pieces[1..]))
  {
    hide Rejected, Ended, Before, Stream;
    var n', rest := n + |pieces[0]|, pieces[1..];
    var m := Ended(n1, frames, n');
    EndedOnTop(n1, frames, n', n');
    var left := n' - |Stream(n1, frames[..m])|;
    BeforeNext(pieces, 0);
    BeforeNone(rest);
    if j: nat, i: nat :| PieceRejects(n1, frames, n, pieces, j, i) {
      BeforeNext(pieces, j);
      if j == 0 {
        RejectedLater(n1, frames, m, i);
      } else {
        BeforeNext(pieces, j - 1);
        EndedOnTop(n1, frames, n', n' + Before(rest, j - 1));
        EndedOnTop(n1, frames, n', n' + Before(rest, j));
        RejectedLater(n1, frames, m, i);
        assert PieceRejects(n1, frames[m..], left, rest, j - 1, i - m);
      }
    }
    if i: nat :| Rejected(n1, frames[..m], i) {
      RejectedLater(n1, frames, m, i);
      assert PieceRejects(n1, frames, n, pieces, 0, i);
    }
    if j: nat, i: nat :| PieceRejects(n1, frames[m..], left, rest, j, i) {
      BeforeNext(pieces, j);
      BeforeNext(pieces, j + 1);
      EndedOnTop(n1, frames, n', n' + Before(rest, j));
      EndedOnTop(n1, frames, n', n' + Before(rest, j + 1));
      RejectedLater(n1, frames, m, i + m);
      assert PieceRejects(n1, frames, n, pieces, j + 1, i + m);
    }
  }

  lemma BeforeNone(pieces: seq<seq<Octet>>)
    ensures Before(pieces, 0) == 0
  {
    assert pieces[..0] == [];
  }

  lemma LoopAlike(n1: Octet -> nat, flag: bool, c: seq<Octet>, flag': bool, c': seq<Octet>, x: seq<Octet>)
    requires Alike(n1, flag, c, flag', c')
    ensures LoopAsserts(n1, flag, c + x) <==> ThreeInARow(n1, flag', c' + x, 0)
    ensures RunEnd(n1, flag, c + x) == RunEnd(n1, flag', c' + x)
  {
    hide Try, ThreeInARow, RunEnd, RunFrames, LoopAsserts, NoDrops;
    LoopAssertsIff(n1, flag, c + x);
    RunsAlike(n1, flag, c + x, flag', c' + x);
    ThreeAlike(n1, flag, c + x, flag', c' + x, 0);
  }

  /** One piece, which leaves the beginning of the next frame. */
  lemma PieceOfStream(n1: Octet -> nat, flag: bool, c: seq<Octet>, flag': bool, q: seq<Octet>, p: seq<Octet>,
                      done: seq<Frame>, more: seq<Octet>)
    requires AllFit(n1, done) && Alike(n1, flag, c, flag', q)
    requires q + p == Stream(n1, done) + more && WantsMore(n1, more)
    ensures LoopAsserts(n1, flag, c + p) <==> exists i: nat :: Rejected(n1, done, i)
    ensures var e := RunEnd(n1, flag, c + p); Alike(n1, e.flag, e.rest, FlagAfter(n1, flag', done), more)
  {
    hide Alike, LoopAsserts, RunEnd, ThreeInARow, Stream, RejectedAfter, Rejected, WantsMore;
    LoopAlike(n1, flag, c, flag', q, p);
    RunOfFrames(n1, flag', done, more, 0);
    RejectedAfterIff(n1, done, 0);
    if FirstRejected(n1, done, 3) {
      ThreeAreRejected(n1, done);
    }
  }

  /** The first `n` octets of the stream end `m` frames, and the others begin with `beginning`. */
  lemma StreamBehindPiece(n1: Octet -> nat, q: seq<Octet>, frames: seq<Frame>, p: seq<Octet>, rest: seq<Octet>)
    returns (m: nat, beginning: seq<Octet>)
    requires AllFit(n1, frames) && q + p + rest == Stream(n1, frames)
    ensures m == Ended(n1, frames, |q| + |p|) && q + p == Stream(n1, frames[..m]) + beginning
    ensures beginning + rest == Stream(n1, frames[m..]) && WantsMore(n1, beginning)
    ensures Ended(n1, frames[m..], |beginning|) == 0
  {
    hide Stream, Ended, WantsMore, Encode, Fits;
    var n := |q| + |p|;
    m := Ended(n1, frames, n);
    CutStream(n1, frames, n);
    var done, more := Stream(n1, frames[..m]), Stream(n1, frames[m..]);
    CutTwice(q + p, rest, done, more);
    beginning := more[..n - |done|];
    CutWantsMore(n1, frames[m..], n - |done|);
    EndedOnTop(n1, frames, n, n);
  }

  /** Of a stream whose next octets are `q` and the pieces, and which the daemon sees as behind `c`. */
  lemma {:induction false} PiecesOfStream(n1: Octet -> nat, flag: bool, c: seq<Octet>, flag': bool, q: seq<Octet>,
                                          frames: seq<Frame>, pieces: seq<seq<Octet>>)
    requires AllFit(n1, frames) && Alike(n1, flag, c, flag', q) && q + Concat(pieces) == Stream(n1, frames)
    requires Ended(n1, frames, |q|) == 0
    ensures PieceAsserts(n1, flag, c, pieces) <==> SomePieceRejects(n1, frames, |q|, pieces)
    decreases |pieces|
  {
    hide Alike, LoopAsserts, RunEnd, Ended, Stream, SomePieceRejects, Rejected, WantsMore, FlagAfter, Encode, Fits;
    if pieces == [] {
      NoPieceRejects(n1, frames, |q|);
    } else {
      var p, rest := pieces[0], pieces[1..];
      assert q + Concat(pieces) == q + p + Concat(rest);
      var m, beginning := StreamBehindPiece(n1, q, frames, p, Concat(rest));
      hide Concat;
      PieceOfStream(n1, flag, c, flag', q, p, frames[..m], beginning);
      SomePieceRejectsNext(n1, frames, |q|, pieces);
      var e := RunEnd(n1, flag, c + p);
      PiecesOfStream(n1, e.flag, e.rest, FlagAfter(n1, flag', frames[..m]), beginning, frames[m..], rest);
    }
  }

  lemma NoPieceRejects(n1: Octet -> nat, frames: seq<Frame>, n: nat)
    requires AllFit(n1, frames)
    ensures !SomePieceRejects(n1, frames, n, [])
  {}

  lemma CutWantsMore(n1: Octet -> nat, frames: seq<Frame>, n: nat)
    requires AllFit(n1, frames) && n <= |Stream(n1, frames)| && (frames != [] ==> n < |Encode(frames[0])|)
    ensures WantsMore(n1, Stream(n1, frames)[..n])
  {
    hide WantsMore, Encode;
    if frames == [] {
      NothingWantsMore(n1);
    } else {
      BeginningWantsMore(n1, frames[0], n);
      assert Stream(n1, frames)[..n] == Encode(frames[0])[..n];
    }
  }

  /**
   For every stream of frames that fit, accepted or not, and every cutting: the assertion stops the daemon
   exactly if one piece ends three frames in a row that are all rejected; and otherwise the frames delivered
   are those that agree, all of them and in order.
   */
  lemma RejectionAssertsIff(n1: Octet -> nat, frames: seq<Frame>, pieces: seq<seq<Octet>>)
    requires AllFit(n1, frames) && Concat(pieces) == Stream(n1, frames)
    ensures PieceAsserts(n1, false, [], pieces) <==> exists j: nat, i: nat :: PieceRejects(n1, frames, 0, pieces, j, i)
    ensures !PieceAsserts(n1, false, [], pieces) ==> Received(n1, false, [], pieces) == Agreeing(n1, frames)
  {
    hide Alike, PieceAsserts, Received, RunEnd, RunFrames, ThreeInARow, Stream, RejectedAfter, Agreeing, WantsMore,
        PieceRejects;
    assert [] + Concat(pieces) == Stream(n1, frames) == Stream(n1, frames) + [];
    assert Alike(n1, false, [], false, []) by { AlikeItself(n1, false, []); }
    NoneEnded(n1, frames);
    PiecesOfStream(n1, false, [], false, [], frames, pieces);
    NothingWantsMore(n1);
    NothingFollows(n1, false, []);
    NothingAtRest(n1);
    RunOfFrames(n1, false, frames, [], 0);
    PiecesAreOneRun(n1, false, [], pieces);
  }

  /** Frames that all agree are all delivered, and never lead to the assertion, whatever the cutting. */
  lemma {:induction false} AgreeingAll(n1: Octet -> nat, frames: seq<Frame>)
    requires AllSendable(n1, frames)
    ensures AllFit(n1, frames) && Agreeing(n1, frames) == frames
  {
    hide FcsAgrees;
    if frames != [] {
      AgreeingAll(n1, frames[1..]);
      assert [frames[0]] + frames[1..] == frames;
    }
  }

  lemma SentPiecesArrive(n1: Octet -> nat, frames: seq<Frame>, pieces: seq<seq<Octet>>)
    requires AllSendable(n1, frames) && Concat(pieces) == Stream(n1, frames)
    ensures !PieceAsserts(n1, false, [], pieces) && Received(n1, false, [], pieces) == frames
  {
    hide FcsAgrees, PieceAsserts, Received, Stream;
    AgreeingAll(n1, frames);
    RejectionAssertsIff(n1, frames, pieces);
  }

  lemma AlikeItself(n1: Octet -> nat, flag: bool, c: seq<Octet>)
    ensures Alike(n1, flag, c, flag, c)
  {}

  lemma NothingAtRest(n1: Octet -> nat)
    ensures RunEnd(n1, false, []) == NeedMore(false, [])
  {}

  lemma NoneEnded(n1: Octet -> nat, frames: seq<Frame>)
    requires AllFit(n1, frames)
    ensures Ended(n1, frames, 0) == 0
  {
    if frames != [] {
      StartsWithFlag(frames[0]);
    }
  }

  // ----- The cutting does matter -----

  function Encodings(n1: Octet -> nat, frames: seq<Frame>): (pieces: seq<seq<Octet>>)
    requires AllFit(n1, frames)
    ensures |pieces| == |frames|
  {
    if frames == [] then [] else [Encode(frames[0])] + Encodings(n1, frames[1..])
  }

  lemma {:induction false} BeforeEncoding(n1: Octet -> nat, frames: seq<Frame>, j: nat)
    requires AllFit(n1, frames) && j <= |frames|
    ensures Before(Encodings(n1, frames), j) == |Stream(n1, frames[..j])|
    ensures Concat(Encodings(n1, frames)) == Stream(n1, frames)
    decreases |frames|
  {
    hide Encode;
    if frames == [] {
      assert Encodings(n1, frames)[..0] == [];
    } else {
      assert Encodings(n1, frames)[1..] == Encodings(n1, frames[1..]);
      if j == 0 {
        BeforeEncoding(n1, frames[1..], 0);
        BeforeNone(Encodings(n1, frames));
      } else {
        BeforeEncoding(n1, frames[1..], j - 1);
        BeforeNext(Encodings(n1, frames), j - 1);
        StreamCons(n1, frames, j);
      }
    }
  }

  lemma {:induction false} EndedWhole(n1: Octet -> nat, frames: seq<Frame>, m: nat)
    requires AllFit(n1, frames) && m <= |frames|
    ensures Ended(n1, frames, |Stream(n1, frames[..m])|) == m
    decreases |frames|
  {
    if m == 0 {
      NoneEnded(n1, frames);
    } else {
      hide Encode;
      StreamCons(n1, frames, m);
      EndedWhole(n1, frames[1..], m - 1);
    }
  }

  /** Frames that arrive one by one never lead to the assertion, however many are rejected. */
  lemma OneByOneNeverAsserts(n1: Octet -> nat, frames: seq<Frame>)
    requires AllFit(n1, frames)
    ensures !PieceAsserts(n1, false, [], Encodings(n1, frames))
  {
    hide PieceAsserts, Ended, Before, Rejected;
    var pieces := Encodings(n1, frames);
    BeforeEncoding(n1, frames, 0);
    RejectionAssertsIff(n1, frames, pieces);
    forall j: nat, i: nat
      ensures !PieceRejects(n1, frames, 0, pieces, j, i)
    {
      if j < |pieces| {
        BeforeEncoding(n1, frames, j);
        BeforeEncoding(n1, frames, j + 1);
        EndedWhole(n1, frames, j);
        EndedWhole(n1, frames, j + 1);
      }
    }
  }

  /** In one piece they do exactly if three in a row are rejected. */
  lemma AllAtOnceAssertsIff(n1: Octet -> nat, frames: seq<Frame>)
    requires AllFit(n1, frames)
    ensures PieceAsserts(n1, false, [], [Stream(n1, frames)]) <==> exists i: nat :: Rejected(n1, frames, i)
  {
    hide PieceAsserts, Ended, Rejected;
    var pieces := [Stream(n1, frames)];
    assert pieces[1..] == [] && pieces[..0] == [] && pieces[..1] == pieces && frames[..|frames|] == frames;
    RejectionAssertsIff(n1, frames, pieces);
    EndedWhole(n1, frames, |frames|);
    NoneEnded(n1, frames);
    if i: nat :| Rejected(n1, frames, i) {
      assert i + 3 <= |frames| by { RejectedLater(n1, frames, |frames|, i); }
      assert PieceRejects(n1, frames, 0, pieces, 0, i);
    }
  }
}

/** What the basic option's receiver counts as dropped: each rejected frame once, however the calls come. */
module BasicDrops {
  import opened Octets
  import opened BasicSpec
  import opened BasicStream
  import opened BasicRejection

  /** The drops of the run over the octets. */
  function RunDrops(n1: Octet -> nat, flag: bool, c: seq<Octet>): nat
    decreases |c|
  {
    TryShrinks(n1, flag, c);
    match Try(n1, flag, c)
    case NeedMore(_, _) => 0
    case Got(_, rest) => RunDrops(n1, false, rest)
    case Drop(rest) => 1 + RunDrops(n1, false, rest)
  }

  /** A call that does not assert counts the drops of the run up to its frame, or to its end; one that does, the rest to three. */
  lemma {:induction false} CallDrops(n1: Octet -> nat, flag: bool, c: seq<Octet>, depth: nat, dropped: nat)
    requires depth < MAX_RESYNC_GET_FRAME_COUNT
    ensures var r := GetFrame(n1, flag, c, depth, dropped);
      && (r.Returned? ==>
            r.dropped + (if r.frame.Some? then RunDrops(n1, r.flag, r.rest) else 0) == dropped + RunDrops(n1, flag, c))
      && (r.Asserted? ==> r.dropped == dropped + MAX_RESYNC_GET_FRAME_COUNT - depth)
    decreases MAX_RESYNC_GET_FRAME_COUNT - depth
  {
    hide Try;
    TryShrinks(n1, flag, c);
    var a := Try(n1, flag, c);
    if a.Drop? && depth + 1 < MAX_RESYNC_GET_FRAME_COUNT {
      CallDrops(n1, false, a.rest, depth + 1, dropped + 1);
    }
  }

  function RejectedCount(n1: Octet -> nat, frames: seq<Frame>): nat
    requires AllFit(n1, frames)
  {
    if frames == [] then 0 else (if FcsAgrees(frames[0]) then 0 else 1) + RejectedCount(n1, frames[1..])
  }

  lemma DropsAlike(n1: Octet -> nat, flag: bool, c: seq<Octet>, flag': bool, c': seq<Octet>)
    requires Try(n1, flag, c) == Try(n1, flag', c')
    ensures RunDrops(n1, flag, c) == RunDrops(n1, flag', c')
  {
    hide Try;
  }

  lemma NothingDropped(n1: Octet -> nat, flag: bool)
    ensures RunDrops(n1, flag, []) == 0
  {}

  /** Over frames within their limits the run drops exactly those whose check octets disagree. */
  lemma {:induction false} RejectedAreCounted(n1: Octet -> nat, flag: bool, frames: seq<Frame>)
    requires AllFit(n1, frames)
    ensures RunDrops(n1, flag, Stream(n1, frames)) == RejectedCount(n1, frames)
    decreases |frames|
  {
    hide Try, Encode, FcsAgrees, RunDrops;
    if frames == [] {
      NothingDropped(n1, flag);
    } else {
      var f, x := frames[0], Stream(n1, frames[1..]);
      FrameStep(n1, flag, f, x);
      DropsStep(n1, flag, f, x);
      if !FcsAgrees(f) {
        FlagEitherWay(n1, x);
        DropsAlike(n1, false, [BASIC_FLAG] + x, true, x);
        RejectedAreCounted(n1, true, frames[1..]);
      } else {
        RejectedAreCounted(n1, false, frames[1..]);
      }
    }
  }

  lemma DropsStep(n1: Octet -> nat, flag: bool, f: Frame, x: seq<Octet>)
    requires Fits(n1, f) && Try(n1, flag, Encode(f) + x) == if FcsAgrees(f) then Got(f, x) else Drop([BASIC_FLAG] + x)
    ensures RunDrops(n1, flag, Encode(f) + x)
            == if FcsAgrees(f) then RunDrops(n1, false, x) else 1 + RunDrops(n1, false, [BASIC_FLAG] + x)
  {
    hide Try, Encode, FcsAgrees;
  }
}

/**
 What reception of whole streams delivers in the basic option, and why a full ring never stops it.
 */
module BasicStream {
  import opened Octets
  import opened BasicSpec
  import Fcs

  const MAX_LENGTH := 32767

  /** One octet with the extension bit set, or two of which the first has it clear. */
  function LengthField(n: nat): seq<Octet>
    requires n <= MAX_LENGTH
  {
    if n > 127 then [((n % 128) as Octet) << 1, (n / 128) as Octet]
    else [1 | ((n as Octet) << 1)]
  }

  function Header(channel: Octet, control: Octet, n: nat): seq<Octet>
    requires n <= MAX_LENGTH
  {
    [Address(channel), control] + LengthField(n)
  }

  /** What the sender writes for one frame. */
  function Encode(f: Frame): seq<Octet>
    requires |f.data| <= MAX_LENGTH
  {
    var header := Header(f.channel, f.control, |f.data|);
    [BASIC_FLAG] + header + f.data + [Fcs.FrameFcs(header), BASIC_FLAG]
  }

  lemma LowOctet(b: Octet)
    requires b < 128
    ensures (b << 1) & 1 == 0 && ((b << 1) & 254) >> 1 == b
    ensures (1 | (b << 1)) & 1 == 1 && ((1 | (b << 1)) & 254) >> 1 == b
  {}

  lemma OctetOf(n: nat)
    requires n < 256
    ensures (n as Octet) as int == n
  {
    if n > 0 {
      OctetOf(n - 1);
      var b := (n - 1) as Octet;
      assert (b + 1) as int == n;
      assert ((b + 1) as int) as Octet == b + 1;
    }
  }

  lemma SmallOctet(n: nat)
    requires n < 128
    ensures (n as Octet) < 128
  {}

  /** Shifting the seven low bits of a length up and back again. */
  lemma SevenBits(n: nat)
    requires n < 128
    ensures var b := (n as Octet) << 1;
      b & 1 == 0 && ((b & 254) >> 1) as int == n && (1 | b) & 1 == 1 && (((1 | b) & 254) >> 1) as int == n
  {
    SmallOctet(n);
    LowOctet(n as Octet);
    OctetOf(n);
  }

  lemma LongField(n: nat)
    requires 127 < n <= MAX_LENGTH
    ensures var field := LengthField(n);
      && |field| == 2 && field[0] & EA == 0
      && ((field[0] & 254) >> 1) as int == n % 128 && field[1] as int == n / 128
  {
    SevenBits(n % 128);
    OctetOf(n / 128);
  }

  lemma ShortField(n: nat)
    requires n <= 127
    ensures var field := LengthField(n);
      && |field| == 1 && field[0] & EA != 0 && ((field[0] & 254) >> 1) as int == n
  {
    SevenBits(n);
  }

  /** The length field read back is the length. */
  lemma LengthDecodes(n: nat, c: seq<Octet>)
    requires n <= MAX_LENGTH && |c| >= 5 && c[2..2 + |LengthField(n)|] == LengthField(n)
    ensures HeaderSize(c) == 2 + |LengthField(n)| && PayloadSize(c) == n
  {
    hide LengthField;
    var field := LengthField(n);
    if n > 127 {
      LongField(n);
      assert c[2] == c[2..4][0] && c[3] == c[2..4][1];
    } else {
      ShortField(n);
      assert c[2] == c[2..3][0];
    }
  }

  /** Sender and receiver come to the same check octet. */
  predicate FcsAgrees(f: Frame)
    requires |f.data| <= MAX_LENGTH
  {
    Fcs.Agrees(Header(f.channel, f.control, |f.data|), f)
  }

  /** Behind the flag the receiver finds header, payload and check octet where the sender put them. */
  lemma EncodedLayout(f: Frame, x: seq<Octet>)
    requires |f.data| <= MAX_LENGTH
    ensures var header, n := Header(f.channel, f.control, |f.data|), |f.data|;
      var c := header + f.data + [Fcs.FrameFcs(header), BASIC_FLAG] + x;
      var h := |header|;
      && Encode(f) + x == [BASIC_FLAG] + c && 3 <= h <= 4 && |c| == h + n + 2 + |x|
      && c[0] == Address(f.channel) && c[1] == f.control
      && HeaderSize(c) == h && PayloadSize(c) == n
      && c[..h] == header && c[h..h + n] == f.data && c[h + n] == Fcs.FrameFcs(header)
      && c[h + n + 1] == BASIC_FLAG && c[h + n + 1..] == [BASIC_FLAG] + x && c[h + n + 2..] == x
  {
    hide Fcs.FrameFcs, LengthField, Address, HeaderSize, PayloadSize;
    var header, n := Header(f.channel, f.control, |f.data|), |f.data|;
    FieldSize(n);
    var c := header + f.data + [Fcs.FrameFcs(header), BASIC_FLAG] + x;
    assert c[2..2 + |LengthField(n)|] == LengthField(n);
    LengthDecodes(n, c);
  }

  /** A frame is read back exactly as sent, and to its last octet, or it is dropped: whatever follows it. */
  lemma EncodedIsParsed(n1: Octet -> nat, f: Frame, x: seq<Octet>)
    requires f.channel < 64 && |f.data| <= MAX_LENGTH && |f.data| <= n1(f.channel)
    ensures Try(n1, false, Encode(f) + x) == Got(f, x) <==> FcsAgrees(f)
    ensures !FcsAgrees(f) ==> Try(n1, false, Encode(f) + x) == Drop([BASIC_FLAG] + x)
  {
    hide Fcs.Accepts, Fcs.FrameFcs, Header, Address, DecodeAddress, HeaderSize, PayloadSize, Encode;
    var header := Header(f.channel, f.control, |f.data|);
    var fcs := Fcs.FrameFcs(header);
    var c := header + f.data + [fcs, BASIC_FLAG] + x;
    EncodedLayout(f, x);
    AddressFacts(f.channel);
    FlagThenFrame(c);
    assert Checked(c) == (if FrameIs(TYPE_UI, f.control) then header + f.data else header) + [fcs];
    hide Checked;
    if FrameIs(TYPE_UI, f.control) {
      Fcs.ResidueAcceptsOnlyFrameFcs(header + f.data, fcs);
    } else {
      Fcs.ResidueAcceptsOnlyFrameFcs(header, fcs);
    }
  }

  lemma FlagThenFrame(c: seq<Octet>)
    requires c != [] && c[0] != BASIC_FLAG
    ensures FindFlag([BASIC_FLAG] + c) == Some(c) && SkipFlags(c) == c
  {
    assert ([BASIC_FLAG] + c)[1..] == c;
  }

  lemma FieldSize(n: nat)
    requires n <= MAX_LENGTH
    ensures 1 <= |LengthField(n)| <= 2
  {}

  lemma UiAgrees(channel: Octet, b: Octet)
    ensures var f := Fcs.Fold(0xFF, Header(channel, TYPE_UI, 1));
      FcsAgrees(Frame(channel, TYPE_UI, [b])) <==> Fcs.Feed(f, b) == f
  {
    hide Fcs.Fold, Fcs.Feed, Header;
    var header := Header(channel, TYPE_UI, 1);
    var f := Fcs.Fold(0xFF, header);
    assert FrameIs(TYPE_UI, TYPE_UI);
    Fcs.FoldAppend(0xFF, header, [b]);
    Fcs.FoldOne(f, b);
    SameComplement(Fcs.Feed(f, b), f);
  }

  lemma SameComplement(x: Octet, y: Octet)
    ensures 0xFF - x == 0xFF - y <==> x == y
  {}

  /** Of all one-octet payloads at most one survives in a UI frame. */
  lemma UiPayloadLost(channel: Octet, a: Octet, b: Octet)
    requires a != b
    ensures !FcsAgrees(Frame(channel, TYPE_UI, [a])) || !FcsAgrees(Frame(channel, TYPE_UI, [b]))
  {
    hide Fcs.Fold, Fcs.Feed, Header, FcsAgrees;
    var f := Fcs.Fold(0xFF, Header(channel, TYPE_UI, 1));
    UiAgrees(channel, a);
    UiAgrees(channel, b);
    if Fcs.Feed(f, a) == Fcs.Feed(f, b) {
      Fcs.FeedInjective(f, a, f, b);
    }
  }

  // ----- The stream that is sent -----

  /** The frame is within the channel's limit. */
  predicate Fits(n1: Octet -> nat, f: Frame) {
    f.channel < 64 && |f.data| <= MAX_LENGTH && |f.data| <= n1(f.channel)
  }

  predicate AllFit(n1: Octet -> nat, frames: seq<Frame>) {
    forall i :: 0 <= i < |frames| ==> Fits(n1, frames[i])
  }

  predicate Sendable(n1: Octet -> nat, f: Frame) {
    Fits(n1, f) && FcsAgrees(f)
  }

  predicate AllSendable(n1: Octet -> nat, frames: seq<Frame>) {
    forall i :: 0 <= i < |frames| ==> Sendable(n1, frames[i])
  }

  function Stream(n1: Octet -> nat, frames: seq<Frame>): seq<Octet>
    requires AllFit(n1, frames)
  {
    if frames == [] then [] else Encode(frames[0]) + Stream(n1, frames[1..])
  }

  lemma RunOfNothing(n1: Octet -> nat)
    ensures RunFrames(n1, false, []) == [] && RunEnd(n1, false, []) == NeedMore(false, []) && NoDrops(n1, false, [])
  {}

  lemma RunFromFrame(n1: Octet -> nat, c: seq<Octet>, f: Frame, x: seq<Octet>)
    requires Try(n1, false, c) == Got(f, x)
    ensures RunFrames(n1, false, c) == [f] + RunFrames(n1, false, x)
    ensures RunEnd(n1, false, c) == RunEnd(n1, false, x) && NoDrops(n1, false, c) == NoDrops(n1, false, x)
  {
    hide Try;
  }

  /** The whole stream yields the frames that were sent, leaves nothing over and drops nothing. */
  lemma {:induction false} StreamIsParsed(n1: Octet -> nat, frames: seq<Frame>)
    requires AllSendable(n1, frames)
    ensures RunFrames(n1, false, Stream(n1, frames)) == frames
    ensures RunEnd(n1, false, Stream(n1, frames)) == NeedMore(false, [])
    ensures NoDrops(n1, false, Stream(n1, frames))
    decreases |frames|
  {
    hide Try, Encode, RunFrames, RunEnd, NoDrops, FcsAgrees;
    if frames == [] {
      RunOfNothing(n1);
    } else {
      var x := Stream(n1, frames[1..]);
      EncodedIsParsed(n1, frames[0], x);
      RunFromFrame(n1, Encode(frames[0]) + x, frames[0], x);
      StreamIsParsed(n1, frames[1..]);
      assert [frames[0]] + frames[1..] == frames;
    }
  }

  // ----- Reception in pieces -----

  /** The assertion stops the daemon at some piece, when the stream arrives behind what is already in the buffer. */
  predicate PieceAsserts(n1: Octet -> nat, flag: bool, c: seq<Octet>, pieces: seq<seq<Octet>>)
    decreases |pieces|
  {
    pieces != [] &&
    (LoopAsserts(n1, flag, c + pieces[0]) ||
     var e := RunEnd(n1, flag, c + pieces[0]); PieceAsserts(n1, e.flag, e.rest, pieces[1..]))
  }

  /** The frames delivered, until then. */
  function Received(n1: Octet -> nat, flag: bool, c: seq<Octet>, pieces: seq<seq<Octet>>): seq<Frame>
    decreases |pieces|
  {
    if pieces == [] then []
    else if LoopAsserts(n1, flag, c + pieces[0]) then LoopFrames(n1, flag, c + pieces[0])
    else
      var e := RunEnd(n1, flag, c + pieces[0]);
      LoopFrames(n1, flag, c + pieces[0]) + Received(n1, e.flag, e.rest, pieces[1..])
  }

  /** What is left in the buffer, and whether a flag was found. */
  function PieceEnd(n1: Octet -> nat, flag: bool, c: seq<Octet>, pieces: seq<seq<Octet>>): (e: Attempt)
    ensures e.NeedMore?
    decreases |pieces|
  {
    if pieces == [] then NeedMore(flag, c)
    else
      var e := RunEnd(n1, flag, c + pieces[0]);
      PieceEnd(n1, e.flag, e.rest, pieces[1..])
  }

  /** One more piece. */
  lemma {:induction false} OneMorePiece(n1: Octet -> nat, flag: bool, c: seq<Octet>, pieces: seq<seq<Octet>>,
      p: seq<Octet>)
    requires !PieceAsserts(n1, flag, c, pieces)
    ensures var e := PieceEnd(n1, flag, c, pieces);
      && (PieceAsserts(n1, flag, c, pieces + [p]) <==> LoopAsserts(n1, e.flag, e.rest + p))
      && Received(n1, flag, c, pieces + [p]) == Received(n1, flag, c, pieces) + LoopFrames(n1, e.flag, e.rest + p)
      && PieceEnd(n1, flag, c, pieces + [p]) == RunEnd(n1, e.flag, e.rest + p)
    decreases |pieces|
  {
    hide RunFrames, RunEnd, LoopAsserts, LoopFrames;
    if pieces == [] {
      assert (pieces + [p])[1..] == [];
    } else {
      var e := RunEnd(n1, flag, c + pieces[0]);
      assert (pieces + [p])[1..] == pieces[1..] + [p] && (pieces + [p])[0] == pieces[0];
      OneMorePiece(n1, e.flag, e.rest, pieces[1..], p);
    }
  }

  /**
   For every cutting in which no piece leads to the assertion delivery is that of one run over the whole stream;
   for every other it is the beginning of that.
   */
  lemma {:induction false} PiecesAreOneRun(n1: Octet -> nat, flag: bool, c: seq<Octet>, pieces: seq<seq<Octet>>)
    requires RunEnd(n1, flag, c) == NeedMore(flag, c)
    ensures Received(n1, flag, c, pieces) <= RunFrames(n1, flag, c + Concat(pieces))
    ensures !PieceAsserts(n1, flag, c, pieces) ==> Received(n1, flag, c, pieces) == RunFrames(n1, flag, c + Concat(pieces))
    decreases |pieces|
  {
    hide RunFrames, RunEnd, LoopAsserts, LoopFrames;
    if pieces == [] {
      assert c + Concat(pieces) == c;
      AtRestIsSilent(n1, flag, c);
    } else {
      var p, rest := pieces[0], Concat(pieces[1..]);
      assert c + Concat(pieces) == (c + p) + rest;
      var e := RunEnd(n1, flag, c + p);
      RunAppend(n1, flag, c + p, rest);
      EndIsAtRest(n1, flag, c + p);
      LoopFollowsRun(n1, flag, c + p);
      PiecesAreOneRun(n1, e.flag, e.rest, pieces[1..]);
    }
  }

  lemma {:induction false} EndIsAtRest(n1: Octet -> nat, flag: bool, c: seq<Octet>)
    ensures var e := RunEnd(n1, flag, c); RunEnd(n1, e.flag, e.rest) == e
    decreases |c|
  {
    hide Try;
    TryShrinks(n1, flag, c);
    var a := Try(n1, flag, c);
    if a.NeedMore? {
      RestWantsMore(n1, flag, c);
    } else {
      EndIsAtRest(n1, false, a.rest);
    }
  }

  lemma AtRestIsSilent(n1: Octet -> nat, flag: bool, c: seq<Octet>)
    requires RunEnd(n1, flag, c) == NeedMore(flag, c)
    ensures RunFrames(n1, flag, c) == []
  {
    hide Try;
    TryShrinks(n1, flag, c);
  }

  // ----- A full ring -----

  lemma ParseOfFull(n1: Octet -> nat, c: seq<Octet>)
    requires forall ch: Octet :: ch < 64 ==> n1(ch) <= BUFFER_SIZE - 6
    requires Parse(n1, c).NeedMore?
    ensures |c| < BUFFER_SIZE
  {
    hide Fcs.Accepts;
    if |c| >= 5 {
      assert DecodeAddress(c[0]) < 64;
    }
  }

  lemma TryOfFull(n1: Octet -> nat, flag: bool, c: seq<Octet>)
    requires forall ch: Octet :: ch < 64 ==> n1(ch) <= BUFFER_SIZE - 6
    requires Try(n1, flag, c).NeedMore?
    ensures |Try(n1, flag, c).rest| < BUFFER_SIZE
  {
    hide Parse;
    var behind := if flag then Some(c) else FindFlag(c);
    if behind.Some? {
      ParseShrinks(n1, SkipFlags(behind.value));
      ParseOfFull(n1, SkipFlags(behind.value));
    }
  }

  lemma {:induction false} RunLeavesRoom(n1: Octet -> nat, flag: bool, c: seq<Octet>)
    requires forall ch: Octet :: ch < 64 ==> n1(ch) <= BUFFER_SIZE - 6
    ensures |RunEnd(n1, flag, c).rest| < BUFFER_SIZE
    decreases |c|
  {
    hide Try;
    TryShrinks(n1, flag, c);
    var a := Try(n1, flag, c);
    if a.NeedMore? {
      TryOfFull(n1, flag, c);
    } else {
      RunLeavesRoom(n1, false, a.rest);
    }
  }

  /** A frame one octet too long for the ring: it fills the ring and is still incomplete. */
  lemma TooLongWedges(n1: Octet -> nat, channel: Octet)
    requires channel < 64 && n1(channel) > BUFFER_SIZE - 6
    ensures var c := Header(channel, TYPE_UIH, BUFFER_SIZE - 5) + seq(BUFFER_SIZE - 4, _ => 0);
      |c| == BUFFER_SIZE && GetFrame(n1, true, c, 0, 0) == Returned(None, true, c, 0)
  {
    hide Fcs.Accepts, LengthField, Address, DecodeAddress, HeaderSize, PayloadSize;
    var n := BUFFER_SIZE - 5;
    var c := Header(channel, TYPE_UIH, n) + seq(BUFFER_SIZE - 4, _ => 0);
    AddressFacts(channel);
    assert |LengthField(n)| == 2 by { LongField(n); }
    assert c[2..2 + |LengthField(n)|] == LengthField(n);
    LengthDecodes(n, c);
    assert SkipFlags(c) == c;
  }

  /** A call on a full ring always makes room exactly when no channel admits more than 2042 octets. */
  lemma FullRingProgressIff(n1: Octet -> nat)
    ensures (forall c :: |c| == BUFFER_SIZE ==> |GetFrame(n1, true, c, 0, 0).rest| < BUFFER_SIZE)
            <==> (forall ch: Octet :: ch < 64 ==> n1(ch) <= BUFFER_SIZE - 6)
  {
    hide Try, Header;
    if forall ch: Octet :: ch < 64 ==> n1(ch) <= BUFFER_SIZE - 6 {
      forall c | |c| == BUFFER_SIZE
        ensures |GetFrame(n1, true, c, 0, 0).rest| < BUFFER_SIZE
      {
        FullRingCall(n1, true, c);
      }
    } else {
      var ch: Octet :| ch < 64 && n1(ch) > BUFFER_SIZE - 6;
      TooLongWedges(n1, ch);
    }
  }

  lemma FullRingCall(n1: Octet -> nat, flag: bool, c: seq<Octet>)
    requires |c| == BUFFER_SIZE && forall ch: Octet :: ch < 64 ==> n1(ch) <= BUFFER_SIZE - 6
    ensures |GetFrame(n1, flag, c, 0, 0).rest| < BUFFER_SIZE
  {
    hide Try;
    var a := Try(n1, flag, c);
    TryShrinks(n1, flag, c);
    if a.NeedMore? {
      TryOfFull(n1, flag, c);
    } else if a.Drop? {
      CallFollowsRun(n1, false, a.rest, 1, 1);
    }
  }

  /** The limits the daemon is configured with: 512 for its own channels, cmux_N1 for all others. */
  function ConfiguredN1(channel: Octet): nat {
    if channel <= 10 || channel == 26 || channel == 27 then 512 else 1509
  }

  lemma ConfiguredRingNeverWedges(c: seq<Octet>)
    requires |c| == BUFFER_SIZE
    ensures |GetFrame(ConfiguredN1, true, c, 0, 0).rest| < BUFFER_SIZE
  {
    FullRingCall(ConfiguredN1, true, c);
  }
}

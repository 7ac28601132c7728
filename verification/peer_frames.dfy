/**
 Frames as a peer sends them: the two low bits of the address octet in any setting, the command/response bit clear
 in the commands of the other side among them. They arrive as the daemon's own do, with one exception.
 */
module PeerFrames {
  import opened Octets
  import opened WireFormat
  import Fcs
  import Spec = BasicSpec
  import Basic = BasicStream
  import Machine = AdvancedSpec
  import Advanced = AdvancedStream
  import AdvancedThreads
  import BasicDecoder

  datatype Peer = Peer(address: Octet, control: Octet, data: seq<Octet>)

  /** What is to be handed on of it. */
  function Meant(p: Peer): Frame {
    Frame((p.address as int / 4) as Octet, p.control, p.data)
  }

  /** The check octet covers the head only, and the receivers take it over the payload of a UI frame too. */
  predicate Agrees(head: seq<Octet>, p: Peer) {
    IsUi(p.control) ==> Fcs.CheckOctet(head + p.data) == Fcs.CheckOctet(head)
  }

  // ----- The advanced option -----

  predicate AdvancedAgrees(p: Peer) {
    Agrees([p.address, p.control], p)
  }

  function PeerBody(p: Peer): seq<Octet> {
    [p.address, p.control] + p.data + [Fcs.CheckOctet([p.address, p.control])]
  }

  function PeerBodies(ps: seq<Peer>): (bodies: seq<seq<Octet>>)
    ensures |bodies| == |ps| && forall i :: 0 <= i < |ps| ==> bodies[i] == PeerBody(ps[i])
  {
    seq(|ps|, i requires 0 <= i < |ps| => PeerBody(ps[i]))
  }

  /** Those to be accepted. */
  function AllMeant(ps: seq<Peer>): seq<Frame> {
    if ps == [] then [] else (if AdvancedAgrees(ps[0]) then [Meant(ps[0])] else []) + AllMeant(ps[1..])
  }

  /** The body is accepted exactly if the check octets agree, and then it is read as it was meant. */
  lemma PeerBodyAccepted(p: Peer)
    ensures Advanced.Accepted(PeerBody(p)) == if AdvancedAgrees(p) then [Meant(p)] else []
  {
    hide Fcs.CheckOctet, IsUi;
    var body, f, head := PeerBody(p), Meant(p), [p.address, p.control];
    OctetIsNumber(f.channel, p.address as int / 4);
    assert body[2..|body| - 1] == p.data && body[..2] == head && body[..|body| - 1] == head + p.data;
    assert BodyReceived(body, f) <==> AdvancedAgrees(p);
    hide BodyReceived;
    ClosedInNumbers(body, f);
    if Machine.Close(body).Got? {
      ClosedInNumbers(body, Machine.Close(body).frame);
      SameFrame(body, Machine.Close(body).frame, f);
    }
  }

  lemma SameFrame(body: seq<Octet>, g: Frame, f: Frame)
    requires BodyReceived(body, g) && |body| >= 3
    requires f == Frame((body[0] as int / 4) as Octet, body[1], body[2..|body| - 1])
    ensures g == f
  {
    hide Fcs.CheckOctet, IsUi;
    OctetIsNumber(g.channel, body[0] as int / 4);
  }

  lemma {:induction false} BodiesAreMeant(ps: seq<Peer>)
    ensures Advanced.Sent(PeerBodies(ps)) == AllMeant(ps)
  {
    hide PeerBody, AdvancedAgrees, Meant, Advanced.Accepted;
    if ps != [] {
      PeerBodyAccepted(ps[0]);
      BodiesAreMeant(ps[1..]);
      assert PeerBodies(ps)[1..] == PeerBodies(ps[1..]);
    }
  }

  predicate AllWithin(ps: seq<Peer>) {
    forall i :: 0 <= i < |ps| ==> |ps[i].data| <= Advanced.MAX_PAYLOAD
  }

  /** For pieces that arrive between calls the accepted ones arrive, in order, for every cutting. */
  lemma PeersRoundTrip(ps: seq<Peer>, chunks: seq<seq<Octet>>)
    requires AllWithin(ps) && Concat(chunks) == Advanced.Stream(PeerBodies(ps))
    ensures Advanced.DeliverFrames(Machine.Hunting, chunks) == AllMeant(ps)
    ensures Advanced.DeliverState(Machine.Hunting, chunks) == Machine.Hunting
  {
    BodiesAreMeant(ps);
    Advanced.StreamRoundTrip(PeerBodies(ps), chunks);
  }

  /** And in every interleaving of publications with the looks of the decoder. */
  lemma PeersArriveInEveryInterleaving(e0: AdvancedThreads.Config, trace: seq<AdvancedThreads.Action>, ps: seq<Peer>)
    requires AdvancedThreads.Init(e0) && e0.start == Machine.Hunting && AdvancedThreads.Runs(e0, trace) && AllWithin(ps)
    requires var e := AdvancedThreads.Run(e0, trace);
      e.published == Advanced.Stream(PeerBodies(ps)) && e.unread == []
    ensures AdvancedThreads.Run(e0, trace).delivered == AllMeant(ps)
  {
    hide PeerBody, AdvancedThreads.Runs, AdvancedThreads.Run;
    BodiesAreMeant(ps);
    assert Advanced.AllFitting(PeerBodies(ps)) by { BodySizes(ps); }
    assert AdvancedThreads.Run(e0, trace).published + [] == Advanced.Stream(PeerBodies(ps));
    AdvancedThreads.FramesArriveInEveryInterleaving(e0, trace, PeerBodies(ps), []);
  }

  lemma BodySizes(ps: seq<Peer>)
    requires AllWithin(ps)
    ensures Advanced.AllFitting(PeerBodies(ps))
  {}

  // ----- The basic option -----

  function PeerHead(p: Peer): seq<Octet>
    requires |p.data| <= Basic.MAX_LENGTH
  {
    [p.address, p.control] + Basic.LengthField(|p.data|)
  }

  predicate BasicAgrees(p: Peer)
    requires |p.data| <= Basic.MAX_LENGTH
  {
    Agrees(PeerHead(p), p)
  }

  /** Behind the opening flag. */
  function Inner(p: Peer): seq<Octet>
    requires |p.data| <= Basic.MAX_LENGTH
  {
    PeerHead(p) + p.data + [Fcs.CheckOctet(PeerHead(p)), 0xF9]
  }

  function PeerLine(p: Peer): seq<Octet>
    requires |p.data| <= Basic.MAX_LENGTH
  {
    [0xF9] + Inner(p)
  }

  predicate Within(n1: Octet -> nat, p: Peer) {
    |p.data| <= Basic.MAX_LENGTH && |p.data| <= n1((p.address as int / 4) as Octet)
  }

  lemma ShortField(n: nat, low: Octet, high: Octet)
    requires n <= 127 && low as int == 2 * n + 1
    ensures HeadOf(low) == 3 && LengthIn(low, high) == n
  {}

  lemma LongField(n: nat, low: Octet, high: Octet)
    requires low as int == 2 * (n % 128) && high as int == n / 128
    ensures HeadOf(low) == 4 && LengthIn(low, high) == n
  {
    SevenAndMore(n, low as int, high as int);
  }

  lemma SevenAndMore(n: int, low: int, high: int)
    requires low == 2 * (n % 128) && high == n / 128
    ensures low % 2 == 0 && low / 2 + 128 * high == n
  {}

  /** Whatever stands behind it, the head says how long it is itself and how long the payload. */
  lemma HeadReads(p: Peer, x: seq<Octet>)
    requires |p.data| <= Basic.MAX_LENGTH && |x| > 0
    ensures var n, w := |p.data|, PeerHead(p) + x;
      && |PeerHead(p)| == 2 + LengthSize(n) && w[0] == p.address && w[1] == p.control
      && HeadOf(w[2]) == |PeerHead(p)| && LengthIn(w[2], w[3]) == n
  {
    hide Basic.LengthField, HeadOf, LengthIn;
    var n, w := |p.data|, PeerHead(p) + x;
    FieldValues(n);
    if n <= 127 {
      ShortField(n, w[2], w[3]);
    } else {
      LongField(n, w[2], w[3]);
    }
  }

  lemma InnerLaidOut(p: Peer)
    requires |p.data| <= Basic.MAX_LENGTH
    ensures var w, h, n := Inner(p), 2 + LengthSize(|p.data|), |p.data|;
      && |w| == h + n + 2 && |w| >= 5 && w[0] == p.address && w[1] == p.control
      && HeadOf(w[2]) == h && LengthIn(w[2], w[3]) == n
      && w[..h] == PeerHead(p) && w[h..h + n] == p.data && w[..h + n] == PeerHead(p) + p.data
      && w[h + n] == Fcs.CheckOctet(PeerHead(p)) && w[h + n + 1] == 0xF9
  {
    HeadReads(p, p.data + [Fcs.CheckOctet(PeerHead(p)), 0xF9]);
    hide Fcs.CheckOctet, PeerHead, HeadOf, LengthIn;
    var w, head := Inner(p), PeerHead(p);
    assert w == head + (p.data + [Fcs.CheckOctet(head), 0xF9]);
    assert w[..|head|] == head;
  }

  lemma ChannelMeant(p: Peer)
    ensures Meant(p).channel as int == p.address as int / 4 && Meant(p).control == p.control && Meant(p).data == p.data
  {
    OctetIsNumber(Meant(p).channel, p.address as int / 4);
  }

  lemma InnerReceivedIff(p: Peer)
    requires |p.data| <= Basic.MAX_LENGTH
    ensures BasicReceived(Inner(p), Meant(p)) <==> BasicAgrees(p)
  {
    InnerLaidOut(p);
    ChannelMeant(p);
    var w, h, n := Inner(p), 2 + LengthSize(|p.data|), |p.data|;
    hide Fcs.CheckOctet, IsUi, Inner, PeerHead, HeadOf, LengthIn, Meant, LengthSize;
    assert FrameIn(w, h, n, Meant(p));
    assert FrameGood(w, h, n) <==> BasicAgrees(p);
    hide FrameIn, FrameGood, BasicAgrees;
    assert BasicReceived(w, Meant(p)) <==> BasicAgrees(p);
  }

  lemma LineIsTried(n1: Octet -> nat, p: Peer, x: seq<Octet>)
    requires |p.data| <= Basic.MAX_LENGTH && p.address != 0xF9
    ensures Spec.Try(n1, false, PeerLine(p) + x) == Spec.Parse(n1, Inner(p) + x)
  {
    InnerLaidOut(p);
    hide Fcs.CheckOctet, Inner, PeerHead, HeadOf, LengthIn, Spec.Parse;
    var c := Inner(p) + x;
    assert PeerLine(p) + x == [0xF9] + c;
    Basic.FlagThenFrame(c);
  }

  /** With another address octet than the flag, the frame is read as it was meant exactly if the check octets agree. */
  lemma PeerIsParsed(n1: Octet -> nat, p: Peer, x: seq<Octet>)
    requires Within(n1, p) && p.address != 0xF9
    ensures Spec.Try(n1, false, PeerLine(p) + x) == Spec.Got(Meant(p), x) <==> BasicAgrees(p)
  {
    hide Inner, PeerLine, Meant, Spec.Parse, Spec.Try, BasicReceived, BasicAgrees;
    LineIsTried(n1, p, x);
    InnerReceivedIff(p);
    var c := Inner(p) + x;
    ParsedIffReceived(n1, c, Meant(p), x);
    assert c[..|c| - |x|] == Inner(p) && c[|c| - |x|..] == x;
    MeantSize(n1, p);
  }

  lemma MeantSize(n1: Octet -> nat, p: Peer)
    requires Within(n1, p)
    ensures |Meant(p).data| <= n1(Meant(p).channel)
  {}

  lemma SkippedAddress(n1: Octet -> nat, p: Peer, x: seq<Octet>) returns (i: nat)
    requires |p.data| <= Basic.MAX_LENGTH && p.address == 0xF9
    ensures var c := Inner(p) + x;
      0 < i <= |c| && Spec.Try(n1, false, PeerLine(p) + x) == Spec.Parse(n1, c[i..])
  {
    InnerLaidOut(p);
    hide Fcs.CheckOctet, Inner, PeerHead, HeadOf, LengthIn, Spec.Parse;
    var c := Inner(p) + x;
    assert c[0] == 0xF9;
    i := FlagsAreInFront(c[1..]);
    assert PeerLine(p) + x == [0xF9] + c;
    TwoFlags(c);
    hide Spec.SkipFlags, Spec.FindFlag;
    assert c[1..][i..] == c[i + 1..];
    i := i + 1;
  }

  lemma TwoFlags(c: seq<Octet>)
    requires c != [] && c[0] == 0xF9
    ensures Spec.FindFlag([0xF9] + c) == Some(c) && Spec.SkipFlags(c) == Spec.SkipFlags(c[1..])
  {
    assert ([0xF9] + c)[1..] == c;
  }

  /** The address octet of channel 62 with the command bit clear is the flag: it is skipped, and the frame is lost. */
  lemma FlagAsAddress(n1: Octet -> nat, p: Peer, x: seq<Octet>)
    requires Within(n1, p) && p.address == 0xF9
    ensures Spec.Try(n1, false, PeerLine(p) + x) != Spec.Got(Meant(p), x)
  {
    hide Inner, PeerLine, Meant, Spec.Parse, Spec.Try, BasicReceived;
    var i := SkippedAddress(n1, p, x);
    var c := Inner(p) + x;
    ParsedIffReceived(n1, c[i..], Meant(p), x);
    if Spec.Parse(n1, c[i..]) == Spec.Got(Meant(p), x) {
      assert i <= |Inner(p)| && c[i..][..|c[i..]| - |x|] == Inner(p)[i..];
      TailIsOther(p, i);
    }
  }

  /** No part of it reads like the whole. */
  lemma TailIsOther(p: Peer, i: nat)
    requires |p.data| <= Basic.MAX_LENGTH && 0 < i <= |Inner(p)|
    ensures !BasicReceived(Inner(p)[i..], Meant(p))
  {
    InnerLaidOut(p);
    ChannelMeant(p);
    hide Fcs.CheckOctet, Inner, PeerHead, IsUi, Meant;
  }

  // ----- Streams -----

  predicate AllPlain(n1: Octet -> nat, ps: seq<Peer>) {
    forall i :: 0 <= i < |ps| ==> Within(n1, ps[i]) && ps[i].address != 0xF9 && BasicAgrees(ps[i])
  }

  function PeerStream(n1: Octet -> nat, ps: seq<Peer>): seq<Octet>
    requires AllPlain(n1, ps)
  {
    if ps == [] then [] else PeerLine(ps[0]) + PeerStream(n1, ps[1..])
  }

  function Meanings(ps: seq<Peer>): seq<Frame> {
    if ps == [] then [] else [Meant(ps[0])] + Meanings(ps[1..])
  }

  lemma WithinSize(n1: Octet -> nat, p: Peer)
    requires Within(n1, p)
    ensures |p.data| <= Basic.MAX_LENGTH
  {}

  /** One run over the stream of a peer yields what was meant, drops nothing and leaves nothing. */
  lemma {:induction false} PeerStreamIsParsed(n1: Octet -> nat, ps: seq<Peer>)
    requires AllPlain(n1, ps)
    ensures Spec.RunFrames(n1, false, PeerStream(n1, ps)) == Meanings(ps)
    ensures Spec.RunEnd(n1, false, PeerStream(n1, ps)) == Spec.NeedMore(false, [])
    ensures Spec.NoDrops(n1, false, PeerStream(n1, ps))
    decreases |ps|
  {
    hide Spec.Try, PeerLine, Meant, Within, BasicAgrees, Spec.RunFrames, Spec.RunEnd, Spec.NoDrops;
    if ps == [] {
      Basic.RunOfNothing(n1);
    } else {
      var x := PeerStream(n1, ps[1..]);
      assert |ps[0].data| <= Basic.MAX_LENGTH by { WithinSize(n1, ps[0]); }
      PeerIsParsed(n1, ps[0], x);
      Basic.RunFromFrame(n1, PeerLine(ps[0]) + x, Meant(ps[0]), x);
      PeerStreamIsParsed(n1, ps[1..]);
    }
  }

  /** Without a drop in the run no piece fires the assertion. */
  lemma {:induction false} NoDropsNoAssertion(n1: Octet -> nat, flag: bool, c: seq<Octet>, pieces: seq<seq<Octet>>)
    requires Spec.NoDrops(n1, flag, c + Concat(pieces))
    ensures !Basic.PieceAsserts(n1, flag, c, pieces)
    decreases |pieces|
  {
    hide Spec.RunFrames, Spec.RunEnd, Spec.NoDrops, Spec.LoopAsserts;
    if pieces != [] {
      var p, rest := pieces[0], Concat(pieces[1..]);
      assert c + Concat(pieces) == (c + p) + rest;
      Spec.RunAppend(n1, flag, c + p, rest);
      BasicDecoder.LoopWithoutDrops(n1, flag, c + p);
      var e := Spec.RunEnd(n1, flag, c + p);
      NoDropsNoAssertion(n1, e.flag, e.rest, pieces[1..]);
    }
  }

  /** However a peer's stream is cut into pieces that arrive between calls, what was meant is delivered, in order. */
  lemma PeerPiecesArrive(n1: Octet -> nat, ps: seq<Peer>, pieces: seq<seq<Octet>>)
    requires AllPlain(n1, ps) && Concat(pieces) == PeerStream(n1, ps)
    ensures !Basic.PieceAsserts(n1, false, [], pieces) && Basic.Received(n1, false, [], pieces) == Meanings(ps)
  {
    hide Spec.RunFrames, Spec.RunEnd, Spec.NoDrops, PeerStream, Meanings, Basic.PieceAsserts, Basic.Received;
    PeerStreamIsParsed(n1, ps);
    assert [] + Concat(pieces) == PeerStream(n1, ps);
    NoDropsNoAssertion(n1, false, [], pieces);
    Basic.RunOfNothing(n1);
    Basic.PiecesAreOneRun(n1, false, [], pieces);
  }
}

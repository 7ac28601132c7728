/** The basic option's decoder as the daemon runs it, on the ring and with local copies of its pointers. */
module BasicDecoder {
  import opened Octets
  import opened Ring
  import opened BasicSpec
  import opened BasicStream
  import W = WireFormat
  import D = BasicDrops
  import Fcs

  /** The call that starts from the buffer as it stands. */
  ghost function CallFrom(buf: Gsm0710Buffer, n1: Octet -> nat, depth: nat): Call
    requires buf.Valid()
    reads buf, buf.data, buf.advData
  {
    GetFrame(n1, buf.flagFound, buf.Contents(), depth, buf.droppedCount)
  }

  ghost function TryFrom(buf: Gsm0710Buffer, n1: Octet -> nat): Attempt
    requires buf.Valid()
    reads buf, buf.data, buf.advData
  {
    Try(n1, buf.flagFound, buf.Contents())
  }

  /** Searches the start flag and skips the flags behind it. */
  method FindStart(buf: Gsm0710Buffer, ghost n1: Octet -> nat)
    requires buf.Valid()
    modifies buf`flagFound, buf`readp, buf`datacount
    ensures buf.Valid() && buf.datacount <= old(buf.datacount)
    ensures !buf.flagFound ==> buf.Contents() == [] && old(TryFrom(buf, n1)) == NeedMore(false, [])
    ensures buf.flagFound ==> Parse(n1, buf.Contents()) == old(TryFrom(buf, n1))
  {
    hide Parse;
    while !buf.flagFound && buf.datacount > 0
      invariant buf.Valid() && buf.datacount <= old(buf.datacount) && TryFrom(buf, n1) == old(TryFrom(buf, n1))
      decreases buf.datacount
    {
      if buf.data[buf.readp] == BASIC_FLAG {
        buf.flagFound := true;
      }
      buf.BufferInc();
    }
    if !buf.flagFound {
      return;
    }
    while buf.datacount > 0 && buf.data[buf.readp] == BASIC_FLAG
      invariant buf.Valid() && buf.flagFound && buf.datacount <= old(buf.datacount)
      invariant TryFrom(buf, n1) == old(TryFrom(buf, n1))
      decreases buf.datacount
    {
      buf.BufferInc();
    }
  }

  datatype Kind = Incomplete | Corrupt | Complete

  /** The local pointer after one more octet. */
  function Advance(p: nat): nat {
    if p + 1 == BUFFER_SIZE then 0 else p + 1
  }

  lemma FcsByParts(c: seq<Octet>, fcs: Octet)
    requires |c| >= 5 && |c| >= HeaderSize(c) + PayloadSize(c) + 2
    requires var h, n := HeaderSize(c), PayloadSize(c);
      fcs == Fcs.Fold(Fcs.Fold(0xFF, c[..h]), if FrameIs(TYPE_UI, c[1]) then c[h..h + n] else [])
    ensures Fcs.Accepts(Checked(c)) <==> Fcs.Feed(fcs, c[HeaderSize(c) + PayloadSize(c)]) == 0xCF
  {
    hide Fcs.Feed, Fcs.Fold;
    var h, n := HeaderSize(c), PayloadSize(c);
    Fcs.AcceptsByParts(c[..h], if FrameIs(TYPE_UI, c[1]) then c[h..h + n] else [], c[h + n]);
  }

  lemma HeaderFold(c: seq<Octet>)
    requires |c| >= 4
    ensures Fcs.Fold(0xFF, c[..3]) == Fcs.Feed(Fcs.Feed(Fcs.Feed(0xFF, c[0]), c[1]), c[2])
    ensures Fcs.Fold(0xFF, c[..4]) == Fcs.Feed(Fcs.Fold(0xFF, c[..3]), c[3])
  {
    hide Fcs.Feed, Fcs.Fold;
    assert c[..2] == [c[0], c[1]] && c[..3] == c[..2] + [c[2]] && c[..4] == c[..3] + [c[3]];
    Fcs.FoldTwo(0xFF, c[0], c[1]);
    Fcs.FoldAppend(0xFF, c[..2], [c[2]]);
    Fcs.FoldOne(Fcs.Fold(0xFF, c[..2]), c[2]);
    Fcs.FoldAppend(0xFF, c[..3], [c[3]]);
    Fcs.FoldOne(Fcs.Fold(0xFF, c[..3]), c[3]);
  }

  /** Copies `length` octets from the ring, in two parts if they wrap, and moves the local pointer over them. */
  method CopyOut(buf: Gsm0710Buffer, readp: nat, length: nat, ghost k: nat) returns (payload: seq<Octet>, p: nat)
    requires buf.Valid() && readp == Pos(buf.readp, k) && k + length < buf.datacount
    ensures payload == buf.Contents()[k..k + length] && p == Pos(buf.readp, k + length)
  {
    var end := BUFFER_SIZE - readp;
    if length > end {
      payload := buf.data[readp..] + buf.data[..length - end];
      p := length - end;
    } else {
      payload := buf.data[readp..readp + length];
      p := readp + length;
      if p == BUFFER_SIZE {
        p := 0;
      }
    }
    forall i | 0 <= i < length
      ensures payload[i] == buf.Contents()[k..k + length][i]
    {
      assert buf.Contents()[k + i] == buf.data[Pos(buf.readp, k + i)];
    }
  }

  /** The octet `k` places behind the read pointer. */
  lemma Peek(buf: Gsm0710Buffer, k: nat)
    requires buf.Valid() && k < buf.datacount
    ensures Pos(buf.readp, k) < BUFFER_SIZE && buf.data[Pos(buf.readp, k)] == buf.Contents()[k]
    ensures Advance(Pos(buf.readp, k)) == Pos(buf.readp, k + 1)
  {}

  /** Reads address, control and length field; the local pointer stays on the last length octet. */
  method ReadHeader(buf: Gsm0710Buffer)
    returns (channel: Octet, control: Octet, length: nat, fcs: Octet, p: nat, n: nat)
    requires buf.Valid() && buf.datacount >= 5
    ensures var c := buf.Contents();
      && channel == DecodeAddress(c[0]) && control == c[1] && length == PayloadSize(c)
      && channel as int == c[0] as int / 4 && length == W.LengthIn(c[2], c[3])
      && fcs == Fcs.Fold(0xFF, c[..HeaderSize(c)])
      && n == |c| - (HeaderSize(c) - 1) && p == Pos(buf.readp, HeaderSize(c) - 1)
  {
    hide Fcs.Feed, Fcs.Fold, DecodeAddress;
    ghost var c := buf.Contents();
    HeaderFold(c);
    W.SizesInNumbers(c);
    DecodedChannel(c[0]);
    hide W.LengthIn, W.HeadOf;
    Peek(buf, 0);
    Peek(buf, 1);
    Peek(buf, 2);
    Peek(buf, 3);
    hide Pos, Advance, Window;
    p, n := buf.readp, buf.datacount;
    assert p == Pos(buf.readp, 0) by { NoStep(p); }
    channel := DecodeAddress(buf.data[p]);
    fcs := Fcs.Feed(0xFF, buf.data[p]);
    p, n := Advance(p), n - 1;
    control := buf.data[p];
    fcs := Fcs.Feed(fcs, buf.data[p]);
    p, n := Advance(p), n - 1;
    length := ((buf.data[p] & 254) >> 1) as int;
    fcs := Fcs.Feed(fcs, buf.data[p]);
    if buf.data[p] & EA == 0 {
      p, n := Advance(p), n - 1;
      length := length + buf.data[p] as int * 128;
      fcs := Fcs.Feed(fcs, buf.data[p]);
    }
  }

  lemma NoStep(p: nat)
    requires p < BUFFER_SIZE
    ensures Pos(p, 0) == p
  {}

  /** Copies the payload, checks FCS and end flag; `p` and `n` are the local pointer and count. */
  method CheckBody(buf: Gsm0710Buffer, control: Octet, length: nat, fcs0: Octet, p0: nat, n0: nat)
    returns (payload: seq<Octet>, good: bool, p: nat, n: nat)
    requires buf.Valid() && buf.datacount >= 5
    requires var c := buf.Contents();
      && control == c[1] && length == PayloadSize(c) && |c| >= HeaderSize(c) + length + 2
      && fcs0 == Fcs.Fold(0xFF, c[..HeaderSize(c)])
      && n0 == |c| - (HeaderSize(c) - 1) && p0 == Pos(buf.readp, HeaderSize(c) - 1)
    ensures var c, h := buf.Contents(), HeaderSize(buf.Contents());
      && payload == c[h..h + length]
      && (good <==> Fcs.Accepts(Checked(c)) && c[h + length + 1] == BASIC_FLAG)
      && n == |c| - (h + length + if good then 2 else 1) && p == Pos(buf.readp, |c| - n)
  {
    hide Fcs.Feed, Fcs.Fold, FrameIs, SizeOf, LengthOf;
    ghost var c, h := buf.Contents(), HeaderSize(buf.Contents());
    var fcs := fcs0;
    assert 3 <= h <= 4;
    hide HeaderSize, PayloadSize, Fcs.Accepts, Checked;
    Peek(buf, h - 1);
    p, n := Advance(p0), n0 - 1;
    payload := [];
    if length > 0 {
      payload, p := CopyOut(buf, p, length, h);
      n := n - length;
      if FrameIs(TYPE_UI, control) {
        fcs := Fcs.ExtendCrc(fcs, payload);
      }
    }
    assert payload == c[h..h + length];
    Fcs.FoldNothing(fcs0);
    FcsByParts(c, fcs);
    Peek(buf, h + length);
    Peek(buf, h + length + 1);
    hide Pos, Advance, Window;
    var fcsGood := Fcs.Feed(fcs, buf.data[p]) == 0xCF;
    p, n := Advance(p), n - 1;
    good := fcsGood && buf.data[p] == BASIC_FLAG;
    if good {
      p, n := Advance(p), n - 1;
    }
    assert good <==> Fcs.Accepts(Checked(c)) && c[h + length + 1] == BASIC_FLAG;
    assert n == |c| - (h + length + if good then 2 else 1) && p == Pos(buf.readp, |c| - n);
  }

  /** What an attempt at `c` comes to, with `n` octets left over. */
  ghost predicate Outcome(n1: Octet -> nat, c: seq<Octet>, kind: Kind, frame: Option<Frame>, n: nat)
    requires n <= |c|
  {
    var a := Parse(n1, c);
    && (kind == Incomplete <==> a.NeedMore?)
    && (kind == Complete <==> a.Got?)
    && frame == (if a.Got? then Some(a.frame) else None)
    && (kind != Incomplete ==> a.rest == c[|c| - n..])
  }

  lemma OutcomeByLength(n1: Octet -> nat, c: seq<Octet>)
    requires |c| >= 5 ==> PayloadSize(c) > n1(DecodeAddress(c[0])) || |c| < HeaderSize(c) + PayloadSize(c) + 2
    ensures |c| < 5 || PayloadSize(c) <= n1(DecodeAddress(c[0])) ==> Outcome(n1, c, Incomplete, None, |c|)
    ensures |c| >= 5 && PayloadSize(c) > n1(DecodeAddress(c[0])) ==>
      Outcome(n1, c, Corrupt, None, |c| - (HeaderSize(c) - 1))
  {
    hide DecodeAddress, SizeOf, LengthOf, Fcs.Accepts, Checked;
  }

  lemma OutcomeByBody(n1: Octet -> nat, c: seq<Octet>, good: bool)
    requires |c| >= 5 && PayloadSize(c) <= n1(DecodeAddress(c[0])) && |c| >= HeaderSize(c) + PayloadSize(c) + 2
    requires good <==> Fcs.Accepts(Checked(c)) && c[HeaderSize(c) + PayloadSize(c) + 1] == BASIC_FLAG
    ensures var h, n := HeaderSize(c), PayloadSize(c);
      if good then Outcome(n1, c, Complete, Some(Frame(DecodeAddress(c[0]), c[1], c[h..h + n])), |c| - (h + n + 2))
      else Outcome(n1, c, Corrupt, None, |c| - (h + n + 1))
  {
    hide DecodeAddress, SizeOf, LengthOf, Fcs.Accepts, Checked;
  }

  /** Parses the frame at the read pointer without moving it. */
  method ExamineFrame(buf: Gsm0710Buffer, n1: Octet -> nat)
    returns (kind: Kind, frame: Option<Frame>, p: nat, n: nat)
    requires buf.Valid()
    ensures n <= buf.datacount && (kind != Incomplete ==> p == Pos(buf.readp, buf.datacount - n))
    ensures Outcome(n1, buf.Contents(), kind, frame, if kind == Incomplete then buf.datacount else n)
    ensures kind == Complete ==> frame.Some? && W.BasicReceived(buf.Contents()[..buf.datacount - n], frame.value)
  {
    hide W.BasicReceived, Fcs.Accepts, DecodeAddress, Pos, Checked, Window, HeaderSize, PayloadSize, Parse, Outcome;
    ghost var c := buf.Contents();
    p, n := buf.readp, buf.datacount;
    if n < 5 {
      OutcomeByLength(n1, c);
      return Incomplete, None, p, n;
    }
    HeaderSizes(c);
    var channel, control, length, fcs;
    channel, control, length, fcs, p, n := ReadHeader(buf);
    if length > n1(channel) {
      OutcomeByLength(n1, c);
      return Corrupt, None, p, n;
    }
    if n < 3 + length {
      OutcomeByLength(n1, c);
      return Incomplete, None, p, n;
    }
    var payload, good;
    payload, good, p, n := CheckBody(buf, control, length, fcs, p, n);
    OutcomeByBody(n1, c, good);
    if !good {
      return Corrupt, None, p, n;
    }
    frame := Some(Frame(channel, control, payload));
    CompleteIsReceived(n1, c, frame.value, n);
    return Complete, frame, p, n;
  }

  lemma CompleteIsReceived(n1: Octet -> nat, c: seq<Octet>, f: Frame, n: nat)
    requires n <= |c| && Outcome(n1, c, Complete, Some(f), n)
    ensures W.BasicReceived(c[..|c| - n], f)
  {
    hide W.BasicReceived, Parse;
    W.ParsedIffReceived(n1, c, f, c[|c| - n..]);
  }

  lemma HeaderSizes(c: seq<Octet>)
    requires |c| >= 5
    ensures 3 <= HeaderSize(c) <= 4
  {}

  /** Takes over the local pointer and count. */
  method Consume(buf: Gsm0710Buffer, p: nat, n: nat)
    requires buf.Valid() && n <= buf.datacount && p == Pos(buf.readp, buf.datacount - n)
    modifies buf`readp, buf`datacount
    ensures buf.Valid() && buf.Contents() == old(buf.Contents()[buf.datacount - n..])
    ensures buf.datacount == n
  {
    WindowDrop(buf.data[..], buf.readp, buf.datacount, buf.datacount - n);
    buf.readp := p;
    buf.datacount := n;
  }

  /** One call of the daemon's decoder: it ends as the specification does from the same flag and buffer. */
  method BasicGetFrame(buf: Gsm0710Buffer, n1: Octet -> nat, passedDepth: nat)
    returns (frame: Option<Frame>, asserted: bool)
    requires buf.Valid()
    modifies buf
    ensures buf.Valid()
    ensures var r := old(CallFrom(buf, n1, passedDepth));
      && asserted == r.Asserted? && buf.Contents() == r.rest && buf.droppedCount == r.dropped
      && (!asserted ==> frame == r.frame && buf.flagFound == r.flag)
      && (asserted ==> frame == None)
    ensures frame.Some? ==> W.EndsInFrame(n1, old(buf.Contents()), buf.Contents(), frame.value)
    ensures buf.receivedCount == old(buf.receivedCount) + (if frame.Some? then 1 else 0)
    ensures buf.datacount <= old(buf.datacount)
    decreases MAX_RESYNC_GET_FRAME_COUNT - passedDepth
  {
    hide Parse, Try, Pos, Window, W.EndsInFrame;
    W.CallReturnsFromLine(n1, buf.flagFound, buf.Contents(), passedDepth, buf.droppedCount);
    if passedDepth >= MAX_RESYNC_GET_FRAME_COUNT {
      return None, true;
    }
    FindStart(buf, n1);
    if !buf.flagFound {
      return None, false;
    }
    ParseShrinks(n1, buf.Contents());
    var kind, candidate, p, n := ExamineFrame(buf, n1);
    if kind == Incomplete {
      return None, false;
    }
    Consume(buf, p, n);
    buf.flagFound := false;
    if kind == Complete {
      buf.receivedCount := buf.receivedCount + 1;
      return candidate, false;
    }
    buf.droppedCount := buf.droppedCount + 1;
    frame, asserted := BasicGetFrame(buf, n1, passedDepth + 1);
  }

  lemma DropCountIsIdle(n1: Octet -> nat, flag: bool, c: seq<Octet>, depth: nat, d: nat, d': nat)
    ensures var r, r' := GetFrame(n1, flag, c, depth, d), GetFrame(n1, flag, c, depth, d');
      && r.Asserted? == r'.Asserted? && r.rest == r'.rest && r.dropped - d == r'.dropped - d'
      && (r.Returned? ==> r.frame == r'.frame && r.flag == r'.flag)
    decreases MAX_RESYNC_GET_FRAME_COUNT - depth
  {
    hide Try;
    if depth < MAX_RESYNC_GET_FRAME_COUNT {
      var a := Try(n1, flag, c);
      if a.Drop? {
        DropCountIsIdle(n1, false, a.rest, depth + 1, d + 1, d' + 1);
      }
    }
  }

  lemma LoopWithoutDrops(n1: Octet -> nat, flag: bool, c: seq<Octet>)
    requires NoDrops(n1, flag, c)
    ensures !LoopAsserts(n1, flag, c)
    decreases |c|
  {
    hide GetFrame, NoDrops;
    CallFollowsRun(n1, flag, c, 0, 0);
    var r := GetFrame(n1, flag, c, 0, 0);
    if r.frame.Some? {
      LoopWithoutDrops(n1, r.flag, r.rest);
    }
  }

  /** What one call changes about the rest of the loop. */
  lemma LoopStep(n1: Octet -> nat, flag: bool, c: seq<Octet>, dropped: nat)
    ensures var r := GetFrame(n1, flag, c, 0, dropped);
      && |r.rest| <= |c|
      && (r.Asserted? ==> LoopAsserts(n1, flag, c) && LoopFrames(n1, flag, c) == [])
      && (r.Returned? && r.frame.None? ==>
            !LoopAsserts(n1, flag, c) && LoopFrames(n1, flag, c) == [] && RunEnd(n1, flag, c) == NeedMore(r.flag, r.rest))
      && (r.Returned? && r.frame.Some? ==>
            && |r.rest| < |c|
            && LoopAsserts(n1, flag, c) == LoopAsserts(n1, r.flag, r.rest)
            && LoopFrames(n1, flag, c) == [r.frame.value] + LoopFrames(n1, r.flag, r.rest)
            && RunEnd(n1, flag, c) == RunEnd(n1, r.flag, r.rest))
  {
    hide RunFrames, RunEnd, GetFrame;
    CallFollowsRun(n1, flag, c, 0, dropped);
    DropCountIsIdle(n1, flag, c, 0, 0, dropped);
  }

  /** The assembler's loop: calls the decoder until it has nothing more to give. */
  method ExtractFrames(buf: Gsm0710Buffer, n1: Octet -> nat) returns (frames: seq<Frame>, asserted: bool)
    requires buf.Valid()
    modifies buf
    ensures buf.Valid() && buf.datacount <= old(buf.datacount)
    ensures asserted == old(LoopAsserts(n1, buf.flagFound, buf.Contents()))
    ensures frames == old(LoopFrames(n1, buf.flagFound, buf.Contents()))
    ensures !asserted ==> NeedMore(buf.flagFound, buf.Contents()) == old(RunEnd(n1, buf.flagFound, buf.Contents()))
    ensures buf.receivedCount == old(buf.receivedCount) + |frames|
    ensures !asserted ==> buf.droppedCount == old(buf.droppedCount + D.RunDrops(n1, buf.flagFound, buf.Contents()))
  {
    hide D.RunDrops, RunFrames, RunEnd, GetFrame, LoopAsserts, LoopFrames, Pos, Window, W.EndsInFrame;
    frames, asserted := [], false;
    ghost var all, end := LoopFrames(n1, buf.flagFound, buf.Contents()), RunEnd(n1, buf.flagFound, buf.Contents());
    ghost var count := buf.droppedCount + D.RunDrops(n1, buf.flagFound, buf.Contents());
    while true
      invariant buf.Valid() && buf.datacount <= old(buf.datacount)
      invariant LoopAsserts(n1, buf.flagFound, buf.Contents()) == old(LoopAsserts(n1, buf.flagFound, buf.Contents()))
      invariant frames + LoopFrames(n1, buf.flagFound, buf.Contents()) == all
      invariant RunEnd(n1, buf.flagFound, buf.Contents()) == end
      invariant buf.receivedCount == old(buf.receivedCount) + |frames|
      invariant buf.droppedCount + D.RunDrops(n1, buf.flagFound, buf.Contents()) == count
      decreases buf.datacount
    {
      D.CallDrops(n1, buf.flagFound, buf.Contents(), 0, buf.droppedCount);
      LoopStep(n1, buf.flagFound, buf.Contents(), buf.droppedCount);
      var frame;
      frame, asserted := BasicGetFrame(buf, n1, 0);
      if asserted || frame.None? {
        assert frames + [] == frames;
        return;
      }
      frames := frames + [frame.value];
    }
  }

  /**
   Reader and assembler in turn on a stream that arrives in pieces of any size the free space admits.
   The ring never fills up for good, so the whole stream is taken unless the assertion stops the daemon.
   */
  method ReceiveStream(buf: Gsm0710Buffer, n1: Octet -> nat, stream: seq<Octet>)
    returns (frames: seq<Frame>, asserted: bool, ghost pieces: seq<seq<Octet>>)
    requires buf.Valid() && buf.datacount == 0 && !buf.flagFound
    requires forall ch: Octet :: ch < 64 ==> n1(ch) <= BUFFER_SIZE - 6
    modifies buf, buf.data
    ensures buf.Valid()
    ensures asserted <==> PieceAsserts(n1, false, [], pieces)
    ensures frames == Received(n1, false, [], pieces)
    ensures Concat(pieces) <= stream && (!asserted ==> Concat(pieces) == stream)
    ensures !asserted ==> frames == RunFrames(n1, false, stream)
    ensures !asserted ==> NeedMore(buf.flagFound, buf.Contents()) == RunEnd(n1, false, stream)
    ensures NoDrops(n1, false, stream) ==> !asserted
  {
    hide RunFrames, RunEnd, NoDrops, LoopAsserts, LoopFrames, Received, PieceAsserts, PieceEnd, Pos, Window;
    var sent := 0;
    frames, asserted, pieces := [], false, [];
    NothingReceived(n1);
    while sent < |stream|
      invariant buf.Valid() && sent <= |stream| && !asserted && buf.datacount < BUFFER_SIZE
      invariant Concat(pieces) == stream[..sent] && !PieceAsserts(n1, false, [], pieces)
      invariant frames == Received(n1, false, [], pieces)
      invariant NeedMore(buf.flagFound, buf.Contents()) == PieceEnd(n1, false, [], pieces)
      invariant PieceEnd(n1, false, [], pieces) == RunEnd(n1, false, stream[..sent])
    {
      var free := BUFFER_SIZE - buf.datacount;
      var size: nat :| 0 < size <= free && size <= |stream| - sent;
      ghost var head, piece, flag, c := stream[..sent], stream[sent..sent + size], buf.flagFound, buf.Contents();
      var length := buf.Write(stream[sent..sent + size]);
      assert length == size && piece[..length] == piece;
      sent := sent + size;
      assert stream[..sent] == head + piece;
      ConcatAppend(pieces, [piece]);
      ConcatOne(piece);
      OneMorePiece(n1, false, [], pieces, piece);
      pieces := pieces + [piece];
      RunAppend(n1, false, head, piece);
      RunLeavesRoom(n1, flag, c + piece);
      if NoDrops(n1, false, stream) {
        assert stream == (head + piece) + stream[sent..];
        RunAppend(n1, false, head + piece, stream[sent..]);
        LoopWithoutDrops(n1, flag, c + piece);
      }
      var more;
      more, asserted := ExtractFrames(buf, n1);
      frames := frames + more;
      if asserted {
        return;
      }
    }
    assert stream[..sent] == stream;
    PiecesAreOneRun(n1, false, [], pieces);
    assert [] + Concat(pieces) == stream;
  }

  lemma ConcatOne(piece: seq<Octet>)
    ensures Concat([piece]) == piece
  {
    assert [piece][1..] == [];
  }

  lemma NothingReceived(n1: Octet -> nat)
    ensures RunFrames(n1, false, []) == [] && RunEnd(n1, false, []) == PieceEnd(n1, false, [], []) == NeedMore(false, [])
    ensures !PieceAsserts(n1, false, [], []) && Received(n1, false, [], []) == []
  {}

  /** What the sender encodes, the receiver delivers: all of it, in order, however the stream was cut. */
  method ReceiveSent(buf: Gsm0710Buffer, n1: Octet -> nat, frames: seq<Frame>) returns (received: seq<Frame>)
    requires buf.Valid() && buf.datacount == 0 && !buf.flagFound
    requires forall ch: Octet :: ch < 64 ==> n1(ch) <= BUFFER_SIZE - 6
    requires AllSendable(n1, frames)
    modifies buf, buf.data
    ensures buf.Valid() && received == frames && buf.Contents() == [] && !buf.flagFound
  {
    hide RunFrames, RunEnd, NoDrops, FcsAgrees, PieceAsserts, Received;
    StreamIsParsed(n1, frames);
    var asserted;
    ghost var pieces;
    received, asserted, pieces := ReceiveStream(buf, n1, Stream(n1, frames));
  }
}

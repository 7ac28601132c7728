/** The advanced option's decoder as the daemon runs it, on the ring and in place. */
module AdvancedDecoder {
  import opened Octets
  import opened Stuffing
  import opened Ring
  import opened AdvancedSpec
  import opened AdvancedStream
  import opened AdvancedDrops
  import W = WireFormat
  import Fcs

  /** The machine state that the buffer's fields stand for. */
  ghost function Abs(buf: Gsm0710Buffer): State
    requires buf.Valid()
    reads buf, buf.data, buf.advData
  {
    if buf.flagFound then InFrame(buf.advData[..buf.advLength], buf.advFoundEsc) else Hunting
  }

  /** How the call ends from here on, flags skipped first or not. */
  ghost function FromEntry(buf: Gsm0710Buffer): Call
    requires buf.Valid()
    reads buf, buf.data, buf.advData
  {
    GetFrame(Abs(buf), buf.Contents(), buf.droppedCount)
  }

  ghost function FromScan(buf: Gsm0710Buffer): Call
    requires buf.Valid()
    reads buf, buf.data, buf.advData
  {
    Scan(Abs(buf), buf.Contents(), buf.droppedCount)
  }

  method FindFlag(buf: Gsm0710Buffer)
    requires buf.Valid()
    modifies buf`flagFound, buf`advLength, buf`advFoundEsc, buf`readp, buf`datacount
    ensures buf.Valid() && FromEntry(buf) == old(FromEntry(buf))
    ensures old(buf.flagFound) ==> buf.flagFound && buf.datacount == old(buf.datacount)
    ensures !old(buf.flagFound) && buf.flagFound ==> buf.datacount < old(buf.datacount) && Abs(buf) == InFrame([], false)
    ensures !buf.flagFound ==> buf.Contents() == []
  {
    while !buf.flagFound && buf.datacount > 0
      invariant buf.Valid() && FromEntry(buf) == old(FromEntry(buf))
      invariant old(buf.flagFound) ==> buf.flagFound && buf.datacount == old(buf.datacount)
      invariant !old(buf.flagFound) ==> buf.datacount <= old(buf.datacount)
      invariant !old(buf.flagFound) && buf.flagFound ==> buf.datacount < old(buf.datacount) && Abs(buf) == InFrame([], false)
      decreases buf.datacount
    {
      ghost var w := buf.Contents();
      if buf.data[buf.readp] == ADV_FLAG {
        buf.flagFound := true;
        buf.advLength := 0;
        buf.advFoundEsc := false;
      }
      buf.BufferInc();
      if buf.flagFound {
        assert buf.advData[..0] == [];
        SkippingIsScanning(w[1..], buf.droppedCount);
      }
    }
  }

  method SkipEmptyFrames(buf: Gsm0710Buffer)
    requires buf.Valid() && buf.flagFound
    modifies buf`readp, buf`datacount
    ensures buf.Valid() && FromScan(buf) == old(FromEntry(buf))
    ensures buf.advLength == 0 ==> buf.Contents() == [] || buf.Contents()[0] != ADV_FLAG
    ensures buf.datacount <= old(buf.datacount)
  {
    if buf.advLength == 0 {
      while buf.datacount > 0 && buf.data[buf.readp] == ADV_FLAG
        invariant buf.Valid() && SkipFlags(buf.Contents()) == old(SkipFlags(buf.Contents()))
        invariant buf.datacount <= old(buf.datacount)
        decreases buf.datacount
      {
        buf.BufferInc();
      }
    }
  }

  lemma BodyOkByParts(body: seq<Octet>, ui: bool)
    requires |body| >= 3 && ui == FrameIs(TYPE_UI, body[1])
    ensures var header := Fcs.Feed(Fcs.Feed(0xFF, body[0]), body[1]);
      var fcs := if ui then Fcs.Fold(header, body[2..|body| - 1]) else header;
      BodyOk(body) <==> Fcs.Feed(fcs, body[|body| - 1]) == 0xCF
  {
    hide Fcs.Feed, Fcs.Fold;
    var last := body[|body| - 1];
    var payload := if ui then body[2..|body| - 1] else [];
    assert body[..2] == [body[0], body[1]];
    Fcs.FoldTwo(0xFF, body[0], body[1]);
    Fcs.AcceptsByParts(body[..2], payload, last);
    assert body[..2] + payload == Covered(body);
    Fcs.FoldNothing(Fcs.Fold(0xFF, body[..2]));
  }

  /** The closing flag has been read: builds the frame, checks its FCS, and delivers or drops it. */
  method CloseFrame(buf: Gsm0710Buffer) returns (frame: Option<Frame>)
    requires buf.Valid()
    modifies buf`flagFound, buf`receivedCount, buf`droppedCount
    ensures buf.Valid() && !buf.flagFound
    ensures var e := Close(buf.advData[..buf.advLength]);
      && frame == (if e.Got? then Some(e.frame) else None)
      && buf.receivedCount == old(buf.receivedCount) + (if e.Got? then 1 else 0)
      && buf.droppedCount == old(buf.droppedCount) + (if e.Dropped? then 1 else 0)
    ensures forall f :: frame == Some(f) <==> W.BodyReceived(buf.advData[..buf.advLength], f)
  {
    hide Fcs.Feed, Fcs.Fold, W.BodyReceived;
    forall f: Frame
      ensures Close(buf.advData[..buf.advLength]) == Got(f) <==> W.BodyReceived(buf.advData[..buf.advLength], f)
    {
      W.ClosedInNumbers(buf.advData[..buf.advLength], f);
    }
    var data, length := buf.advData, buf.advLength;
    if length < 3 {
      buf.flagFound := false;
      return None;
    }
    var channel := (data[0] & 252) >> 2;
    var fcs := Fcs.Feed(0xFF, data[0]);
    var control := data[1];
    fcs := Fcs.Feed(fcs, data[1]);
    var payload := data[2..length - 1];
    ghost var body := data[..length];
    BodyOkByParts(body, FrameIs(TYPE_UI, control));
    assert payload == body[2..|body| - 1];
    if |payload| > 0 {
      if FrameIs(TYPE_UI, control) {
        fcs := Fcs.ExtendCrc(fcs, payload);
      }
    } else {
      Fcs.FoldNothing(fcs);
    }
    buf.flagFound := false;
    if Fcs.Feed(fcs, data[length - 1]) != 0xCF {
      buf.droppedCount := buf.droppedCount + 1;
      return None;
    }
    buf.receivedCount := buf.receivedCount + 1;
    return Some(Frame(channel, control, payload));
  }

  /** Stores one octet of the frame, unescaped if an escape came before it. */
  method StoreOctet(buf: Gsm0710Buffer)
    requires buf.Valid() && buf.flagFound && buf.datacount > 0 && buf.advLength < BUFFER_SIZE
    requires buf.advFoundEsc || buf.Contents()[0] != ADV_FLAG
    modifies buf`readp, buf`datacount, buf`advLength, buf`advFoundEsc, buf.advData
    ensures buf.Valid() && buf.datacount == old(buf.datacount) - 1
    ensures buf.Contents() == old(buf.Contents())[1..]
    ensures Abs(buf) == old(Next(Abs(buf), buf.Contents()[0]))
    ensures buf.advLength > 0 || buf.advFoundEsc
  {
    var octet := buf.data[buf.readp];
    if buf.advFoundEsc {
      buf.advData[buf.advLength] := octet ^ ADV_ESC_COMPL;
      buf.advLength := buf.advLength + 1;
      buf.advFoundEsc := false;
    } else if octet == ADV_ESC {
      buf.advFoundEsc := true;
    } else {
      buf.advData[buf.advLength] := octet;
      buf.advLength := buf.advLength + 1;
    }
    buf.BufferInc();
  }

  /** The octets of one frame up to its closing flag; `again` asks for a new search after a frame thrown away. */
  method AssembleFrame(buf: Gsm0710Buffer) returns (frame: Option<Frame>, again: bool)
    requires buf.Valid() && buf.flagFound
    requires buf.advLength == 0 && !buf.advFoundEsc ==> buf.Contents() == [] || buf.Contents()[0] != ADV_FLAG
    modifies buf, buf.advData
    ensures buf.Valid() && buf.datacount <= old(buf.datacount)
    ensures again ==> !buf.flagFound && frame == None && FromEntry(buf) == old(FromScan(buf))
    ensures !again ==> Call(frame, Abs(buf), buf.Contents(), buf.droppedCount) == old(FromScan(buf))
    ensures buf.receivedCount == old(buf.receivedCount) + (if frame.Some? then 1 else 0)
  {
    hide Scan, Next, Close, SkipFlags;
    while buf.datacount > 0
      invariant buf.Valid() && buf.flagFound && FromScan(buf) == old(FromScan(buf))
      invariant buf.advLength == 0 && !buf.advFoundEsc ==> buf.Contents() == [] || buf.Contents()[0] != ADV_FLAG
      invariant buf.receivedCount == old(buf.receivedCount) && buf.datacount <= old(buf.datacount)
      decreases buf.datacount
    {
      ghost var acc, w := buf.advData[..buf.advLength], buf.Contents();
      if !buf.advFoundEsc && buf.data[buf.readp] == ADV_FLAG {
        ScanCloses(acc, w, buf.droppedCount);
        buf.BufferInc();
        frame := CloseFrame(buf);
        return frame, frame.None?;
      }
      if buf.advLength >= BUFFER_SIZE {
        ScanOverflows(acc, buf.advFoundEsc, w, buf.droppedCount);
        buf.flagFound := false;
        buf.droppedCount := buf.droppedCount + 1;
        return None, true;
      }
      ScanStores(acc, buf.advFoundEsc, w, buf.droppedCount);
      StoreOctet(buf);
    }
    ScanEmpty(Abs(buf), buf.droppedCount);
    return None, false;
  }

  /** One call of the daemon's decoder: it ends as the machine does from the same state and buffer. */
  method AdvancedGetFrame(buf: Gsm0710Buffer) returns (frame: Option<Frame>)
    requires buf.Valid()
    modifies buf, buf.advData
    ensures buf.Valid()
    ensures Call(frame, Abs(buf), buf.Contents(), buf.droppedCount) == old(FromEntry(buf))
    ensures frame.Some? ==> W.ClosesFrame(old(Abs(buf)), old(Enter(Abs(buf), buf.Contents())), buf.Contents(), frame.value)
    ensures buf.receivedCount == old(buf.receivedCount) + (if frame.Some? then 1 else 0)
  {
    hide Scan, Next, Close, SkipFlags, W.ClosesFrame;
    W.ScanClosesFrame(Abs(buf), Enter(Abs(buf), buf.Contents()), buf.droppedCount);
    frame := None;
    var again := true;
    while again
      invariant buf.Valid()
      invariant again ==> frame == None && FromEntry(buf) == old(FromEntry(buf))
      invariant !again ==> Call(frame, Abs(buf), buf.Contents(), buf.droppedCount) == old(FromEntry(buf))
      invariant buf.receivedCount == old(buf.receivedCount) + (if frame.Some? then 1 else 0)
      decreases again, buf.datacount, buf.flagFound
    {
      FindFlag(buf);
      if !buf.flagFound {
        ScanEmpty(Hunting, buf.droppedCount);
        return None;
      }
      SkipEmptyFrames(buf);
      frame, again := AssembleFrame(buf);
    }
  }

  /** The assembler's loop: calls the decoder until it has nothing more to give. */
  method ExtractFrames(buf: Gsm0710Buffer) returns (frames: seq<Frame>)
    requires buf.Valid()
    modifies buf, buf.advData
    ensures buf.Valid() && buf.Contents() == []
    ensures frames == old(Frames(Abs(buf), Enter(Abs(buf), buf.Contents())))
    ensures Abs(buf) == old(After(Abs(buf), Enter(Abs(buf), buf.Contents())))
    ensures buf.receivedCount == old(buf.receivedCount) + |frames|
    ensures buf.droppedCount == old(buf.droppedCount + Drops(Abs(buf), Enter(Abs(buf), buf.Contents())))
  {
    hide Scan, Frames, After, Enter, Drops, W.ClosesFrame;
    frames := [];
    ghost var w := Enter(Abs(buf), buf.Contents());
    ghost var count := buf.droppedCount + Drops(Abs(buf), w);
    ghost var all, end := Frames(Abs(buf), w), After(Abs(buf), w);
    var frame: Option<Frame> := None;
    while true
      invariant buf.Valid()
      invariant frames + Frames(Abs(buf), Enter(Abs(buf), buf.Contents())) == all
      invariant After(Abs(buf), Enter(Abs(buf), buf.Contents())) == end
      invariant buf.droppedCount + Drops(Abs(buf), Enter(Abs(buf), buf.Contents())) == count
      invariant buf.receivedCount == old(buf.receivedCount) + |frames|
      decreases buf.datacount
    {
      ghost var s, w, d := Abs(buf), buf.Contents(), buf.droppedCount;
      frame := AdvancedGetFrame(buf);
      CallConsumes(s, w, d);
      if frame.None? {
        RunNothing(Abs(buf));
        NothingDrops(Abs(buf));
        assert frames + [] == frames;
        return;
      }
      HuntingEntry(buf.Contents());
      frames := frames + [frame.value];
    }
  }

  lemma CallConsumes(s: State, w: seq<Octet>, dropped: nat)
    ensures var c := GetFrame(s, w, dropped);
      && (c.frame.Some? ==> c.state == Hunting && |c.rest| < |w|)
      && (c.frame.None? ==> c.rest == [])
      && After(s, Enter(s, w)) == After(c.state, c.rest)
      && Frames(s, Enter(s, w)) == (if c.frame.Some? then [c.frame.value] else []) + Frames(c.state, c.rest)
      && c.dropped + Drops(c.state, c.rest) == dropped + Drops(s, Enter(s, w))
  {
    ScanDrops(s, Enter(s, w), dropped);
    ScanConsumes(s, Enter(s, w), dropped);
    SkipShortens(w);
  }

  lemma {:induction false} SkipShortens(w: seq<Octet>)
    ensures |SkipFlags(w)| <= |w|
    decreases |w|
  {
    if w != [] && w[0] == ADV_FLAG {
      SkipShortens(w[1..]);
    }
  }

  lemma HuntingEntry(w: seq<Octet>)
    ensures Enter(Hunting, w) == w
  {}

  lemma RunNothing(s: State)
    ensures Frames(s, []) == [] && After(s, []) == s
  {}

  /** Reader and assembler in turn: each piece is written to the ring and drained before the next one. */
  method ReceiveChunks(buf: Gsm0710Buffer, chunks: seq<seq<Octet>>) returns (frames: seq<Frame>)
    requires buf.Valid() && buf.Contents() == []
    requires forall i :: 0 <= i < |chunks| ==> |chunks[i]| <= BUFFER_SIZE
    modifies buf, buf.data, buf.advData
    ensures buf.Valid() && buf.Contents() == []
    ensures frames == old(DeliverFrames(Abs(buf), chunks))
    ensures Abs(buf) == old(DeliverState(Abs(buf), chunks))
    ensures buf.receivedCount == old(buf.receivedCount) + |frames|
    ensures buf.droppedCount == old(buf.droppedCount + DeliverDrops(Abs(buf), chunks))
  {
    hide Frames, After, Enter, Drops;
    ghost var count := buf.droppedCount + DeliverDrops(Abs(buf), chunks);
    frames := [];
    for i := 0 to |chunks|
      invariant buf.Valid() && buf.Contents() == []
      invariant old(DeliverFrames(Abs(buf), chunks)) == frames + DeliverFrames(Abs(buf), chunks[i..])
      invariant old(DeliverState(Abs(buf), chunks)) == DeliverState(Abs(buf), chunks[i..])
      invariant buf.droppedCount + DeliverDrops(Abs(buf), chunks[i..]) == count
      invariant buf.receivedCount == old(buf.receivedCount) + |frames|
    {
      ghost var s := Abs(buf);
      var length := buf.Write(chunks[i]);
      assert length == |chunks[i]| && buf.Contents() == chunks[i];
      assert Abs(buf) == s;
      var extracted := ExtractFrames(buf);
      frames := frames + extracted;
    }
  }
}

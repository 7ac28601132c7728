/** The transmit path: one frame on the serial line, and an application's data cut into frames. */
module Sender {
  import opened Octets
  import opened Stuffing
  import Fcs
  import Basic = BasicStream
  import Advanced = AdvancedStream
  import W = WireFormat

  const WRITE_RETRIES := 5

  /** The type field of a multiplexer message is MSC, as a command or as a response. */
  predicate IsMsc(octet: Octet) {
    octet & 0xFD == 0xE1
  }

  /** A pending poll bit is given back with the next information frame whose first octet reads as MSC. */
  predicate GivesPollBack(kind: Octet, pollPending: bool, input: seq<Octet>) {
    (kind == TYPE_UIH || kind == TYPE_UI) && pollPending && input != [] && IsMsc(input[0])
  }

  function FrameSent(channel: Octet, kind: Octet, pollPending: bool, input: seq<Octet>, n1: nat): Frame {
    var control := if GivesPollBack(kind, pollPending, input) then kind | PF else kind;
    Frame(channel, control, if |input| <= n1 then input else input[..n1])
  }

  /** In numbers: the first octet of a modem status command or response, and the control octet that is sent. */
  lemma PollInNumbers(kind: Octet, pollPending: bool, input: seq<Octet>)
    ensures GivesPollBack(kind, pollPending, input)
            <==> (kind == 0xEF || kind == 0x03) && pollPending && input != [] && (input[0] == 0xE1 || input[0] == 0xE3)
    ensures TYPE_UIH | PF == 0xFF && TYPE_UI | PF == 0x13
  {}

  /** The control octet sent for a frame type: with a poll bit to give back, that bit is set. */
  function ControlSent(kind: Octet, pollPending: bool, input: seq<Octet>): Octet {
    if pollPending && input != [] && (input[0] == 0xE1 || input[0] == 0xE3) && (kind == 0xEF || kind == 0x03) then
      if kind == 0xEF then 0xFF else 0x13
    else kind
  }

  /** `w` is the frame asked for, in numbers: its address octet is four times the channel and three. */
  predicate SentAs(advanced: bool, w: seq<Octet>, channel: Octet, control: Octet, data: seq<Octet>) {
    W.FrameOnLine(advanced, w, 4 * channel as int + 3, control, data)
  }

  lemma SentInNumbers(advanced: bool, f: Frame)
    requires f.channel < 64 && (!advanced ==> |f.data| <= Basic.MAX_LENGTH)
    ensures SentAs(advanced, OnLine(advanced, f), f.channel, f.control, f.data)
  {
    hide Basic.Encode, Advanced.Wire, Advanced.Body, W.BasicFrame, W.AdvancedFrame;
    if advanced {
      W.SentInAdvanced(f);
    } else {
      W.SentInBasic(f);
    }
  }

  lemma ControlIsSent(channel: Octet, kind: Octet, pollPending: bool, input: seq<Octet>, n1: nat)
    ensures FrameSent(channel, kind, pollPending, input, n1)
            == Frame(channel, ControlSent(kind, pollPending, input), input[..if n1 < |input| then n1 else |input|])
  {
    PollInNumbers(kind, pollPending, input);
    assert input[..|input|] == input;
  }

  /** The octets of a frame on the line, in either option. */
  function OnLine(advanced: bool, f: Frame): seq<Octet>
    requires !advanced ==> |f.data| <= Basic.MAX_LENGTH
  {
    if advanced then Advanced.Wire(Advanced.Body(f)) else Basic.Encode(f)
  }

  /** The frames an application's data is sent in when every write completes. */
  function Emitted(channel: Octet, pollPending: bool, input: seq<Octet>, n1: nat): (r: seq<Frame>)
    requires n1 > 0
    ensures forall i :: 0 <= i < |r| ==> |r[i].data| <= n1
    decreases |input|
  {
    if input == [] then []
    else
      var f := FrameSent(channel, TYPE_UIH, pollPending, input, n1);
      [f] + Emitted(channel, pollPending && !GivesPollBack(TYPE_UIH, pollPending, input), input[|f.data|..], n1)
  }

  function Payloads(frames: seq<Frame>): seq<seq<Octet>> {
    if frames == [] then [] else [frames[0].data] + Payloads(frames[1..])
  }

  function Lines(advanced: bool, frames: seq<Frame>): seq<Octet>
    requires !advanced ==> forall i :: 0 <= i < |frames| ==> |frames[i].data| <= Basic.MAX_LENGTH
  {
    if frames == [] then [] else OnLine(advanced, frames[0]) + Lines(advanced, frames[1..])
  }

  /** The pieces join up to the data; there are as few as N1 admits, and only the last may be shorter than N1. */
  lemma {:induction false} FragmentsJoinUp(channel: Octet, pollPending: bool, input: seq<Octet>, n1: nat)
    requires n1 > 0
    ensures var frames := Emitted(channel, pollPending, input, n1);
      && Concat(Payloads(frames)) == input
      && |input| <= |frames| * n1 && (input != [] ==> (|frames| - 1) * n1 < |input|) && (input == [] ==> frames == [])
      && (forall i :: 0 <= i < |frames| ==> 0 < |frames[i].data| <= n1)
      && (forall i :: 0 <= i < |frames| - 1 ==> |frames[i].data| == n1)
    decreases |input|
  {
    hide FrameSent, GivesPollBack;
    if input != [] {
      var f := FrameSent(channel, TYPE_UIH, pollPending, input, n1);
      var pending := pollPending && !GivesPollBack(TYPE_UIH, pollPending, input);
      PayloadIsPrefix(channel, pollPending, input, n1);
      var rest := input[|f.data|..];
      FragmentsJoinUp(channel, pending, rest, n1);
      var frames, later := Emitted(channel, pollPending, input, n1), Emitted(channel, pending, rest, n1);
      assert frames == [f] + later;
      hide Emitted;
      assert frames[1..] == later;
      assert input == f.data + rest;
      OneMore(|later|, n1);
    }
  }

  lemma PayloadIsPrefix(channel: Octet, pollPending: bool, input: seq<Octet>, n1: nat)
    requires n1 > 0 && input != []
    ensures var n := |FrameSent(channel, TYPE_UIH, pollPending, input, n1).data|;
      && 0 < n <= n1 && n <= |input| && (n < |input| ==> n == n1)
      && FrameSent(channel, TYPE_UIH, pollPending, input, n1).data == input[..n]
  {}

  lemma OneMore(k: int, n: int)
    ensures (k + 1) * n == k * n + n && (k - 1) * n + n == k * n
  {}

  lemma {:induction false} LinesAppend(advanced: bool, a: seq<Frame>, f: Frame)
    requires !advanced ==> (forall i :: 0 <= i < |a| ==> |a[i].data| <= Basic.MAX_LENGTH) && |f.data| <= Basic.MAX_LENGTH
    ensures Lines(advanced, a + [f]) == Lines(advanced, a) + OnLine(advanced, f)
    decreases |a|
  {
    hide OnLine;
    if a == [] {
      assert a + [f] == [f] && [f][1..] == [];
    } else {
      assert (a + [f])[1..] == a[1..] + [f];
      LinesAppend(advanced, a[1..], f);
      var x, y, z := OnLine(advanced, a[0]), Lines(advanced, a[1..]), OnLine(advanced, f);
      assert x + (y + z) == (x + y) + z;
    }
  }

  /** The serial device: a write takes any prefix of what it is given, or fails. */
  class SerialLine {
    var taken: seq<Octet>
    var broken: bool

    constructor ()
      ensures taken == [] && !broken
    {
      taken, broken := [], false;
    }

    /** `broken` remembers that some write did not take everything. */
    method Write(s: seq<Octet>) returns (c: int)
      modifies this
      ensures -1 <= c <= |s|
      ensures taken == old(taken) + (if c < 0 then [] else s[..c])
      ensures broken == (old(broken) || c != |s|)
    {
      c :| -1 <= c <= |s|;
      taken := taken + if c < 0 then [] else s[..c];
      broken := broken || c != |s|;
    }
  }

  lemma ThreeWrites(t: seq<Octet>, a: seq<Octet>, b: seq<Octet>, c: seq<Octet>)
    ensures t + a + b + c == t + (a + b + c)
  {}

  /** A frame on the line, part by part, and the room each part needs at most. */
  lemma WireLayout(f: Frame)
    ensures var head, fcs := Advanced.Head(f), [Fcs.FrameFcs(Advanced.Head(f))];
      && Advanced.Wire(Advanced.Body(f)) == [ADV_FLAG] + Stuff(head) + Stuff(f.data) + Stuff(fcs) + [ADV_FLAG]
      && |Stuff(head)| <= 4 && |Stuff(f.data)| <= 2 * |f.data| && |Stuff(fcs)| <= 2
  {
    hide Fcs.FrameFcs, Stuff;
    var head, fcs := Advanced.Head(f), [Fcs.FrameFcs(Advanced.Head(f))];
    assert |head| == 2 && |fcs| == 1;
    StuffLength(head);
    StuffLength(f.data);
    StuffLength(fcs);
    StuffAppend(head + f.data, fcs);
    StuffAppend(head, f.data);
    hide Advanced.Head;
    ThreeWrites([ADV_FLAG], Stuff(head), Stuff(f.data), Stuff(fcs));
  }

  /** Room for every octet between the flags twice, and for the flags. */
  function FrameRoom(cmuxN1: nat): nat {
    (cmuxN1 + 3) * 2 + 2
  }

  /** Address, control and check octet that have to be escaped. */
  function HeadEscapes(channel: Octet, control: Octet): nat {
    var head := [Address(channel), control];
    EscapedCount(head + [Fcs.FrameFcs(head)])
  }

  /** With the buffer for `cmuxN1` there is room for every frame of a channel with limit `n1`. */
  predicate RoomFor(channel: Octet, control: Octet, n1: nat, cmuxN1: nat) {
    2 * n1 + HeadEscapes(channel, control) <= 2 * cmuxN1 + 3
  }

  /** The frame on the line takes the flags, its octets, and one more for each that is escaped. */
  lemma WireLength(f: Frame)
    ensures |Advanced.Wire(Advanced.Body(f))| == |f.data| + EscapedCount(f.data) + HeadEscapes(f.channel, f.control) + 5
    ensures EscapedCount(f.data) <= |f.data|
  {
    hide Fcs.FrameFcs, Stuff, EscapedCount, Address;
    var head, fcs := Advanced.Head(f), [Fcs.FrameFcs(Advanced.Head(f))];
    WireLayout(f);
    StuffLength(head);
    StuffLength(f.data);
    StuffLength(fcs);
    StuffAppend(head, fcs);
    StuffLength(head + fcs);
  }

  lemma {:induction false} AllEscaped(n: nat)
    ensures EscapedCount(seq(n, _ => ADV_FLAG)) == n
  {
    if n > 0 {
      assert seq(n, _ => ADV_FLAG)[1..] == seq(n - 1, _ => ADV_FLAG);
      AllEscaped(n - 1);
    }
  }

  /**
   The buffer is sized by `cmuxN1`, which the -f option sets, and the frames by the channel's own limit: every
   frame fits exactly if there is room for the one whose payload has to be escaped throughout.
   */
  lemma FrameFitsIff(channel: Octet, control: Octet, n1: nat, cmuxN1: nat)
    ensures (forall data :: |data| <= n1 ==> |Advanced.Wire(Advanced.Body(Frame(channel, control, data)))| <= FrameRoom(cmuxN1))
            <==> RoomFor(channel, control, n1, cmuxN1)
  {
    hide Advanced.Wire, Advanced.Body, HeadEscapes, EscapedCount;
    forall data | |data| <= n1 && RoomFor(channel, control, n1, cmuxN1)
      ensures |Advanced.Wire(Advanced.Body(Frame(channel, control, data)))| <= FrameRoom(cmuxN1)
    {
      WireLength(Frame(channel, control, data));
    }
    var worst := seq(n1, _ => ADV_FLAG);
    AllEscaped(n1);
    WireLength(Frame(channel, control, worst));
  }

  lemma FrameHasRoom(f: Frame, n1: nat, cmuxN1: nat)
    requires |f.data| <= n1 && RoomFor(f.channel, f.control, n1, cmuxN1)
    ensures |Stuff(Advanced.Head(f))| + |Stuff(f.data)| + |Stuff([Fcs.FrameFcs(Advanced.Head(f))])| + 2 <= FrameRoom(cmuxN1)
  {
    hide Advanced.Wire, Advanced.Body, HeadEscapes, EscapedCount, Stuff, Fcs.FrameFcs, Advanced.Head;
    WireLayout(f);
    WireLength(f);
  }

  /** A limit of `cmuxN1` or less is enough, and one of two more is too much. */
  lemma RoomByLimit(channel: Octet, control: Octet, n1: nat, cmuxN1: nat)
    ensures n1 <= cmuxN1 ==> RoomFor(channel, control, n1, cmuxN1)
    ensures n1 >= cmuxN1 + 2 ==> !RoomFor(channel, control, n1, cmuxN1)
  {
    hide Fcs.FrameFcs, EscapedCount, Address;
    var head := [Address(channel), control];
    StuffLength(head + [Fcs.FrameFcs(head)]);
  }

  class Transmitter {
    const line: SerialLine
    const advanced: bool
    const cmuxN1: nat
    const n1: Octet -> nat
    const advFrameBuf: array<Octet>
    var pollPending: bool

    /** In the advanced option every frame fits the frame buffer, in the basic one the length field. */
    ghost predicate Valid()
      reads this
    {
      && advFrameBuf.Length == FrameRoom(cmuxN1)
      && (advanced ==> forall ch: Octet, control: Octet :: RoomFor(ch, control, n1(ch), cmuxN1))
      && (!advanced ==> forall ch: Octet :: n1(ch) <= Basic.MAX_LENGTH)
    }

    constructor (line: SerialLine, advanced: bool, cmuxN1: nat, n1: Octet -> nat)
      requires advanced ==> forall ch: Octet, control: Octet :: RoomFor(ch, control, n1(ch), cmuxN1)
      requires !advanced ==> forall ch: Octet :: n1(ch) <= Basic.MAX_LENGTH
      ensures Valid() && fresh(advFrameBuf) && !pollPending
      ensures this.line == line && this.advanced == advanced && this.cmuxN1 == cmuxN1 && this.n1 == n1
    {
      this.line, this.advanced, this.cmuxN1, this.n1 := line, advanced, cmuxN1, n1;
      advFrameBuf := new Octet[FrameRoom(cmuxN1)](_ => 0);
      pollPending := false;
    }

    /** Flag, address, control and length field. */
    method BuildPrefix(channel: Octet, control: Octet, length: nat) returns (prefix: seq<Octet>)
      requires length <= Basic.MAX_LENGTH
      ensures prefix == [BASIC_FLAG] + Basic.Header(channel, control, length)
    {
      prefix := [BASIC_FLAG, (EA | CR) | ((63 & channel) << 2), control];
      if length > 127 {
        prefix := prefix + [((length % 128) as Octet) << 1, (length / 128) as Octet];
      } else {
        prefix := prefix + [1 | ((length as Octet) << 1)];
      }
    }

    /** Prefix, payload and postfix in three writes. */
    method WriteBasic(f: Frame) returns (done: bool)
      requires Valid() && !advanced && |f.data| <= Basic.MAX_LENGTH
      modifies line
      ensures done ==> line.taken == old(line.taken) + Basic.Encode(f) && line.broken == old(line.broken)
      ensures !done ==> line.broken
    {
      hide Fcs.FrameFcs, Basic.Header;
      var prefix := BuildPrefix(f.channel, f.control, |f.data|);
      var fcs := Fcs.CalcCrc(prefix[1..]);
      ghost var t := line.taken;
      var c := line.Write(prefix);
      if c != |prefix| {
        return false;
      }
      if |f.data| > 0 {
        c := line.Write(f.data);
        if c != |f.data| {
          return false;
        }
      }
      assert line.taken == t + prefix + f.data;
      c := line.Write([fcs, BASIC_FLAG]);
      if c != 2 {
        return false;
      }
      ThreeWrites(t, prefix, f.data, [fcs, BASIC_FLAG]);
      return true;
    }

    /** Flag, three stuffed parts and flag, one behind the other. */
    method Assemble(head: seq<Octet>, data: seq<Octet>, fcs: seq<Octet>) returns (offs: nat)
      requires |Stuff(head)| + |Stuff(data)| + |Stuff(fcs)| + 2 <= advFrameBuf.Length
      modifies advFrameBuf
      ensures offs <= advFrameBuf.Length
      ensures advFrameBuf[..offs] == [ADV_FLAG] + Stuff(head) + Stuff(data) + Stuff(fcs) + [ADV_FLAG]
    {
      hide Stuff;
      advFrameBuf[0] := ADV_FLAG;
      offs := 1;
      assert advFrameBuf[..offs] == [ADV_FLAG];
      var n := FillAdvFrameBuf(advFrameBuf, offs, head);
      offs := offs + n;
      n := FillAdvFrameBuf(advFrameBuf, offs, data);
      offs := offs + n;
      n := FillAdvFrameBuf(advFrameBuf, offs, fcs);
      offs := offs + n;
      ghost var sofar := advFrameBuf[..offs];
      advFrameBuf[offs] := ADV_FLAG;
      offs := offs + 1;
      assert advFrameBuf[..offs] == sofar + [ADV_FLAG];
    }

    /** The stuffed frame, built in the frame buffer: `offs` is its length, and it always fits. */
    method BuildAdvanced(f: Frame) returns (offs: nat)
      requires Valid() && advanced && |f.data| <= n1(f.channel)
      modifies advFrameBuf
      ensures offs <= advFrameBuf.Length && advFrameBuf[..offs] == Advanced.Wire(Advanced.Body(f))
      ensures f.channel < 64 ==> W.AdvancedFrame(advFrameBuf[..offs], 4 * f.channel as int + 3, f.control, f.data)
    {
      if f.channel < 64 {
        W.SentInAdvanced(f);
      }
      hide W.AdvancedFrame, Fcs.FrameFcs, Stuff, Advanced.Wire, Advanced.Body, RoomFor, FrameRoom, EscapedCount;
      var head := [(EA | CR) | ((63 & f.channel) << 2), f.control];
      assert head == Advanced.Head(f);
      hide Advanced.Head;
      WireLayout(f);
      assert RoomFor(f.channel, f.control, n1(f.channel), cmuxN1);
      FrameHasRoom(f, n1(f.channel), cmuxN1);
      var fcs := Fcs.CalcCrc(head);
      offs := Assemble(head, f.data, [fcs]);
    }

    /** The stuffed frame is written at once. */
    method WriteAdvanced(f: Frame) returns (done: bool)
      requires Valid() && advanced && |f.data| <= n1(f.channel)
      modifies line, advFrameBuf
      ensures done ==> line.taken == old(line.taken) + Advanced.Wire(Advanced.Body(f)) && line.broken == old(line.broken)
      ensures !done ==> line.broken
    {
      hide Advanced.Wire, Advanced.Body, RoomFor, FrameRoom;
      var offs := BuildAdvanced(f);
      var c := line.Write(advFrameBuf[..offs]);
      return c == offs;
    }

    /**
     Writes one frame, its payload cut to the channel's N1; the result is the payload's length, or 0 if a write
     fell short.
     */
    method WriteFrame(channel: Octet, input: seq<Octet>, kind: Octet) returns (length: nat, ghost done: bool)
      requires Valid()
      requires (kind == TYPE_UIH || kind == TYPE_UI) && pollPending ==> input != []
      modifies line, advFrameBuf, this`pollPending
      ensures Valid()
      ensures var f := FrameSent(channel, kind, old(pollPending), input, n1(channel));
        && |f.data| <= |input| && length == (if done then |f.data| else 0)
        && (done ==> line.broken == old(line.broken) && line.taken == old(line.taken) + OnLine(advanced, f))
        && (!done ==> line.broken)
      ensures done && channel < 64 ==>
        exists w :: line.taken == old(line.taken) + w
                    && SentAs(advanced, w, channel, ControlSent(kind, old(pollPending), input), input[..length])
      ensures done ==> length == if n1(channel) < |input| then n1(channel) else |input|
      ensures pollPending == (old(pollPending) && !GivesPollBack(kind, old(pollPending), input))
      ensures old(line.broken) ==> line.broken
    {
      hide Basic.Encode, Advanced.Wire, Advanced.Body, RoomFor, FrameRoom, SentAs, ControlSent;
      ControlIsSent(channel, kind, pollPending, input, n1(channel));
      var control := kind;
      if (kind == TYPE_UIH || kind == TYPE_UI) && pollPending && IsMsc(input[0]) {
        control := control | PF;
        pollPending := false;
      }
      length := if n1(channel) < |input| then n1(channel) else |input|;
      assert input[..|input|] == input;
      var f := Frame(channel, control, input[..length]);
      assert f == FrameSent(channel, kind, old(pollPending), input, n1(channel));
      hide FrameSent;
      var written;
      if !advanced {
        written := WriteBasic(f);
      } else {
        written := WriteAdvanced(f);
      }
      if !written {
        length := 0;
      }
      done := written;
      if done && channel < 64 {
        SentInNumbers(advanced, f);
      }
    }

    /**
     Sends an application's data; the result counts the octets left, of which there are some exactly if five attempts
     made no progress.
     */
    method HandleChannelData(buf: seq<Octet>, channel: Octet) returns (remaining: nat, ghost stalls: nat)
      requires Valid()
      modifies line, advFrameBuf, this`pollPending
      ensures Valid() && remaining <= |buf|
      ensures remaining > 0 <==> stalls == 5
      ensures !line.broken && n1(channel) > 0 ==>
        && remaining == 0
        && line.taken == old(line.taken) + Lines(advanced, Emitted(channel, old(pollPending), buf, n1(channel)))
      ensures !line.broken && n1(channel) == 0 ==> remaining == |buf|
    {
      hide OnLine, FrameSent, GivesPollBack, Lines, Emitted, Basic.Encode, Advanced.Wire, Advanced.Body, RoomFor,
          FrameRoom;
      var written, i := 0, 0;
      stalls := 0;
      ghost var frames: seq<Frame> := [];
      ghost var limit, all := n1(channel), if n1(channel) > 0 then Emitted(channel, pollPending, buf, n1(channel)) else [];
      LinesOfNone(advanced);
      assert buf[0..] == buf;
      while written != |buf| && i < WRITE_RETRIES
        invariant Valid() && written <= |buf| && i == stalls <= WRITE_RETRIES
        invariant i == WRITE_RETRIES ==> written < |buf|
        invariant !line.broken && limit == 0 ==> written == 0
        invariant forall k :: 0 <= k < |frames| ==> |frames[k].data| <= limit
        invariant !line.broken && limit > 0 ==> i == 0 && line.taken == old(line.taken) + Lines(advanced, frames)
        invariant !line.broken && limit > 0 ==> frames + Emitted(channel, pollPending, buf[written..], limit) == all
        decreases |buf| - written, WRITE_RETRIES - i
      {
        ghost var pending, rest, t := pollPending, buf[written..], line.taken;
        var last;
        ghost var done;
        last, done := WriteFrame(channel, buf[written..], TYPE_UIH);
        if !line.broken && limit > 0 {
          frames := OneMoreFrame(advanced, channel, pending, buf, written, limit, frames, old(line.taken));
        } else if limit == 0 {
          NoRoom(channel, pending, rest);
        }
        written := written + last;
        if last == 0 {
          i, stalls := i + 1, stalls + 1;
        }
      }
      if !line.broken && limit > 0 {
        EmittedNone(channel, pollPending, buf[written..], limit);
        assert frames + [] == frames;
      }
      remaining := |buf| - written;
    }
  }

  lemma LinesOfNone(advanced: bool)
    ensures Lines(advanced, []) == []
  {}

  lemma EmittedNone(channel: Octet, pollPending: bool, input: seq<Octet>, n1: nat)
    requires n1 > 0 && input == []
    ensures Emitted(channel, pollPending, input, n1) == []
  {}

  lemma EmittedStep(channel: Octet, pollPending: bool, input: seq<Octet>, n1: nat)
    requires n1 > 0 && input != []
    ensures var f := FrameSent(channel, TYPE_UIH, pollPending, input, n1);
      && 0 < |f.data| <= |input| && |f.data| <= n1
      && Emitted(channel, pollPending, input, n1)
         == [f] + Emitted(channel, pollPending && !GivesPollBack(TYPE_UIH, pollPending, input), input[|f.data|..], n1)
  {
    hide GivesPollBack;
  }

  /** The next fragment behind those already on the line. */
  lemma OneMoreFrame(advanced: bool, channel: Octet, pending: bool, buf: seq<Octet>, written: nat, limit: nat,
      frames: seq<Frame>, before: seq<Octet>)
    returns (more: seq<Frame>)
    requires limit > 0 && written < |buf| && (!advanced ==> limit <= Basic.MAX_LENGTH)
    requires forall k :: 0 <= k < |frames| ==> |frames[k].data| <= limit
    ensures var f := FrameSent(channel, TYPE_UIH, pending, buf[written..], limit);
      var n, pending' := |f.data|, pending && !GivesPollBack(TYPE_UIH, pending, buf[written..]);
      && 0 < n && written + n <= |buf| && n <= limit && more == frames + [f]
      && (forall k :: 0 <= k < |more| ==> |more[k].data| <= limit)
      && before + Lines(advanced, frames) + OnLine(advanced, f) == before + Lines(advanced, more)
      && more + Emitted(channel, pending', buf[written + n..], limit)
         == frames + Emitted(channel, pending, buf[written..], limit)
  {
    hide OnLine, FrameSent, GivesPollBack, Lines, Emitted;
    var rest := buf[written..];
    var f := FrameSent(channel, TYPE_UIH, pending, rest, limit);
    EmittedStep(channel, pending, rest, limit);
    LinesAppend(advanced, frames, f);
    DropTwice(buf, written, |f.data|);
    var pending' := pending && !GivesPollBack(TYPE_UIH, pending, rest);
    JoinThree(frames, [f], Emitted(channel, pending', buf[written + |f.data|..], limit));
    JoinThree(before, Lines(advanced, frames), OnLine(advanced, f));
    more := frames + [f];
  }

  lemma DropTwice<T>(s: seq<T>, i: nat, j: nat)
    requires i + j <= |s|
    ensures s[i..][j..] == s[i + j..]
  {}

  lemma NoRoom(channel: Octet, pollPending: bool, input: seq<Octet>)
    ensures FrameSent(channel, TYPE_UIH, pollPending, input, 0).data == []
  {}
}

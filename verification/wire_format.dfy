/**
 The frames on the line as sections 5.2.6 and 5.2.7 of TS 27.010 lay them out, in plain numbers: which octets the
 sender writes, and what the receivers make of the octets of any peer, with the two low bits of the address octet
 and the poll/final bit in every setting.
 */
module WireFormat {
  import opened Octets
  import Fcs
  import Stuffing
  import BasicSpec
  import Basic = BasicStream
  import AdvancedSpec
  import Advanced = AdvancedStream

  /** A UI frame, with the poll/final bit or without: the receivers check it over its payload as well. */
  predicate IsUi(control: Octet) {
    control == 0x03 || control == 0x13
  }

  /** The number of octets of the length field of the basic option. */
  function LengthSize(n: nat): nat {
    if n <= 127 then 1 else 2
  }

  /** Address, control and length field of the basic option. */
  predicate HeadLaidOut(head: seq<Octet>, address: int, control: Octet, n: nat) {
    && |head| == 2 + LengthSize(n) && head[0] as int == address && head[1] == control
    && if n <= 127 then head[2] as int == 2 * n + 1 else head[2] as int == 2 * (n % 128) && head[3] as int == n / 128
  }

  /** A frame of the basic option as a sender lays it out: flag, head, payload, check octet of the head, flag. */
  predicate BasicFrame(w: seq<Octet>, address: int, control: Octet, data: seq<Octet>) {
    var h := 3 + LengthSize(|data|);
    && |w| == h + |data| + 2 && w[0] == 0xF9 && HeadLaidOut(w[1..h], address, control, |data|)
    && w[h..h + |data|] == data
    && w[h + |data|] == Fcs.CheckOctet(w[1..h]) && w[h + |data| + 1] == 0xF9
  }

  /** What stands between two flags of the advanced option, escapes undone. */
  function Unstuffed(s: seq<Octet>): seq<Octet> {
    if s == [] then []
    else if s[0] == 0x7D && |s| > 1 then [s[1] ^ 0x20] + Unstuffed(s[2..])
    else [s[0]] + Unstuffed(s[1..])
  }

  /** A frame of the advanced option: flag, the stuffed body, flag, and no other flag. */
  predicate AdvancedFrame(w: seq<Octet>, address: int, control: Octet, data: seq<Octet>) {
    && |w| >= 2 && w[0] == 0x7E == w[|w| - 1] && 0x7E !in w[1..|w| - 1]
    && var body := Unstuffed(w[1..|w| - 1]);
       body != [] && body[0] as int == address
       && body == [body[0], control] + data + [Fcs.CheckOctet([body[0], control])]
  }

  predicate FrameOnLine(advanced: bool, w: seq<Octet>, address: int, control: Octet, data: seq<Octet>) {
    if advanced then AdvancedFrame(w, address, control, data) else BasicFrame(w, address, control, data)
  }

  // ----- What the sender writes -----

  lemma FieldValues(n: nat)
    requires n <= Basic.MAX_LENGTH
    ensures var field := Basic.LengthField(n);
      && |field| == LengthSize(n)
      && if n <= 127 then field[0] as int == 2 * n + 1 else field[0] as int == 2 * (n % 128) && field[1] as int == n / 128
  {
    if n <= 127 {
      Doubled(n);
    } else {
      Doubled(n % 128);
      Basic.OctetOf(n / 128);
    }
  }

  lemma {:induction false} Doubled(n: nat)
    requires n < 128
    ensures ((n as Octet) << 1) as int == 2 * n && (1 | ((n as Octet) << 1)) as int == 2 * n + 1
  {
    Basic.SmallOctet(n);
    Basic.OctetOf(n);
    DoubledOctet(n as Octet);
  }

  lemma {:induction false} DoubledOctet(b: Octet)
    requires b < 128
    ensures (b << 1) as int == 2 * b as int && (1 | (b << 1)) as int == 2 * b as int + 1
    decreases b as int
  {
    if b > 0 {
      var p := b - 1;
      OneOctetMore(p);
      DoubledOctet(p);
      var d := p << 1;
      assert d < 253 && b << 1 == d + 2 && 1 | (b << 1) == d + 3;
      OneOctetMore(d);
      OneOctetMore(d + 1);
      OneOctetMore(d + 2);
    }
  }

  lemma HeaderLaidOut(f: Frame)
    requires |f.data| <= Basic.MAX_LENGTH
    ensures HeadLaidOut(Basic.Header(f.channel, f.control, |f.data|), Address(f.channel) as int, f.control, |f.data|)
  {
    hide Address, Basic.LengthField;
    FieldValues(|f.data|);
  }

  /** Every frame sent in the basic option is laid out so, with an address octet of four times the channel and three. */
  lemma SentInBasic(f: Frame)
    requires f.channel < 64 && |f.data| <= Basic.MAX_LENGTH
    ensures BasicFrame(Basic.Encode(f), 4 * f.channel as int + 3, f.control, f.data)
  {
    AddressValue(f.channel);
    HeaderLaidOut(f);
    var header := Basic.Header(f.channel, f.control, |f.data|);
    HeadSize(header, Address(f.channel) as int, f.control, |f.data|);
    Fcs.FrameFcsIsCheckOctet(header);
    hide Address, Fcs.FrameFcs, Fcs.CheckOctet, HeadLaidOut, Basic.Header, BasicFrame;
    LaidOut(header, f.data, 4 * f.channel as int + 3, f.control);
  }

  lemma LaidOut(header: seq<Octet>, data: seq<Octet>, address: int, control: Octet)
    requires HeadLaidOut(header, address, control, |data|) && |header| == 2 + LengthSize(|data|)
    ensures BasicFrame([0xF9] + header + data + [Fcs.CheckOctet(header), 0xF9], address, control, data)
  {
    hide Fcs.CheckOctet, HeadLaidOut;
    var w, h := [0xF9] + header + data + [Fcs.CheckOctet(header), 0xF9], 3 + LengthSize(|data|);
    assert w[1..h] == header && w[h..h + |data|] == data;
  }

  lemma HeadSize(head: seq<Octet>, address: int, control: Octet, n: nat)
    requires HeadLaidOut(head, address, control, n)
    ensures |head| == 2 + LengthSize(n)
  {}

  lemma {:induction false} UnstuffedStuff(x: seq<Octet>)
    ensures Unstuffed(Stuffing.Stuff(x)) == x
  {
    if x != [] {
      Stuffing.StuffedOctets(x[0]);
      Advanced.StuffCons(x);
      UnstuffedStuff(x[1..]);
      var y := Stuffing.Stuff(x[1..]);
      hide Stuffing.Stuff, Stuffing.StuffOctet;
      UnstuffedOne(x[0], Stuffing.StuffOctet(x[0]), y);
    }
  }

  lemma UnstuffedOne(b: Octet, s: seq<Octet>, y: seq<Octet>)
    requires s == if b == 0x7E then [0x7D, 0x5E] else if b == 0x7D then [0x7D, 0x5D]
                  else if b == 0x11 then [0x7D, 0x31] else if b == 0x91 then [0x7D, 0xB1]
                  else if b == 0x13 then [0x7D, 0x33] else if b == 0x93 then [0x7D, 0xB3] else [b]
    ensures Unstuffed(s + y) == [b] + Unstuffed(y)
  {
    if |s| == 2 {
      assert (s + y)[2..] == y && (s + y)[1] ^ 0x20 == b;
    } else {
      assert (s + y)[1..] == y;
    }
  }

  /** And so in the advanced option. */
  lemma SentInAdvanced(f: Frame)
    requires f.channel < 64
    ensures AdvancedFrame(Advanced.Wire(Advanced.Body(f)), 4 * f.channel as int + 3, f.control, f.data)
  {
    AddressValue(f.channel);
    var body := Advanced.Body(f);
    hide Address, Fcs.FrameFcs, Fcs.CheckOctet, Stuffing.Stuff, Unstuffed;
    Fcs.FrameFcsIsCheckOctet([Address(f.channel), f.control]);
    UnstuffedStuff(body);
    Advanced.StuffHasNoFlag(body);
    assert Advanced.Wire(body)[1..|Advanced.Wire(body)| - 1] == Stuffing.Stuff(body);
  }

  // ----- What the receivers make of any octets -----

  /** The octets in front of the payload: three, or four if the first of the length field is even. */
  function HeadOf(low: Octet): nat {
    if low as int % 2 == 1 then 3 else 4
  }

  function LengthIn(low: Octet, high: Octet): nat {
    low as int / 2 + if low as int % 2 == 1 then 0 else 128 * high as int
  }

  /** With a head of `h` octets and a payload of `n`, check octet and end flag are in their places. */
  predicate FrameGood(c: seq<Octet>, h: nat, n: nat)
    requires 3 <= h && h + n + 2 <= |c|
  {
    c[h + n] == Fcs.CheckOctet(if IsUi(c[1]) then c[..h + n] else c[..h]) && c[h + n + 1] == 0xF9
  }

  predicate FrameIn(c: seq<Octet>, h: nat, n: nat, f: Frame)
    requires 3 <= h && h + n + 2 <= |c|
  {
    f.channel as int == c[0] as int / 4 && f.control == c[1] && f.data == c[h..h + n]
  }

  /** The octets behind a start flag, up to the end flag, make up this frame. */
  predicate BasicReceived(w: seq<Octet>, f: Frame) {
    && |w| >= 5
    && var h, n := HeadOf(w[2]), LengthIn(w[2], w[3]);
       |w| == h + n + 2 && FrameGood(w, h, n) && FrameIn(w, h, n, f)
  }

  lemma LowBit(low: Octet)
    ensures low & EA == 0 <==> low as int % 2 == 0
  {}

  lemma {:induction false} SevenHighBits(low: Octet)
    ensures ((low & 254) >> 1) as int == low as int / 2
    decreases low as int
  {
    if low >= 2 {
      var p := low - 2;
      SevenHighBits(p);
      var d := (p & 254) >> 1;
      assert (low & 254) >> 1 == d + 1 && d < 127;
      OneOctetMore(d);
      assert p as int == low as int - 2;
    }
  }

  /** Header size and payload length, from the value of the first octet of the length field. */
  lemma SizesInNumbers(c: seq<Octet>)
    requires |c| >= 5
    ensures BasicSpec.HeaderSize(c) == HeadOf(c[2]) && BasicSpec.PayloadSize(c) == LengthIn(c[2], c[3])
  {
    LowBit(c[2]);
    SevenHighBits(c[2]);
  }

  /** The check octet of the frame is accepted exactly if it is that of the octets it covers. */
  lemma CheckedInOctets(c: seq<Octet>)
    requires |c| >= 5 && |c| >= BasicSpec.HeaderSize(c) + BasicSpec.PayloadSize(c) + 2
    ensures var h, n := BasicSpec.HeaderSize(c), BasicSpec.PayloadSize(c);
      Fcs.Accepts(BasicSpec.Checked(c)) && c[h + n + 1] == 0xF9 <==> FrameGood(c, h, n)
  {
    hide Fcs.Accepts, Fcs.FrameFcs, Fcs.CheckOctet, BasicSpec.HeaderSize, BasicSpec.PayloadSize;
    ControlOctets(c[1]);
    var h, n := BasicSpec.HeaderSize(c), BasicSpec.PayloadSize(c);
    var covered := if IsUi(c[1]) then c[..h + n] else c[..h];
    assert c[..h] + c[h..h + n] == c[..h + n] && c[..h] + [] == c[..h];
    assert BasicSpec.Checked(c) == covered + [c[h + n]];
    Fcs.ResidueAcceptsOnlyFrameFcs(covered, c[h + n]);
    Fcs.FrameFcsIsCheckOctet(covered);
  }

  /** The attempt, told by the numbers in the octets. */
  lemma AttemptInNumbers(n1: Octet -> nat, c: seq<Octet>)
    requires |c| >= 5
    ensures var h, n := HeadOf(c[2]), LengthIn(c[2], c[3]);
      var channel, a := (c[0] as int / 4) as Octet, BasicSpec.Parse(n1, c);
      && (n > n1(channel) ==> a == BasicSpec.Drop(c[h - 1..]))
      && (n <= n1(channel) && |c| < h + n + 2 ==> a == BasicSpec.NeedMore(true, c))
      && (n <= n1(channel) && |c| >= h + n + 2 ==>
            a == if FrameGood(c, h, n) then BasicSpec.Got(Frame(channel, c[1], c[h..h + n]), c[h + n + 2..])
                 else BasicSpec.Drop(c[h + n + 1..]))
  {
    hide BasicSpec.Parse, FrameGood, HeadOf, LengthIn, BasicSpec.HeaderSize, BasicSpec.PayloadSize, BasicSpec.Checked;
    hide Fcs.Accepts;
    SizesInNumbers(c);
    ChannelInNumbers(c[0]);
    hide DecodeAddress;
    var h, n := BasicSpec.HeaderSize(c), BasicSpec.PayloadSize(c);
    if |c| >= h + n + 2 {
      CheckedInOctets(c);
    }
    AttemptBySizes(n1, c, h, n);
  }

  lemma AttemptBySizes(n1: Octet -> nat, c: seq<Octet>, h: nat, n: nat)
    requires |c| >= 5 && h == BasicSpec.HeaderSize(c) && n == BasicSpec.PayloadSize(c)
    ensures var channel, a := DecodeAddress(c[0]), BasicSpec.Parse(n1, c);
      && (n > n1(channel) ==> a == BasicSpec.Drop(c[h - 1..]))
      && (n <= n1(channel) && |c| < h + n + 2 ==> a == BasicSpec.NeedMore(true, c))
      && (n <= n1(channel) && |c| >= h + n + 2 ==>
            a == if Fcs.Accepts(BasicSpec.Checked(c)) && c[h + n + 1] == 0xF9
                 then BasicSpec.Got(Frame(channel, c[1], c[h..h + n]), c[h + n + 2..])
                 else BasicSpec.Drop(c[h + n + 1..]))
  {
    hide Fcs.Accepts, BasicSpec.Checked, BasicSpec.HeaderSize, BasicSpec.PayloadSize, DecodeAddress;
  }

  lemma ChannelInNumbers(o: Octet)
    ensures DecodeAddress(o) == (o as int / 4) as Octet
  {
    hide DecodeAddress;
    DecodedChannel(o);
    assert (DecodeAddress(o) as int) as Octet == DecodeAddress(o);
  }

  lemma OctetIsNumber(o: Octet, k: nat)
    requires k < 64
    ensures o == k as Octet <==> o as int == k
  {
    Basic.OctetOf(k);
    assert (o as int) as Octet == o;
  }

  /** A frame is read off the octets exactly if it is what they say, and within the limit of the channel they name. */
  lemma ParsedIffReceived(n1: Octet -> nat, c: seq<Octet>, f: Frame, rest: seq<Octet>)
    ensures BasicSpec.Parse(n1, c) == BasicSpec.Got(f, rest)
            <==> && |rest| <= |c| && rest == c[|c| - |rest|..]
                 && BasicReceived(c[..|c| - |rest|], f) && |f.data| <= n1(f.channel)
  {
    hide Fcs.CheckOctet, IsUi, BasicSpec.Parse, BasicReceived, FrameGood, FrameIn, HeadOf, LengthIn;
    if |c| < 5 {
      TooShort(n1, c);
      ReceivedSize(c, f);
    } else {
      var h, n := HeadOf(c[2]), LengthIn(c[2], c[3]);
      var channel := (c[0] as int / 4) as Octet;
      AttemptInNumbers(n1, c);
      FrameAhead(c, h, n, f, channel);
      if BasicSpec.Parse(n1, c) == BasicSpec.Got(f, rest) {
        assert |c| >= h + n + 2 && |rest| == |c| - (h + n + 2);
      }
      if |rest| <= |c| && rest == c[|c| - |rest|..] && BasicReceived(c[..|c| - |rest|], f) {
        ReceivedAhead(c, |c| - |rest|, h, n, f);
      }
    }
  }

  lemma TooShort(n1: Octet -> nat, c: seq<Octet>)
    requires |c| < 5
    ensures BasicSpec.Parse(n1, c) == BasicSpec.NeedMore(true, c)
  {}

  lemma ReceivedSize(c: seq<Octet>, f: Frame)
    ensures forall m :: 0 <= m <= |c| && BasicReceived(c[..m], f) ==> m >= 5
  {
    hide FrameGood, FrameIn, HeadOf, LengthIn;
  }

  lemma FrameAhead(c: seq<Octet>, h: nat, n: nat, f: Frame, channel: Octet)
    requires |c| >= 5 && h == HeadOf(c[2]) && n == LengthIn(c[2], c[3]) && channel == (c[0] as int / 4) as Octet
    ensures h + n + 2 <= |c| ==>
      (FrameIn(c, h, n, f) <==> f == Frame(channel, c[1], c[h..h + n]))
      && (BasicReceived(c[..h + n + 2], f) <==> FrameGood(c, h, n) && FrameIn(c, h, n, f))
  {
    OctetIsNumber(f.channel, c[0] as int / 4);
    assert h >= 3;
    hide FrameGood, LengthIn, HeadOf;
    if h + n + 2 <= |c| {
      FrameInPrefix(c, h, n, f);
      hide FrameIn;
      var w := c[..h + n + 2];
      assert w[2] == c[2] && w[3] == c[3];
    }
    assert h + n + 2 <= |c| ==> (FrameIn(c, h, n, f) <==> f == Frame(channel, c[1], c[h..h + n]));
  }

  lemma FrameInPrefix(c: seq<Octet>, h: nat, n: nat, f: Frame)
    requires 3 <= h && h + n + 2 <= |c|
    ensures FrameGood(c[..h + n + 2], h, n) == FrameGood(c, h, n)
    ensures FrameIn(c[..h + n + 2], h, n, f) == FrameIn(c, h, n, f)
  {
    hide Fcs.CheckOctet, IsUi;
    var w := c[..h + n + 2];
    assert w[h..h + n] == c[h..h + n] && w[..h + n] == c[..h + n] && w[..h] == c[..h];
  }

  lemma ReceivedAhead(c: seq<Octet>, m: nat, h: nat, n: nat, f: Frame)
    requires |c| >= 5 && m <= |c| && h == HeadOf(c[2]) && n == LengthIn(c[2], c[3]) && BasicReceived(c[..m], f)
    ensures m == h + n + 2 && |f.data| == n
  {
    hide FrameGood, HeadOf, LengthIn;
    assert c[..m][2] == c[2] && c[..m][3] == c[3];
  }

  // ----- What a call returns was on the line -----

  /** From place `i` on `f` is what was read. */
  predicate ReadFrom(c: seq<Octet>, i: nat, rest: seq<Octet>, f: Frame) {
    i + |rest| <= |c| && BasicReceived(c[i..|c| - |rest|], f)
  }

  /** What has been read of `c` ends in the octets of `f`. */
  ghost predicate EndsInFrame(n1: Octet -> nat, c: seq<Octet>, rest: seq<Octet>, f: Frame) {
    && |rest| <= |c| && rest == c[|c| - |rest|..] && |f.data| <= n1(f.channel)
    && exists i: nat :: ReadFrom(c, i, rest, f)
  }

  lemma {:induction false} FlagIsBehind(c: seq<Octet>) returns (i: nat)
    requires BasicSpec.FindFlag(c).Some?
    ensures i <= |c| && BasicSpec.FindFlag(c).value == c[i..]
  {
    if c[0] == BASIC_FLAG {
      i := 1;
    } else {
      i := FlagIsBehind(c[1..]);
      assert c[1..][i..] == c[i + 1..];
      i := i + 1;
    }
  }

  lemma {:induction false} FlagsAreInFront(c: seq<Octet>) returns (i: nat)
    ensures i <= |c| && BasicSpec.SkipFlags(c) == c[i..]
  {
    i := 0;
    if c != [] && c[0] == BASIC_FLAG {
      i := FlagsAreInFront(c[1..]);
      assert c[1..][i..] == c[i + 1..];
      i := i + 1;
    }
  }

  /** An attempt is the parse of the octets from some place on. */
  lemma TryIsParse(n1: Octet -> nat, flag: bool, c: seq<Octet>) returns (i: nat)
    requires !BasicSpec.Try(n1, flag, c).NeedMore?
    ensures i <= |c| && BasicSpec.Try(n1, flag, c) == BasicSpec.Parse(n1, c[i..])
  {
    hide BasicSpec.Parse, BasicSpec.FindFlag, BasicSpec.SkipFlags;
    if flag {
      i := FlagsAreInFront(c);
    } else {
      i := FlagIsBehind(c);
      var j := FlagsAreInFront(c[i..]);
      assert c[i..][j..] == c[i + j..];
      i := i + j;
    }
  }

  /** In the basic option: with its channel, control octet and payload as they stood there. */
  lemma {:induction false} CallReturnsFromLine(n1: Octet -> nat, flag: bool, c: seq<Octet>, depth: nat, dropped: nat)
    ensures var r := BasicSpec.GetFrame(n1, flag, c, depth, dropped);
      r.Returned? && r.frame.Some? ==> EndsInFrame(n1, c, r.rest, r.frame.value)
    decreases BasicSpec.MAX_RESYNC_GET_FRAME_COUNT - depth
  {
    hide BasicSpec.Parse, BasicSpec.Try, BasicReceived;
    if depth < BasicSpec.MAX_RESYNC_GET_FRAME_COUNT {
      var a := BasicSpec.Try(n1, flag, c);
      if !a.NeedMore? {
        var i := TryIsParse(n1, flag, c);
        BasicSpec.ParseShrinks(n1, c[i..]);
        if a.Got? {
          ParsedIffReceived(n1, c[i..], a.frame, a.rest);
          SliceTwice(c, i, |a.rest|);
          assert ReadFrom(c, i, a.rest, a.frame);
        } else {
          CallReturnsFromLine(n1, false, a.rest, depth + 1, dropped + 1);
          var r := BasicSpec.GetFrame(n1, false, a.rest, depth + 1, dropped + 1);
          if r.Returned? && r.frame.Some? {
            EndsFurtherBack(n1, c, i, a.rest, r.rest, r.frame.value);
          }
        }
      }
    }
  }

  lemma SliceTwice(c: seq<Octet>, i: nat, m: nat)
    requires i + m <= |c|
    ensures c[i..][..|c[i..]| - m] == c[i..|c| - m] && c[i..][|c[i..]| - m..] == c[|c| - m..]
  {}

  lemma EndsFurtherBack(n1: Octet -> nat, c: seq<Octet>, i: nat, u: seq<Octet>, rest: seq<Octet>, f: Frame)
    requires i + |u| <= |c| && u == c[i..][|c| - i - |u|..] && EndsInFrame(n1, u, rest, f)
    ensures EndsInFrame(n1, c, rest, f)
  {
    hide BasicReceived;
    var k: nat :| ReadFrom(u, k, rest, f);
    var j := |c| - |u|;
    assert u == c[j..];
    assert c[j + k..|c| - |rest|] == u[k..|u| - |rest|] && rest == c[|c| - |rest|..];
    assert ReadFrom(c, j + k, rest, f);
  }

  /** The octets between two flags, escapes undone, make up this frame. */
  predicate BodyReceived(body: seq<Octet>, f: Frame) {
    && |body| >= 3
    && f.channel as int == body[0] as int / 4 && f.control == body[1] && f.data == body[2..|body| - 1]
    && body[|body| - 1] == Fcs.CheckOctet(if IsUi(body[1]) then body[..|body| - 1] else body[..2])
  }

  /** In the advanced option a closing flag delivers exactly such a frame, and drops what is none. */
  lemma ClosedInNumbers(body: seq<Octet>, f: Frame)
    ensures AdvancedSpec.Close(body) == AdvancedSpec.Got(f) <==> BodyReceived(body, f)
    ensures AdvancedSpec.Close(body).Nothing? <==> |body| < 3
  {
    hide Fcs.Accepts, Fcs.FrameFcs, Fcs.CheckOctet, DecodeAddress;
    if |body| >= 3 {
      ControlOctets(body[1]);
      ChannelInNumbers(body[0]);
      OctetIsNumber(f.channel, body[0] as int / 4);
      var covered := AdvancedSpec.Covered(body);
      Fcs.ResidueAcceptsOnlyFrameFcs(covered, body[|body| - 1]);
      Fcs.FrameFcsIsCheckOctet(covered);
    }
  }

  /** What was read of `w` ends in a flag, and the body that it closes is that of `f`. */
  predicate ClosesFrame(s: AdvancedSpec.State, w: seq<Octet>, rest: seq<Octet>, f: Frame) {
    && |rest| < |w| && rest == w[|w| - |rest|..] && w[|w| - |rest| - 1] == 0x7E
    && var e := AdvancedSpec.After(s, w[..|w| - |rest| - 1]);
       e.InFrame? && !e.esc && BodyReceived(e.acc, f)
  }

  lemma {:induction false} ScanClosesFrame(s: AdvancedSpec.State, w: seq<Octet>, dropped: nat)
    ensures var r := AdvancedSpec.Scan(s, w, dropped); r.frame.Some? ==> ClosesFrame(s, w, r.rest, r.frame.value)
    decreases |w|
  {
    hide AdvancedSpec.Close, AdvancedSpec.Next, BodyReceived;
    if w != [] {
      var r, e := AdvancedSpec.Scan(s, w, dropped), AdvancedSpec.Emit(s, w[0]);
      if e.Got? {
        ClosedInNumbers(s.acc, e.frame);
        assert w[..0] == [];
      } else {
        var d := if e.Dropped? then dropped + 1 else dropped;
        ScanClosesFrame(AdvancedSpec.Next(s, w[0]), w[1..], d);
        if r.frame.Some? {
          var k := |w| - |r.rest| - 1;
          assert w[..k][1..] == w[1..][..k - 1] && w[1..][k..] == w[k + 1..];
        }
      }
    }
  }
}

/** The octet type, the small datatypes and the constants shared by the multiplexer modules. */
module Octets {
  type Octet = bv8

  datatype Option<+T> = None | Some(value: T)

  /** A frame as the daemon hands it on: address, control field and payload. */
  datatype Frame = Frame(channel: Octet, control: Octet, data: seq<Octet>)

  const BUFFER_SIZE := 2048
  const MAX_CHANNELS := 32
  const HIGH_WATERMARK := 4096

  const BASIC_FLAG: Octet := 0xF9
  const ADV_FLAG: Octet := 0x7E
  const ADV_ESC: Octet := 0x7D
  const ADV_ESC_COMPL: Octet := 0x20

  const PF: Octet := 0x10
  const CR: Octet := 0x02
  const EA: Octet := 0x01

  const TYPE_SABM: Octet := 0x2F
  const TYPE_UA: Octet := 0x63
  const TYPE_DM: Octet := 0x0F
  const TYPE_DISC: Octet := 0x43
  const TYPE_UIH: Octet := 0xEF
  const TYPE_UI: Octet := 0x03

  /** The control field carries frame type `t`, whatever its poll/final bit. */
  predicate FrameIs(t: Octet, control: Octet) {
    control & 0xEF == t
  }

  function DecodeAddress(octet: Octet): Octet {
    (octet & 252) >> 2
  }

  /** The address octet of a command: extension and command bits set, the channel above them. */
  function Address(channel: Octet): Octet {
    (EA | CR) | ((63 & channel) << 2)
  }

  lemma AddressFacts(channel: Octet)
    ensures Address(channel) != BASIC_FLAG
    ensures channel < 64 ==> DecodeAddress(Address(channel)) == channel
  {}

  /** The control octets of each type, without and with the poll/final bit. */
  lemma ControlOctets(control: Octet)
    ensures FrameIs(TYPE_SABM, control) <==> control == 0x2F || control == 0x3F
    ensures FrameIs(TYPE_UA, control) <==> control == 0x63 || control == 0x73
    ensures FrameIs(TYPE_DM, control) <==> control == 0x0F || control == 0x1F
    ensures FrameIs(TYPE_DISC, control) <==> control == 0x43 || control == 0x53
    ensures FrameIs(TYPE_UIH, control) <==> control == 0xEF || control == 0xFF
    ensures FrameIs(TYPE_UI, control) <==> control == 0x03 || control == 0x13
  {}

  lemma OneOctetMore(o: Octet)
    requires o < 255
    ensures (o + 1) as int == o as int + 1
  {}

  /** The channel of an address octet is what stands above its two low bits, whatever these are. */
  lemma {:induction false} DecodedChannel(o: Octet)
    ensures DecodeAddress(o) as int == o as int / 4 < 64
    decreases o as int
  {
    if o >= 4 {
      var p := o - 4;
      FourLess(o);
      DecodedChannel(p);
    }
  }

  lemma FourLess(o: Octet)
    requires o >= 4
    ensures (o - 4) as int == o as int - 4 && DecodeAddress(o) as int == DecodeAddress(o - 4) as int + 1
  {
    var d := DecodeAddress(o - 4);
    assert DecodeAddress(o) == d + 1 && d < 63;
    OneOctetMore(d);
  }

  /** The address octet of a command to channel `c`: both low bits set, the channel above them. */
  lemma AddressValue(c: Octet)
    requires c < 64
    ensures Address(c) as int == 4 * c as int + 3
  {
    var a := Address(c);
    AddressFacts(c);
    DecodedChannel(a);
    LowBits(a);
  }

  lemma LowBits(a: Octet)
    ensures a & 3 == 3 ==> a as int % 4 == 3
  {}

  lemma JoinThree<T>(a: seq<T>, b: seq<T>, c: seq<T>)
    ensures (a + b) + c == a + (b + c)
  {}

  function Concat<T>(parts: seq<seq<T>>): seq<T> {
    if parts == [] then [] else parts[0] + Concat(parts[1..])
  }

  lemma {:induction false} ConcatAppend<T>(xs: seq<seq<T>>, ys: seq<seq<T>>)
    ensures Concat(xs + ys) == Concat(xs) + Concat(ys)
  {
    if xs == [] {
      assert xs + ys == ys;
    } else {
      ConcatAppend(xs[1..], ys);
      assert (xs + ys)[0] == xs[0] && (xs + ys)[1..] == xs[1..] + ys;
      var x, a, b := xs[0], Concat(xs[1..]), Concat(ys);
      assert x + (a + b) == (x + a) + b;
    }
  }
}

/** The frame check sequence of section 5.2.1.6 of TS 27.010: a reversed 8-bit CRC. */
module Fcs {
  import opened Octets

  /** The daemon's 256-entry table, sixteen entries a row. */
  const R_CRCTABLE: seq<seq<Octet>> := [
    [0x00, 0x91, 0xE3, 0x72, 0x07, 0x96, 0xE4, 0x75, 0x0E, 0x9F, 0xED, 0x7C, 0x09, 0x98, 0xEA, 0x7B],
    [0x1C, 0x8D, 0xFF, 0x6E, 0x1B, 0x8A, 0xF8, 0x69, 0x12, 0x83, 0xF1, 0x60, 0x15, 0x84, 0xF6, 0x67],
    [0x38, 0xA9, 0xDB, 0x4A, 0x3F, 0xAE, 0xDC, 0x4D, 0x36, 0xA7, 0xD5, 0x44, 0x31, 0xA0, 0xD2, 0x43],
    [0x24, 0xB5, 0xC7, 0x56, 0x23, 0xB2, 0xC0, 0x51, 0x2A, 0xBB, 0xC9, 0x58, 0x2D, 0xBC, 0xCE, 0x5F],
    [0x70, 0xE1, 0x93, 0x02, 0x77, 0xE6, 0x94, 0x05, 0x7E, 0xEF, 0x9D, 0x0C, 0x79, 0xE8, 0x9A, 0x0B],
    [0x6C, 0xFD, 0x8F, 0x1E, 0x6B, 0xFA, 0x88, 0x19, 0x62, 0xF3, 0x81, 0x10, 0x65, 0xF4, 0x86, 0x17],
    [0x48, 0xD9, 0xAB, 0x3A, 0x4F, 0xDE, 0xAC, 0x3D, 0x46, 0xD7, 0xA5, 0x34, 0x41, 0xD0, 0xA2, 0x33],
    [0x54, 0xC5, 0xB7, 0x26, 0x53, 0xC2, 0xB0, 0x21, 0x5A, 0xCB, 0xB9, 0x28, 0x5D, 0xCC, 0xBE, 0x2F],
    [0xE0, 0x71, 0x03, 0x92, 0xE7, 0x76, 0x04, 0x95, 0xEE, 0x7F, 0x0D, 0x9C, 0xE9, 0x78, 0x0A, 0x9B],
    [0xFC, 0x6D, 0x1F, 0x8E, 0xFB, 0x6A, 0x18, 0x89, 0xF2, 0x63, 0x11, 0x80, 0xF5, 0x64, 0x16, 0x87],
    [0xD8, 0x49, 0x3B, 0xAA, 0xDF, 0x4E, 0x3C, 0xAD, 0xD6, 0x47, 0x35, 0xA4, 0xD1, 0x40, 0x32, 0xA3],
    [0xC4, 0x55, 0x27, 0xB6, 0xC3, 0x52, 0x20, 0xB1, 0xCA, 0x5B, 0x29, 0xB8, 0xCD, 0x5C, 0x2E, 0xBF],
    [0x90, 0x01, 0x73, 0xE2, 0x97, 0x06, 0x74, 0xE5, 0x9E, 0x0F, 0x7D, 0xEC, 0x99, 0x08, 0x7A, 0xEB],
    [0x8C, 0x1D, 0x6F, 0xFE, 0x8B, 0x1A, 0x68, 0xF9, 0x82, 0x13, 0x61, 0xF0, 0x85, 0x14, 0x66, 0xF7],
    [0xA8, 0x39, 0x4B, 0xDA, 0xAF, 0x3E, 0x4C, 0xDD, 0xA6, 0x37, 0x45, 0xD4, 0xA1, 0x30, 0x42, 0xD3],
    [0xB4, 0x25, 0x57, 0xC6, 0xB3, 0x22, 0x50, 0xC1, 0xBA, 0x2B, 0x59, 0xC8, 0xBD, 0x2C, 0x5E, 0xCF]
  ]

  function CrcTable(x: Octet): Octet {
    TableShape();
    R_CRCTABLE[(x >> 4) as int][(x & 15) as int]
  }

  lemma TableShape()
    ensures |R_CRCTABLE| == 16 && forall i :: 0 <= i < 16 ==> |R_CRCTABLE[i]| == 16
  {
    assert R_CRCTABLE[..8] + R_CRCTABLE[8..] == R_CRCTABLE;
  }

  function Feed(fcs: Octet, octet: Octet): Octet {
    CrcTable(fcs ^ octet)
  }

  /** The register after the octets of `s`, one table lookup per octet. */
  function Fold(fcs: Octet, s: seq<Octet>): Octet
    decreases |s|
  {
    if s == [] then fcs else Fold(Feed(fcs, s[0]), s[1..])
  }

  function FrameFcs(s: seq<Octet>): Octet {
    0xFF - Fold(0xFF, s)
  }

  /** The receivers put the payload of a UI frame into the FCS behind `header`, the sender does not. */
  predicate Agrees(header: seq<Octet>, f: Frame) {
    FrameIs(TYPE_UI, f.control) ==> FrameFcs(header + f.data) == FrameFcs(header)
  }

  /** The octet a sender puts behind `input`. */
  method CalcCrc(input: seq<Octet>) returns (r: Octet)
    ensures r == FrameFcs(input)
  {
    hide Feed;
    var fcs: Octet := 0xFF;
    for i := 0 to |input|
      invariant Fold(0xFF, input) == Fold(fcs, input[i..])
    {
      fcs := Feed(fcs, input[i]);
    }
    r := 0xFF - fcs;
  }

  /** Carries the register on over a payload, as the receivers do for UI frames. */
  method ExtendCrc(fcs: Octet, payload: seq<Octet>) returns (r: Octet)
    ensures r == Fold(fcs, payload)
  {
    hide Feed;
    r := fcs;
    for i := 0 to |payload|
      invariant Fold(fcs, payload) == Fold(r, payload[i..])
    {
      r := Feed(r, payload[i]);
    }
  }

  /** A received word, check octet included, leaves the register at the good residue. */
  predicate Accepts(word: seq<Octet>) {
    Fold(0xFF, word) == 0xCF
  }

  // ----- The table is the bitwise register -----

  /** One shift of the reversed register of x^8 + x^2 + x + 1. */
  function ShiftRegister(r: Octet): Octet {
    if r & 1 == 1 then (r >> 1) ^ 0xE0 else r >> 1
  }

  function Shift8(r: Octet): Octet {
    ShiftRegister(ShiftRegister(ShiftRegister(ShiftRegister(
      ShiftRegister(ShiftRegister(ShiftRegister(ShiftRegister(r))))))))
  }

  function BitwiseRow(hi: Octet): seq<Octet> {
    [Shift8(hi), Shift8(hi | 1), Shift8(hi | 2), Shift8(hi | 3),
     Shift8(hi | 4), Shift8(hi | 5), Shift8(hi | 6), Shift8(hi | 7),
     Shift8(hi | 8), Shift8(hi | 9), Shift8(hi | 10), Shift8(hi | 11),
     Shift8(hi | 12), Shift8(hi | 13), Shift8(hi | 14), Shift8(hi | 15)]
  }

  function RowEntry(hi: Octet): Octet -> Octet {
    lo => Shift8(hi | lo)
  }

  function Tabulate(f: Octet -> Octet): seq<Octet> {
    [f(0), f(1), f(2), f(3), f(4), f(5), f(6), f(7), f(8), f(9), f(10), f(11), f(12), f(13), f(14), f(15)]
  }

  lemma BitwiseRowTabulates(hi: Octet)
    ensures BitwiseRow(hi) == Tabulate(RowEntry(hi))
  {
    assert hi | 0 == hi;
  }

  lemma TabulateAt(f: Octet -> Octet, lo: Octet)
    requires lo < 16
    ensures Tabulate(f)[lo as int] == f(lo)
  {
    match lo {
      case 0 => case 1 => case 2 => case 3 => case 4 => case 5 => case 6 => case 7 =>
      case 8 => case 9 => case 10 => case 11 => case 12 => case 13 => case 14 =>
      case _ => assert lo == 15;
    }
  }

  lemma TableRows0()
    ensures |R_CRCTABLE| == 16
    ensures R_CRCTABLE[0] == BitwiseRow(0x00) && R_CRCTABLE[1] == BitwiseRow(0x10)
  {}

  lemma TableRows1()
    ensures |R_CRCTABLE| == 16
    ensures R_CRCTABLE[2] == BitwiseRow(0x20) && R_CRCTABLE[3] == BitwiseRow(0x30)
  {}

  lemma TableRows2()
    ensures |R_CRCTABLE| == 16
    ensures R_CRCTABLE[4] == BitwiseRow(0x40) && R_CRCTABLE[5] == BitwiseRow(0x50)
  {}

  lemma TableRows3()
    ensures |R_CRCTABLE| == 16
    ensures R_CRCTABLE[6] == BitwiseRow(0x60) && R_CRCTABLE[7] == BitwiseRow(0x70)
  {}

  lemma TableRows4()
    ensures |R_CRCTABLE| == 16
    ensures R_CRCTABLE[8] == BitwiseRow(0x80) && R_CRCTABLE[9] == BitwiseRow(0x90)
  {}

  lemma TableRows5()
    ensures |R_CRCTABLE| == 16
    ensures R_CRCTABLE[10] == BitwiseRow(0xA0) && R_CRCTABLE[11] == BitwiseRow(0xB0)
  {}

  lemma TableRows6()
    ensures |R_CRCTABLE| == 16
    ensures R_CRCTABLE[12] == BitwiseRow(0xC0) && R_CRCTABLE[13] == BitwiseRow(0xD0)
  {}

  lemma TableRows7()
    ensures |R_CRCTABLE| == 16
    ensures R_CRCTABLE[14] == BitwiseRow(0xE0) && R_CRCTABLE[15] == BitwiseRow(0xF0)
  {}

  lemma TableRow(hi: Octet)
    requires hi < 16
    ensures |R_CRCTABLE| == 16 && R_CRCTABLE[hi as int] == BitwiseRow(hi << 4)
  {
    hide BitwiseRow, R_CRCTABLE;
    TableRows0();
    TableRows1();
    TableRows2();
    TableRows3();
    TableRows4();
    TableRows5();
    TableRows6();
    TableRows7();
    match hi {
      case 0 => case 1 => case 2 => case 3 => case 4 => case 5 => case 6 => case 7 =>
      case 8 => case 9 => case 10 => case 11 => case 12 => case 13 => case 14 =>
      case _ => assert hi == 15;
    }
  }

  lemma TableIsShift8(x: Octet)
    ensures CrcTable(x) == Shift8(x)
  {
    hide Shift8, BitwiseRow, R_CRCTABLE;
    var hi, lo := x >> 4, x & 15;
    TableShape();
    TableRow(hi);
    BitwiseRowTabulates(hi << 4);
    TabulateAt(RowEntry(hi << 4), lo);
    assert (hi << 4) | lo == x;
  }

  /** One shift of the register that takes in the lowest bit of `octet`. */
  function SerialShift(r: Octet, octet: Octet): Octet {
    if (r ^ octet) & 1 == 1 then (r >> 1) ^ 0xE0 else r >> 1
  }

  /** The register fed with the `n` low bits of `octet`, least significant bit first. */
  function SerialBits(r: Octet, octet: Octet, n: nat): Octet
    decreases n
  {
    if n == 0 then r else SerialBits(SerialShift(r, octet), octet >> 1, n - 1)
  }

  /** The register fed with a whole word, bit by bit: the definition in the standard. */
  function SerialFold(r: Octet, s: seq<Octet>): Octet
    decreases |s|
  {
    if s == [] then r else SerialFold(SerialBits(r, s[0], 8), s[1..])
  }

  function ShiftN(x: Octet, n: nat): Octet
    decreases n
  {
    if n == 0 then x else ShiftN(ShiftRegister(x), n - 1)
  }

  function DropBits(x: Octet, n: nat): Octet
    decreases n
  {
    if n == 0 then x else DropBits(x >> 1, n - 1)
  }

  function Xor(a: Octet, b: Octet): Octet {
    a ^ b
  }

  lemma SerialShiftMixes(r: Octet, octet: Octet)
    ensures Xor(SerialShift(r, octet), octet >> 1) == ShiftRegister(Xor(r, octet))
  {}

  lemma {:induction false} SerialBitsIsShift(r: Octet, octet: Octet, n: nat)
    ensures Xor(SerialBits(r, octet, n), DropBits(octet, n)) == ShiftN(Xor(r, octet), n)
    decreases n
  {
    hide Xor, ShiftRegister, SerialShift;
    if n > 0 {
      SerialShiftMixes(r, octet);
      SerialBitsIsShift(SerialShift(r, octet), octet >> 1, n - 1);
    }
  }

  lemma EightBitsDropped(x: Octet)
    ensures DropBits(x, 8) == 0
  {
    assert DropBits(x, 8) == DropBits(x >> 1 >> 1, 6) == DropBits(x >> 1 >> 1 >> 1 >> 1, 4);
    assert x >> 1 >> 1 >> 1 >> 1 == x >> 4;
    assert DropBits(x >> 4, 4) == DropBits(x >> 4 >> 1 >> 1, 2) == x >> 4 >> 1 >> 1 >> 1 >> 1;
  }

  lemma EightShifts(x: Octet)
    ensures ShiftN(x, 8) == Shift8(x)
  {
    hide ShiftRegister;
    var x2 := ShiftRegister(ShiftRegister(x));
    var x4 := ShiftRegister(ShiftRegister(x2));
    var x6 := ShiftRegister(ShiftRegister(x4));
    assert ShiftN(x, 8) == ShiftN(x2, 6) == ShiftN(x4, 4) == ShiftN(x6, 2);
  }

  lemma SerialOctet(r: Octet, octet: Octet)
    ensures SerialBits(r, octet, 8) == Feed(r, octet)
  {
    hide CrcTable, SerialBits, DropBits, ShiftN, Shift8;
    SerialBitsIsShift(r, octet, 8);
    EightBitsDropped(octet);
    EightShifts(r ^ octet);
    TableIsShift8(r ^ octet);
  }

  /** The table-driven register is the bit-serial one on words of every length. */
  lemma {:induction false} FoldIsSerial(r: Octet, s: seq<Octet>)
    ensures Fold(r, s) == SerialFold(r, s)
    decreases |s|
  {
    hide Feed, SerialBits;
    if s != [] {
      SerialOctet(r, s[0]);
      FoldIsSerial(Feed(r, s[0]), s[1..]);
    }
  }

  /** The check octet of section 5.2.1.6 of TS 27.010: preset to ones, bit by bit, and complemented. */
  function CheckOctet(word: seq<Octet>): Octet {
    SerialFold(0xFF, word) ^ 0xFF
  }

  lemma FrameFcsIsCheckOctet(word: seq<Octet>)
    ensures FrameFcs(word) == CheckOctet(word)
  {
    hide Fold, SerialFold;
    FoldIsSerial(0xFF, word);
    OnesComplement(Fold(0xFF, word));
  }

  lemma OnesComplement(x: Octet)
    ensures 0xFF - x == x ^ 0xFF
  {}

  // ----- The residue test -----

  lemma Shift8Injective(a: Octet, b: Octet)
    requires Shift8(a) == Shift8(b)
    ensures a == b
  {}

  lemma TableInjective(a: Octet, b: Octet)
    requires CrcTable(a) == CrcTable(b)
    ensures a == b
  {
    hide CrcTable;
    TableIsShift8(a);
    TableIsShift8(b);
    Shift8Injective(a, b);
  }

  lemma XorInjective(f: Octet, x: Octet, g: Octet, y: Octet)
    requires f ^ x == g ^ y
    ensures f == g <==> x == y
  {}

  lemma FeedInjective(f: Octet, x: Octet, g: Octet, y: Octet)
    requires Feed(f, x) == Feed(g, y)
    ensures f == g <==> x == y
  {
    hide CrcTable;
    TableInjective(f ^ x, g ^ y);
    XorInjective(f, x, g, y);
  }

  lemma {:induction false} FoldAppend(r: Octet, a: seq<Octet>, b: seq<Octet>)
    ensures Fold(r, a + b) == Fold(Fold(r, a), b)
    decreases |a|
  {
    hide Feed;
    if a == [] {
      assert a + b == b;
    } else {
      FoldAppend(Feed(r, a[0]), a[1..], b);
      assert (a + b)[1..] == a[1..] + b;
    }
  }

  lemma {:induction false} FoldInjective(f: Octet, g: Octet, s: seq<Octet>)
    requires Fold(f, s) == Fold(g, s)
    ensures f == g
    decreases |s|
  {
    hide Feed;
    if s != [] {
      FoldInjective(Feed(f, s[0]), Feed(g, s[0]), s[1..]);
      FeedInjective(f, s[0], g, s[0]);
    }
  }

  lemma FoldThrough(r: Octet, pre: seq<Octet>, z: Octet, post: seq<Octet>)
    ensures Fold(r, pre + [z] + post) == Fold(Feed(Fold(r, pre), z), post)
  {
    hide Feed;
    var f := Fold(r, pre);
    assert Fold(f, [z]) == Feed(f, z);
    hide Fold;
    FoldAppend(r, pre + [z], post);
    FoldAppend(r, pre, [z]);
  }

  /** The check octet a sender appends drives the register to the good residue. */
  lemma FeedComplement(f: Octet)
    ensures Feed(f, 0xFF - f) == 0xCF
  {
    TableIsShift8(0xFF);
    assert f ^ (0xFF - f) == 0xFF;
  }

  /** Behind a given header the residue test lets exactly one check octet through: the sender's. */
  lemma ResidueAcceptsOnlyFrameFcs(header: seq<Octet>, fcs: Octet)
    ensures Accepts(header + [fcs]) <==> fcs == FrameFcs(header)
  {
    hide Feed, Fold;
    var f := Fold(0xFF, header);
    FoldAppend(0xFF, header, [fcs]);
    FoldOne(f, fcs);
    FeedComplement(f);
    if Feed(f, fcs) == 0xCF {
      FeedInjective(f, fcs, f, 0xFF - f);
    }
  }

  lemma FoldOne(r: Octet, z: Octet)
    ensures Fold(r, [z]) == Feed(r, z)
  {
    hide Feed;
    assert [z][1..] == [];
  }

  lemma AcceptsByParts(a: seq<Octet>, b: seq<Octet>, last: Octet)
    ensures Accepts(a + b + [last]) <==> Feed(Fold(Fold(0xFF, a), b), last) == 0xCF
  {
    hide Feed, Fold;
    FoldAppend(0xFF, a + b, [last]);
    FoldAppend(0xFF, a, b);
    FoldOne(Fold(Fold(0xFF, a), b), last);
  }

  lemma FoldNothing(r: Octet)
    ensures Fold(r, []) == r
  {}

  lemma FoldTwo(r: Octet, x: Octet, y: Octet)
    ensures Fold(r, [x, y]) == Feed(Feed(r, x), y)
  {
    hide Feed;
    assert [x, y][1..] == [y];
    FoldOne(Feed(r, x), y);
  }

  // ----- Error detection, for words of any length -----

  /** A change confined to one octet never slips through. */
  lemma OneOctetErrorDetected(pre: seq<Octet>, x: Octet, y: Octet, post: seq<Octet>)
    requires Accepts(pre + [x] + post) && x != y
    ensures !Accepts(pre + [y] + post)
  {
    hide Feed, Fold;
    var f := Fold(0xFF, pre);
    FoldThrough(0xFF, pre, x, post);
    FoldThrough(0xFF, pre, y, post);
    if Accepts(pre + [y] + post) {
      FoldInjective(Feed(f, x), Feed(f, y), post);
      FeedInjective(f, x, f, y);
    }
  }

  predicate Has(x: Octet, mask: Octet) {
    x & mask != 0
  }

  function Ones(x: Octet): nat {
    (if Has(x, 0x01) then 1 else 0) + (if Has(x, 0x02) then 1 else 0)
    + (if Has(x, 0x04) then 1 else 0) + (if Has(x, 0x08) then 1 else 0)
    + (if Has(x, 0x10) then 1 else 0) + (if Has(x, 0x20) then 1 else 0)
    + (if Has(x, 0x40) then 1 else 0) + (if Has(x, 0x80) then 1 else 0)
  }

  /** The number of bit positions at which two words of one length differ. */
  function Flips(v: seq<Octet>, w: seq<Octet>): nat
    requires |v| == |w|
  {
    if v == [] then 0 else Ones(v[0] ^ w[0]) + Flips(v[1..], w[1..])
  }

  predicate Odd(x: Octet) {
    ((Has(x, 0x01) != Has(x, 0x02)) != (Has(x, 0x04) != Has(x, 0x08)))
    != ((Has(x, 0x10) != Has(x, 0x20)) != (Has(x, 0x40) != Has(x, 0x80)))
  }

  lemma OddCountsOnes(x: Octet)
    ensures Odd(x) <==> Ones(x) % 2 == 1
  {
    hide Has;
  }

  lemma HasXor(x: Octet, y: Octet, mask: Octet)
    requires mask & (mask - 1) == 0
    ensures Has(x ^ y, mask) <==> Has(x, mask) != Has(y, mask)
  {}

  lemma OddXor(x: Octet, y: Octet)
    ensures Odd(x ^ y) <==> Odd(x) != Odd(y)
  {
    hide Has;
    HasXor(x, y, 0x01);
    HasXor(x, y, 0x02);
    HasXor(x, y, 0x04);
    HasXor(x, y, 0x08);
    HasXor(x, y, 0x10);
    HasXor(x, y, 0x20);
    HasXor(x, y, 0x40);
    HasXor(x, y, 0x80);
  }

  lemma OddShift(x: Octet)
    ensures Odd(ShiftRegister(x)) <==> Odd(x)
  {}

  lemma OddTable(x: Octet)
    ensures Odd(CrcTable(x)) <==> Odd(x)
  {
    hide CrcTable, Odd, ShiftRegister;
    TableIsShift8(x);
    var x1 := ShiftRegister(x);
    var x2 := ShiftRegister(x1);
    var x3 := ShiftRegister(x2);
    var x4 := ShiftRegister(x3);
    var x5 := ShiftRegister(x4);
    var x6 := ShiftRegister(x5);
    OddShift(x);
    OddShift(x1);
    OddShift(x2);
    OddShift(x3);
    OddShift(x4);
    OddShift(x5);
    OddShift(x6);
    OddShift(ShiftRegister(x6));
  }

  lemma OddFeed(f: Octet, octet: Octet)
    ensures Odd(Feed(f, octet)) <==> Odd(f) != Odd(octet)
  {
    hide CrcTable, Odd;
    OddTable(f ^ octet);
    OddXor(f, octet);
  }

  /** The number of octets of `s` with an odd number of ones has this parity. */
  predicate OddWord(s: seq<Octet>) {
    s != [] && Odd(s[0]) != OddWord(s[1..])
  }

  /** x + 1 divides the generator, so each one bit of the word flips the register's parity. */
  lemma {:induction false} FoldParity(f: Octet, s: seq<Octet>)
    ensures Odd(Fold(f, s)) <==> Odd(f) != OddWord(s)
    decreases |s|
  {
    hide Feed, Odd;
    if s != [] {
      FoldParity(Feed(f, s[0]), s[1..]);
      OddFeed(f, s[0]);
    }
  }

  lemma AddParity(m: nat, n: nat)
    ensures (m + n) % 2 == 1 <==> (m % 2 == 1) != (n % 2 == 1)
  {}

  lemma {:induction false} FlipsParity(v: seq<Octet>, w: seq<Octet>)
    requires |v| == |w|
    ensures Flips(v, w) % 2 == 1 <==> OddWord(v) != OddWord(w)
    decreases |v|
  {
    hide Ones, Odd;
    if v != [] {
      FlipsParity(v[1..], w[1..]);
      AddParity(Ones(v[0] ^ w[0]), Flips(v[1..], w[1..]));
      OddCountsOnes(v[0] ^ w[0]);
      OddXor(v[0], w[0]);
    }
  }

  /** Flipping an odd number of bits never slips through. */
  lemma OddErrorDetected(v: seq<Octet>, w: seq<Octet>)
    requires |v| == |w| && Accepts(v) && Flips(v, w) % 2 == 1
    ensures !Accepts(w)
  {
    hide Fold, Odd, OddWord, Flips;
    FoldParity(0xFF, v);
    FoldParity(0xFF, w);
    FlipsParity(v, w);
  }
}

/** Byte stuffing of the advanced option (section 5.2.7 of TS 27.010). */
module Stuffing {
  import opened Octets

  /** Flag, escape, XON and XOFF, the last two with either parity bit. */
  const ESCAPED_SYMS: seq<Octet> := [ADV_FLAG, ADV_ESC, 0x11, 0x91, 0x13, 0x93]

  predicate Escaped(b: Octet) {
    b == ADV_FLAG || b == ADV_ESC || b == 0x11 || b == 0x91 || b == 0x13 || b == 0x93
  }

  function Complement(b: Octet): Octet {
    b ^ ADV_ESC_COMPL
  }

  function StuffOctet(b: Octet): seq<Octet> {
    if Escaped(b) then [ADV_ESC, Complement(b)] else [b]
  }

  function Stuff(s: seq<Octet>): seq<Octet> {
    if s == [] then [] else StuffOctet(s[0]) + Stuff(s[1..])
  }

  /** What the receiver makes of the octets between two flags; `esc` tells whether an escape is pending. */
  function Unescape(s: seq<Octet>, esc: bool): seq<Octet> {
    if s == [] then []
    else if esc then [Complement(s[0])] + Unescape(s[1..], false)
    else if s[0] == ADV_ESC then Unescape(s[1..], true)
    else [s[0]] + Unescape(s[1..], false)
  }

  function EscapedCount(s: seq<Octet>): nat {
    if s == [] then 0 else (if Escaped(s[0]) then 1 else 0) + EscapedCount(s[1..])
  }

  lemma EscapedIsMember(b: Octet)
    ensures Escaped(b) <==> b in ESCAPED_SYMS
  {
    assert ESCAPED_SYMS[0] == ADV_FLAG && ESCAPED_SYMS[1] == ADV_ESC && ESCAPED_SYMS[2] == 0x11;
    assert ESCAPED_SYMS[3] == 0x91 && ESCAPED_SYMS[4] == 0x13 && ESCAPED_SYMS[5] == 0x93;
  }

  lemma ComplementFacts(b: Octet)
    ensures Complement(Complement(b)) == b
    ensures Escaped(b) ==> !Escaped(Complement(b))
  {}

  /** The six octets that are escaped, and what stands for them. */
  lemma StuffedOctets(b: Octet)
    ensures StuffOctet(b)
            == if b == 0x7E then [0x7D, 0x5E] else if b == 0x7D then [0x7D, 0x5D]
               else if b == 0x11 then [0x7D, 0x31] else if b == 0x91 then [0x7D, 0xB1]
               else if b == 0x13 then [0x7D, 0x33] else if b == 0x93 then [0x7D, 0xB3] else [b]
  {}

  /** Stuffing piece by piece, as the sender does, is stuffing the whole. */
  lemma {:induction false} StuffAppend(a: seq<Octet>, b: seq<Octet>)
    ensures Stuff(a + b) == Stuff(a) + Stuff(b)
  {
    hide StuffOctet;
    if a == [] {
      assert a + b == b;
    } else {
      StuffAppend(a[1..], b);
      assert (a + b)[1..] == a[1..] + b;
      var x, y, z := StuffOctet(a[0]), Stuff(a[1..]), Stuff(b);
      assert x + (y + z) == (x + y) + z;
    }
  }

  lemma StuffOne(b: Octet)
    ensures Stuff([b]) == StuffOctet(b)
  {
    hide StuffOctet;
    assert [b][1..] == [];
    assert StuffOctet(b) + [] == StuffOctet(b);
  }

  /** The receiver's unescaping undoes the sender's stuffing, whatever follows. */
  lemma {:induction false} UnescapeStuff(s: seq<Octet>, rest: seq<Octet>)
    ensures Unescape(Stuff(s) + rest, false) == s + Unescape(rest, false)
    decreases |s|
  {
    if s == [] {
      assert Stuff(s) + rest == rest;
    } else {
      var b, wire := s[0], Stuff(s[1..]) + rest;
      UnescapeStuff(s[1..], rest);
      ComplementFacts(b);
      assert Stuff(s) + rest == StuffOctet(b) + wire;
      assert s + Unescape(rest, false) == [b] + (s[1..] + Unescape(rest, false));
      UnescapeOctet(b, wire);
    }
  }

  lemma UnescapeOctet(b: Octet, wire: seq<Octet>)
    ensures Unescape(StuffOctet(b) + wire, false) == [b] + Unescape(wire, false)
  {
    ComplementFacts(b);
    var s := StuffOctet(b) + wire;
    hide Complement;
    if Escaped(b) {
      assert s[1..][1..] == wire;
    } else {
      assert s[1..] == wire;
    }
  }

  lemma StuffInjective(a: seq<Octet>, b: seq<Octet>)
    requires Stuff(a) == Stuff(b)
    ensures a == b
  {
    UnescapeStuff(a, []);
    UnescapeStuff(b, []);
    assert Stuff(a) + [] == Stuff(b) + [];
    assert a + Unescape([], false) == a && b + Unescape([], false) == b;
  }

  /** Neither a flag nor a flow-control character appears between the flags, and no escape is left open. */
  lemma {:induction false} StuffIsClean(s: seq<Octet>)
    ensures forall i :: 0 <= i < |Stuff(s)| ==> Escaped(Stuff(s)[i]) ==> Stuff(s)[i] == ADV_ESC
    ensures s != [] ==> Stuff(s) != [] && Stuff(s)[|Stuff(s)| - 1] != ADV_ESC
  {
    if s != [] {
      StuffIsClean(s[1..]);
      ComplementFacts(s[0]);
    }
  }

  lemma {:induction false} StuffLength(s: seq<Octet>)
    ensures |Stuff(s)| == |s| + EscapedCount(s) && EscapedCount(s) <= |s|
  {
    if s != [] {
      StuffLength(s[1..]);
    }
  }

  /** One octet of the copy: written as it is, then over-written if the scan of the symbols finds it. */
  method PutOctet(advBuf: array<Octet>, at: nat, b: Octet) returns (n: nat)
    requires at + |StuffOctet(b)| <= advBuf.Length
    modifies advBuf
    ensures n == |StuffOctet(b)|
    ensures advBuf[..at + n] == old(advBuf[..at]) + StuffOctet(b)
    ensures advBuf[at + n..] == old(advBuf[at + n..])
  {
    EscapedIsMember(b);
    advBuf[at] := b;
    n := 1;
    for k := 0 to |ESCAPED_SYMS|
      invariant b !in ESCAPED_SYMS[..k]
      invariant n == 1 && advBuf[at] == b
      invariant advBuf[..at] == old(advBuf[..at]) && advBuf[at + 1..] == old(advBuf[at + 1..])
    {
      if b == ESCAPED_SYMS[k] {
        advBuf[at] := ADV_ESC;
        advBuf[at + 1] := b ^ ADV_ESC_COMPL;
        n := 2;
        break;
      }
    }
  }

  /** The buffer `was` with the stuffed form of `data` written from `offs` on. */
  predicate Filled(was: seq<Octet>, now: seq<Octet>, offs: nat, data: seq<Octet>, advI: nat) {
    && advI == |Stuff(data)| && offs + advI <= |now| == |was|
    && now[..offs + advI] == was[..offs] + Stuff(data) && now[offs + advI..] == was[offs + advI..]
  }

  lemma NothingFilled(was: seq<Octet>, offs: nat)
    requires offs <= |was|
    ensures Filled(was, was, offs, [], 0)
  {}

  lemma FilledMore(was: seq<Octet>, now: seq<Octet>, next: seq<Octet>, offs: nat, data: seq<Octet>, i: nat, advI: nat)
    requires i < |data| && Filled(was, now, offs, data[..i], advI)
    requires var end := offs + advI + |StuffOctet(data[i])|;
      && end <= |next| == |now| && next[end..] == now[end..]
      && next[..end] == now[..offs + advI] + StuffOctet(data[i])
    ensures Filled(was, next, offs, data[..i + 1], advI + |StuffOctet(data[i])|)
  {
    StuffPrefix(data, i);
    hide Stuff, StuffOctet;
    SameBehind(now, was, offs + advI, offs + advI + |StuffOctet(data[i])|);
  }

  lemma SameBehind(s: seq<Octet>, t: seq<Octet>, i: nat, j: nat)
    requires i <= j <= |s| == |t| && s[i..] == t[i..]
    ensures s[j..] == t[j..]
  {
    assert s[j..] == s[i..][j - i..] && t[j..] == t[i..][j - i..];
  }

  /** Writes the stuffed form of `data` into `advBuf` from `offs` on; the result is its length. */
  method FillAdvFrameBuf(advBuf: array<Octet>, offs: nat, data: seq<Octet>) returns (advI: nat)
    requires offs + |Stuff(data)| <= advBuf.Length
    modifies advBuf
    ensures advI == |Stuff(data)|
    ensures advBuf[..offs + advI] == old(advBuf[..offs]) + Stuff(data)
    ensures advBuf[offs + advI..] == old(advBuf[offs + advI..])
  {
    hide Stuff, StuffOctet, Filled;
    advI := 0;
    ghost var was := advBuf[..];
    NothingFilled(was, offs);
    assert data[..0] == [];
    for i := 0 to |data|
      invariant Filled(was, advBuf[..], offs, data[..i], advI)
    {
      ghost var now := advBuf[..];
      FillFits(was, now, offs, data, i, advI);
      var n := PutOctet(advBuf, offs + advI, data[i]);
      FilledMore(was, now, advBuf[..], offs, data, i, advI);
      advI := advI + n;
    }
    assert data[..|data|] == data;
    FilledIs(was, advBuf[..], offs, data, advI);
  }

  lemma FillFits(was: seq<Octet>, now: seq<Octet>, offs: nat, data: seq<Octet>, i: nat, advI: nat)
    requires i < |data| && Filled(was, now, offs, data[..i], advI)
    ensures advI + |StuffOctet(data[i])| <= |Stuff(data)| && offs + advI <= |now|
  {
    StuffPrefix(data, i);
  }

  lemma FilledIs(was: seq<Octet>, now: seq<Octet>, offs: nat, data: seq<Octet>, advI: nat)
    requires Filled(was, now, offs, data, advI)
    ensures advI == |Stuff(data)| && offs + advI <= |now| == |was|
    ensures now[..offs + advI] == was[..offs] + Stuff(data) && now[offs + advI..] == was[offs + advI..]
  {}

  lemma StuffPrefix(data: seq<Octet>, i: nat)
    requires i < |data|
    ensures Stuff(data[..i + 1]) == Stuff(data[..i]) + StuffOctet(data[i])
    ensures |Stuff(data[..i + 1])| <= |Stuff(data)|
  {
    StuffAppend(data[..i], [data[i]]);
    StuffOne(data[i]);
    assert data[..i] + [data[i]] == data[..i + 1];
    StuffAppend(data[..i + 1], data[i + 1..]);
    assert data[..i + 1] + data[i + 1..] == data;
  }
}

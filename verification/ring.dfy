/** The wrapping reassembly buffer between the serial reader and the frame assembler. */
module Ring {
  import opened Octets

  /** The position `k` places round the ring from `p`. */
  function Pos(p: nat, k: nat): nat {
    if p + k >= BUFFER_SIZE then p + k - BUFFER_SIZE else p + k
  }

  /** The `n` octets that follow position `readp` round the ring. */
  function Window(d: seq<Octet>, readp: nat, n: nat): (w: seq<Octet>)
    requires |d| == BUFFER_SIZE && readp < BUFFER_SIZE && n <= BUFFER_SIZE
    ensures |w| == n
  {
    seq(n, i requires 0 <= i < n => d[Pos(readp, i)])
  }

  /** Reading `k` octets leaves the window that starts `k` further on. */
  lemma WindowDrop(d: seq<Octet>, readp: nat, n: nat, k: nat)
    requires |d| == BUFFER_SIZE && readp < BUFFER_SIZE && k <= n <= BUFFER_SIZE
    requires Pos(readp, k) < BUFFER_SIZE
    ensures Window(d, readp, n)[k..] == Window(d, Pos(readp, k), n - k)
  {
    forall i | 0 <= i < n - k
      ensures Window(d, readp, n)[k..][i] == Window(d, Pos(readp, k), n - k)[i]
    {
      assert Pos(readp, k + i) == Pos(Pos(readp, k), i);
    }
  }

  /** Storing `s` behind the window extends it by `s` and disturbs none of it. */
  lemma WindowExtend(d: seq<Octet>, d': seq<Octet>, readp: nat, n: nat, s: seq<Octet>)
    requires |d| == |d'| == BUFFER_SIZE && readp < BUFFER_SIZE && n + |s| <= BUFFER_SIZE
    requires forall j :: 0 <= j < |s| ==> d'[Pos(Pos(readp, n), j)] == s[j]
    requires forall i :: 0 <= i < n ==> d'[Pos(readp, i)] == d[Pos(readp, i)]
    ensures Window(d', readp, n + |s|) == Window(d, readp, n) + s
  {
    var w, v := Window(d', readp, n + |s|), Window(d, readp, n) + s;
    forall i | 0 <= i < n + |s|
      ensures w[i] == v[i]
    {
      if i >= n {
        assert Pos(readp, i) == Pos(Pos(readp, n), i - n);
      }
    }
  }

  class Gsm0710Buffer {
    const data: array<Octet>
    var readp: nat
    var writep: nat
    var datacount: nat
    var flagFound: bool
    var receivedCount: nat
    var droppedCount: nat
    const advData: array<Octet>
    var advLength: nat
    var advFoundEsc: bool

    ghost predicate Valid()
      reads this, data, advData
    {
      && data.Length == BUFFER_SIZE && advData.Length == BUFFER_SIZE && data != advData
      && readp < BUFFER_SIZE && datacount <= BUFFER_SIZE
      && writep == Pos(readp, datacount)
      && advLength <= BUFFER_SIZE
    }

    /** The octets written and not yet consumed, oldest first. */
    ghost function Contents(): seq<Octet>
      requires Valid()
      reads this, data, advData
    {
      Window(data[..], readp, datacount)
    }

    constructor ()
      ensures Valid() && fresh(data) && fresh(advData)
      ensures Contents() == [] && !flagFound && receivedCount == droppedCount == 0
    {
      data := new Octet[BUFFER_SIZE](_ => 0);
      advData := new Octet[BUFFER_SIZE](_ => 0);
      readp, writep, datacount := 0, 0, 0;
      flagFound, advFoundEsc, advLength := false, false, 0;
      receivedCount, droppedCount := 0, 0;
    }

    /** Moves past one octet. */
    method BufferInc()
      requires Valid() && datacount > 0
      modifies this`readp, this`datacount
      ensures Valid() && Contents() == old(Contents())[1..] && datacount == old(datacount) - 1
    {
      WindowDrop(data[..], readp, datacount, 1);
      readp, datacount := readp + 1, datacount - 1;
      if readp == BUFFER_SIZE {
        readp := 0;
      }
    }

    method CopyIn(at: nat, s: seq<Octet>)
      requires at + |s| <= data.Length
      modifies data
      ensures forall j :: 0 <= j < |s| ==> data[at + j] == s[j]
      ensures forall i :: 0 <= i < at || at + |s| <= i < data.Length ==> data[i] == old(data[i])
    {
      forall j | 0 <= j < |s| {
        data[at + j] := s[j];
      }
    }

    /** Stores octets behind the unread ones, in one part or two. */
    method Store(s: seq<Octet>)
      requires Valid() && |s| <= BUFFER_SIZE - datacount
      modifies this`writep, data
      ensures writep == Pos(old(writep), |s|)
      ensures forall j :: 0 <= j < |s| ==> data[Pos(old(writep), j)] == s[j]
      ensures forall i :: 0 <= i < datacount ==> data[Pos(readp, i)] == old(data[Pos(readp, i)])
    {
      var c := BUFFER_SIZE - writep;
      if |s| > c {
        CopyIn(writep, s[..c]);
        CopyIn(0, s[c..]);
        writep := |s| - c;
      } else {
        CopyIn(writep, s);
        writep := writep + |s|;
        if writep == BUFFER_SIZE {
          writep := 0;
        }
      }
    }

    /** Stores as much of `input` as there is room for; the result says how much that was. */
    method Write(input: seq<Octet>) returns (length: nat)
      requires Valid()
      modifies this`writep, this`datacount, data
      ensures Valid()
      ensures length == if |input| <= BUFFER_SIZE - old(datacount) then |input| else BUFFER_SIZE - old(datacount)
      ensures Contents() == old(Contents()) + input[..length]
      ensures datacount == old(datacount) + length
      ensures advData[..] == old(advData[..])
    {
      length := if |input| < BUFFER_SIZE - datacount then |input| else BUFFER_SIZE - datacount;
      ghost var before := data[..];
      Store(input[..length]);
      WindowExtend(before, data[..], readp, datacount, input[..length]);
      datacount := datacount + length;
      hide Window;
    }
  }
}

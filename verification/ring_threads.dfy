/**
 The ring under its two threads, one memory access at a time. The reader looks at the free space, reads
 from the device, copies octet by octet and then publishes the new count; the assembler takes a copy of the
 count, reads octet by octet and later consumes some of what it read. Nothing but the count is shared under a
 lock, so every interleaving of these steps is possible.
 */
module RingThreads {
  import opened Octets
  import opened Ring

  datatype Reader =
    | Idle
    | SawRoom(free: nat)
    | Fetched(bytes: seq<Octet>)
    | Copying(bytes: seq<Octet>, length: nat, copied: nat)
    | Stored(length: nat, bytes: seq<Octet>)

  datatype Assembler =
    | Waiting
    | Looking(count: nat, seen: seq<Octet>)

  /** `fetched`, `put` and `taken` record what was read from the device, published and consumed so far. */
  datatype State = State(
    data: seq<Octet>, readp: nat, writep: nat, datacount: nat,
    reader: Reader, assembler: Assembler,
    fetched: seq<Octet>, put: seq<Octet>, taken: seq<Octet>)

  datatype Action =
    | LookForRoom | Fetch(bytes: seq<Octet>) | BeginCopy | CopyOctet | MoveWritep | Publish
    | TakeCount | ReadOctet | Consume(k: nat)

  ghost predicate Init(s: State) {
    && |s.data| == BUFFER_SIZE && s.readp == s.writep == s.datacount == 0
    && s.reader == Idle && s.assembler == Waiting
    && s.fetched == [] && s.put == [] && s.taken == []
  }

  /** A step of one thread that the other cannot prevent; the bounds on `Fetch` and `Consume` are the callers' own. */
  predicate Enabled(s: State, a: Action) {
    match a
    case LookForRoom => s.reader.Idle? && s.datacount < BUFFER_SIZE
    case Fetch(bytes) => s.reader.SawRoom? && |bytes| <= s.reader.free
    case BeginCopy => s.reader.Fetched?
    case CopyOctet => s.reader.Copying? && s.reader.copied < s.reader.length
    case MoveWritep => s.reader.Copying? && s.reader.copied == s.reader.length
    case Publish => s.reader.Stored?
    case TakeCount => s.assembler.Waiting?
    case ReadOctet => s.assembler.Looking? && |s.assembler.seen| < s.assembler.count
    case Consume(k) => s.assembler.Looking? && k <= |s.assembler.seen|
  }

  /** What the memory access does, were it safe or not: positions outside the buffer leave the data alone. */
  function Apply(s: State, a: Action): State
    requires Enabled(s, a)
  {
    match a
    case LookForRoom => s.(reader := SawRoom(BUFFER_SIZE - s.datacount))
    case Fetch(bytes) => s.(reader := Fetched(bytes), fetched := s.fetched + bytes)
    case BeginCopy =>
      var free := BUFFER_SIZE - s.datacount;
      var bytes := s.reader.bytes;
      s.(reader := Copying(bytes, if |bytes| <= free then |bytes| else if free < 0 then 0 else free, 0))
    case CopyOctet =>
      var r, p := s.reader, Pos(s.writep, s.reader.copied);
      s.(data := if p < |s.data| && r.copied < |r.bytes| then s.data[p := r.bytes[r.copied]] else s.data,
         reader := r.(copied := r.copied + 1))
    case MoveWritep =>
      s.(writep := Pos(s.writep, s.reader.length), reader := Stored(s.reader.length, s.reader.bytes))
    case Publish =>
      var r := s.reader;
      s.(datacount := s.datacount + r.length, reader := Idle,
         put := s.put + if r.length <= |r.bytes| then r.bytes[..r.length] else r.bytes)
    case TakeCount => s.(assembler := Looking(s.datacount, []))
    case ReadOctet =>
      var p := Pos(s.readp, |s.assembler.seen|);
      s.(assembler := s.assembler.(seen := s.assembler.seen + if p < |s.data| then [s.data[p]] else []))
    case Consume(k) =>
      s.(readp := Pos(s.readp, k), datacount := if k <= s.datacount then s.datacount - k else 0,
         assembler := Waiting, taken := s.taken + s.assembler.seen[..k])
  }

  predicate InBounds(s: State) {
    |s.data| == BUFFER_SIZE && s.readp < BUFFER_SIZE && s.datacount <= BUFFER_SIZE
  }

  /** The unread octets. */
  function Unread(s: State): seq<Octet>
    requires InBounds(s)
  {
    Window(s.data, s.readp, s.datacount)
  }

  /** The octets on their way from the device to the published part of the ring. */
  function InFlight(r: Reader): seq<Octet> {
    if r.Fetched? || r.Copying? || r.Stored? then r.bytes else []
  }

  predicate ReaderOk(s: State)
    requires InBounds(s)
  {
    var free, start := BUFFER_SIZE - s.datacount, Pos(s.readp, s.datacount);
    match s.reader
    case Idle => s.writep == start
    case SawRoom(room) => s.writep == start && room <= free
    case Fetched(bytes) => s.writep == start && |bytes| <= free
    case Copying(bytes, length, copied) =>
      && s.writep == start && length == |bytes| <= free && copied <= length
      && forall j :: 0 <= j < copied ==> s.data[Pos(start, j)] == bytes[j]
    case Stored(length, bytes) =>
      && s.writep == Pos(start, length) && length == |bytes| <= free
      && forall j :: 0 <= j < length ==> s.data[Pos(start, j)] == bytes[j]
  }

  predicate AssemblerOk(s: State)
    requires InBounds(s)
  {
    s.assembler.Looking? ==>
      && |s.assembler.seen| <= s.assembler.count <= s.datacount
      && s.assembler.seen == Unread(s)[..|s.assembler.seen|]
  }

  predicate Inv(s: State) {
    && InBounds(s) && ReaderOk(s) && AssemblerOk(s)
    && s.put == s.taken + Unread(s)
    && s.fetched == s.put + InFlight(s.reader)
  }

  lemma InitInv(s: State)
    requires Init(s)
    ensures Inv(s)
  {}

  /** The position of an octet being stored is none of the unread ones. */
  lemma Apart(readp: nat, n: nat, i: nat, j: nat)
    requires readp < BUFFER_SIZE && i < n && n + j < BUFFER_SIZE
    ensures Pos(Pos(readp, n), j) != Pos(readp, i)
  {}

  lemma CopyKeeps(s: State)
    requires Inv(s) && Enabled(s, CopyOctet)
    ensures Inv(Apply(s, CopyOctet))
  {
    var s', r, start := Apply(s, CopyOctet), s.reader, Pos(s.readp, s.datacount);
    var p := Pos(start, r.copied);
    assert p < BUFFER_SIZE;
    assert Unread(s') == Unread(s) by {
      forall i | 0 <= i < s.datacount
        ensures Unread(s')[i] == Unread(s)[i]
      {
        Apart(s.readp, s.datacount, i, r.copied);
      }
    }
    forall j | 0 <= j < r.copied + 1
      ensures s'.data[Pos(start, j)] == r.bytes[j]
    {}
  }

  lemma PublishUnread(s: State)
    requires InBounds(s) && ReaderOk(s) && Enabled(s, Publish)
    ensures var s', r := Apply(s, Publish), s.reader;
      && InBounds(s') && r.length == |r.bytes| && Unread(s') == Unread(s) + r.bytes && |Unread(s)| == s.datacount
  {
    WindowExtend(s.data, s.data, s.readp, s.datacount, s.reader.bytes);
  }

  lemma PositionsAdd(readp: nat, n: nat, k: nat)
    requires readp < BUFFER_SIZE && n + k <= BUFFER_SIZE
    ensures Pos(Pos(readp, n), k) == Pos(readp, n + k)
  {}

  lemma PublishKeeps(s: State)
    requires Inv(s) && Enabled(s, Publish)
    ensures Inv(Apply(s, Publish))
  {
    PublishUnread(s);
    var s', r := Apply(s, Publish), s.reader;
    PositionsAdd(s.readp, s.datacount, r.length);
    hide Unread, Window, Pos;
    assert r.bytes[..r.length] == r.bytes;
    JoinThree(s.taken, Unread(s), r.bytes);
    assert s.put + r.bytes + [] == s.put + r.bytes;
    if s.assembler.Looking? {
      var n := |s.assembler.seen|;
      assert (Unread(s) + r.bytes)[..n] == Unread(s)[..n];
    }
    hide Apply;
    assert Inv(s');
  }

  lemma ConsumeUnread(s: State, k: nat)
    requires InBounds(s) && AssemblerOk(s) && Enabled(s, Consume(k))
    ensures var s' := Apply(s, Consume(k));
      && InBounds(s') && |Unread(s)| == s.datacount && k <= s.datacount
      && Unread(s') == Unread(s)[k..] && s.assembler.seen[..k] == Unread(s)[..k]
  {
    WindowDrop(s.data, s.readp, s.datacount, k);
  }

  lemma ConsumeKeeps(s: State, k: nat)
    requires Inv(s) && Enabled(s, Consume(k))
    ensures Inv(Apply(s, Consume(k)))
  {
    ConsumeUnread(s, k);
    PositionsAdd(s.readp, k, s.datacount - k);
    hide Unread, Window, Pos;
    var s', u := Apply(s, Consume(k)), Unread(s);
    assert u == u[..k] + u[k..];
    JoinThree(s.taken, u[..k], u[k..]);
    assert s'.put == s'.taken + Unread(s');
    hide Apply;
    assert Inv(s');
  }

  lemma ReadKeeps(s: State)
    requires Inv(s) && Enabled(s, ReadOctet)
    ensures Inv(Apply(s, ReadOctet))
  {
    var n := |s.assembler.seen|;
    assert s.data[Pos(s.readp, n)] == Unread(s)[n];
    assert Unread(s)[..n + 1] == Unread(s)[..n] + [Unread(s)[n]];
  }

  lemma OthersKeep(s: State, a: Action)
    requires Inv(s) && Enabled(s, a) && !a.CopyOctet? && !a.Publish? && !a.Consume? && !a.ReadOctet?
    ensures Inv(Apply(s, a))
  {
    if a.Fetch? {
      assert s.put + [] == s.put;
    }
    hide Window;
  }

  /** Every step of either thread keeps the ring a queue. */
  lemma StepKeeps(s: State, a: Action)
    requires Inv(s) && Enabled(s, a)
    ensures Inv(Apply(s, a))
  {
    hide Inv, Apply, Enabled;
    match a {
      case CopyOctet => CopyKeeps(s);
      case Publish => PublishKeeps(s);
      case Consume(k) => ConsumeKeeps(s, k);
      case ReadOctet => ReadKeeps(s);
      case _ => OthersKeep(s, a);
    }
  }

  /** `trace` is a possible interleaving from `s`. */
  predicate Possible(s: State, trace: seq<Action>)
    decreases |trace|
  {
    trace == [] || (Enabled(s, trace[0]) && Possible(Apply(s, trace[0]), trace[1..]))
  }

  function Run(s: State, trace: seq<Action>): State
    requires Possible(s, trace)
    decreases |trace|
  {
    if trace == [] then s else Run(Apply(s, trace[0]), trace[1..])
  }

  lemma {:induction false} RunKeeps(s: State, trace: seq<Action>)
    requires Inv(s) && Possible(s, trace)
    ensures Inv(Run(s, trace))
    decreases |trace|
  {
    hide Inv, Apply, Enabled;
    if trace != [] {
      StepKeeps(s, trace[0]);
      RunKeeps(Apply(s, trace[0]), trace[1..]);
    }
  }

  /**
   In every interleaving: what was consumed and what is unread is, in order, what was published; what was
   fetched is that and what is in flight, so no octet is lost; what the assembler has read are the oldest
   unread octets; and between updates the write pointer stands `datacount` behind the read pointer.
   */
  lemma RingIsQueue(s: State, trace: seq<Action>)
    requires Init(s) && Possible(s, trace)
    ensures var e := Run(s, trace);
      && InBounds(e)
      && e.fetched == e.taken + Unread(e) + InFlight(e.reader)
      && (e.assembler.Looking? ==>
            |e.assembler.seen| <= e.datacount && e.assembler.seen == Unread(e)[..|e.assembler.seen|])
      && (!e.reader.Stored? ==> e.writep == (e.readp + e.datacount) % 2048)
  {
    InitInv(s);
    RunKeeps(s, trace);
  }

  /** What the device gave, read after read. */
  function Fetches(trace: seq<Action>): seq<seq<Octet>> {
    if trace == [] then [] else (if trace[0].Fetch? then [trace[0].bytes] else []) + Fetches(trace[1..])
  }

  lemma StepFetches(s: State, a: Action)
    requires Enabled(s, a)
    ensures Apply(s, a).fetched == s.fetched + if a.Fetch? then a.bytes else []
  {}

  lemma {:induction false} FetchesJoinUp(s: State, trace: seq<Action>)
    requires Possible(s, trace)
    ensures Run(s, trace).fetched == s.fetched + Concat(Fetches(trace))
    decreases |trace|
  {
    hide Apply, Enabled;
    if trace != [] {
      StepFetches(s, trace[0]);
      FetchesJoinUp(Apply(s, trace[0]), trace[1..]);
      var first := if trace[0].Fetch? then [trace[0].bytes] else [];
      ConcatAppend(first, Fetches(trace[1..]));
      ConcatOfOne(trace[0]);
      JoinThree(s.fetched, Concat(first), Concat(Fetches(trace[1..])));
    }
  }

  lemma ConcatOfOne(a: Action)
    ensures Concat(if a.Fetch? then [a.bytes] else []) == if a.Fetch? then a.bytes else []
  {
    if a.Fetch? {
      assert [a.bytes][1..] == [];
    }
  }

  /** In every interleaving: all the device gave has been taken, is unread, or is still with the reader, in order. */
  lemma NothingIsLost(s: State, trace: seq<Action>)
    requires Init(s) && Possible(s, trace)
    ensures var e := Run(s, trace);
      InBounds(e) && Concat(Fetches(trace)) == e.taken + Unread(e) + InFlight(e.reader)
  {
    hide Unread, InFlight, Concat, Fetches, Inv;
    RingIsQueue(s, trace);
    FetchesJoinUp(s, trace);
  }

  /** A reader that fetched no more than the room it saw stores every octet, however much is consumed meanwhile. */
  lemma NothingIsCutOff(s: State, trace: seq<Action>)
    requires Init(s) && Possible(s, trace) && Enabled(Run(s, trace), BeginCopy)
    ensures var e := Run(s, trace);
      Apply(e, BeginCopy).reader == Copying(e.reader.bytes, |e.reader.bytes|, 0)
  {
    InitInv(s);
    RunKeeps(s, trace);
  }
}

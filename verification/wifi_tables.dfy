/** The event handler table and the command table of the WiFi HAL. */
module WifiTables {
  import opened Octets
  import L = WifiLifetime

  /** The vendor command of nl80211; its number is fixed by the kernel header. */
  const NL80211_CMD_VENDOR := 103

  datatype Callback = Callback(nlCmd: int, vendorId: int, subcmd: int, func: int, arg: nat)
  datatype Event = Event(cmd: int, vendorId: int, subcmd: int)
  datatype WifiError = Success | OutOfMemory

  predicate Handles(cb: Callback, e: Event) {
    cb.nlCmd == e.cmd && (e.cmd == NL80211_CMD_VENDOR ==> cb.vendorId == e.vendorId && cb.subcmd == e.subcmd)
  }

  /** The first callback for the event, or the length. */
  function FirstFor(h: seq<Callback>, e: Event): (k: nat)
    ensures k <= |h| && (forall i :: 0 <= i < k ==> !Handles(h[i], e)) && (k < |h| ==> Handles(h[k], e))
  {
    if h == [] || Handles(h[0], e) then 0 else FirstFor(h[1..], e) + 1
  }

  function Found(h: seq<Callback>, e: Event): Option<Callback> {
    var k := FirstFor(h, e);
    if k < |h| then Some(h[k]) else None
  }

  function Without(h: seq<Callback>, e: Event): seq<Callback> {
    var k := FirstFor(h, e);
    if k < |h| then h[..k] + h[k + 1..] else h
  }

  function RemoveCmd(t: seq<L.Entry>, id: int): seq<L.Entry> {
    var k := L.FindEntry(t, id);
    if k < |t| then L.RemoveEntry(t, k) else t
  }

  // ----- What registration and removal mean for events -----

  lemma FirstForUnique(h: seq<Callback>, e: Event, k: nat)
    requires k <= |h| && (forall i :: 0 <= i < k ==> !Handles(h[i], e)) && (k < |h| ==> Handles(h[k], e))
    ensures FirstFor(h, e) == k
  {}

  /** The earlier registration wins. */
  lemma EarlierWins(h: seq<Callback>, cb: Callback, e: Event)
    ensures Found(h, e).Some? ==> Found(h + [cb], e) == Found(h, e)
    ensures Found(h, e).None? ==> Found(h + [cb], e) == if Handles(cb, e) then Some(cb) else None
  {
    var k, two := FirstFor(h, e), h + [cb];
    FirstForUnique(two, e, if k < |h| || Handles(cb, e) then k else |two|);
  }

  /** Removing a callback of one event changes nothing for any other. */
  lemma OtherEventsUndisturbed(h: seq<Callback>, e: Event, f: Event)
    requires e.cmd != f.cmd || (e.cmd == NL80211_CMD_VENDOR && (e.vendorId != f.vendorId || e.subcmd != f.subcmd))
    ensures Found(Without(h, e), f) == Found(h, f)
  {
    var k, m, left := FirstFor(h, e), FirstFor(h, f), Without(h, e);
    if k < |h| {
      assert forall i :: 0 <= i < |left| ==> left[i] == h[if i < k then i else i + 1];
      FirstForUnique(left, f, if m < k then m else m - 1);
    }
  }

  /** Registering and unregistering restores the table exactly when the event had no callback before. */
  lemma UnregisterUndoesIff(h: seq<Callback>, cb: Callback, e: Event)
    requires Handles(cb, e) && cb !in h
    ensures Without(h + [cb], e) == h <==> Found(h, e).None?
    ensures Found(h, e).Some? ==> cb in Without(h + [cb], e)
  {
    var k, two := FirstFor(h, e), h + [cb];
    FirstForUnique(two, e, k);
    var left := Without(two, e);
    if k == |h| {
      assert left == h;
    } else {
      assert left[|h| - 1] == cb;
    }
  }

  // ----- The tables of the lifetime model are these -----

  function Abstract(h: seq<Callback>): (a: seq<L.Handler>)
    ensures |a| == |h|
    ensures forall i :: 0 <= i < |h| ==> a[i] == L.Handler(L.Key(h[i].vendorId, h[i].subcmd), h[i].arg)
  {
    seq(|h|, i requires 0 <= i < |h| => L.Handler(L.Key(h[i].vendorId, h[i].subcmd), h[i].arg))
  }

  /** On vendor callbacks, finding and removing are those of the lifetime model. */
  lemma LifetimeTable(h: seq<Callback>, key: L.Key)
    requires forall cb :: cb in h ==> cb.nlCmd == NL80211_CMD_VENDOR
    ensures var e := Event(NL80211_CMD_VENDOR, key.vendor, key.subcmd);
      FirstFor(h, e) == L.FindHandler(Abstract(h), key) && Abstract(Without(h, e)) == L.RemoveHandler(Abstract(h), key)
  {
    var e, a := Event(NL80211_CMD_VENDOR, key.vendor, key.subcmd), Abstract(h);
    forall i | 0 <= i < |h|
      ensures Handles(h[i], e) <==> a[i].key == key
    {
      assert h[i] in h;
    }
    FirstForUnique(h, e, L.FindHandler(a, key));
    assert Abstract(Without(h, e)) == L.RemoveHandler(a, key);
  }

  class HalInfo {
    var eventCb: array<Callback>
    var numEventCb: nat
    var cmds: array<L.Entry>
    var numCmd: nat

    ghost predicate Valid()
      reads this
    {
      numEventCb <= eventCb.Length && numCmd <= cmds.Length
    }

    ghost function Handlers(): seq<Callback>
      reads this, eventCb
      requires Valid()
    {
      eventCb[..numEventCb]
    }

    ghost function Commands(): seq<L.Entry>
      reads this, cmds
      requires Valid()
    {
      cmds[..numCmd]
    }

    constructor ()
      ensures Valid() && fresh(eventCb) && fresh(cmds) && Handlers() == [] && Commands() == []
      ensures eventCb.Length == cmds.Length == 64
    {
      eventCb := new Callback[L.TABLE_SIZE](_ => Callback(0, 0, 0, 0, 0));
      cmds := new L.Entry[L.TABLE_SIZE](_ => L.Entry(0, 0));
      numEventCb, numCmd := 0, 0;
    }

    method Append(cb: Callback) returns (r: WifiError)
      requires Valid()
      modifies this`numEventCb, eventCb
      ensures Valid()
      ensures r.Success? <==> |old(Handlers())| < eventCb.Length
      ensures Handlers() == old(Handlers()) + if r.Success? then [cb] else []
    {
      if numEventCb < eventCb.Length {
        eventCb[numEventCb] := cb;
        numEventCb := numEventCb + 1;
        return Success;
      }
      return OutOfMemory;
    }

    method RegisterHandler(cmd: int, func: int, arg: nat) returns (r: WifiError)
      requires Valid()
      modifies this`numEventCb, eventCb
      ensures Valid()
      ensures r.Success? <==> |old(Handlers())| < eventCb.Length
      ensures Handlers() == old(Handlers()) + if r.Success? then [Callback(cmd, 0, 0, func, arg)] else []
    {
      r := Append(Callback(cmd, 0, 0, func, arg));
    }

    method RegisterVendorHandler(id: int, subcmd: int, func: int, arg: nat) returns (r: WifiError)
      requires Valid()
      modifies this`numEventCb, eventCb
      ensures Valid()
      ensures r.Success? <==> |old(Handlers())| < eventCb.Length
      ensures Handlers() == old(Handlers()) + if r.Success? then [Callback(NL80211_CMD_VENDOR, id, subcmd, func, arg)] else []
    {
      r := Append(Callback(NL80211_CMD_VENDOR, id, subcmd, func, arg));
    }

    /** Moves the callbacks behind `i` down over it. */
    method CloseGap(i: nat)
      requires Valid() && i < numEventCb
      modifies this`numEventCb, eventCb
      ensures Valid() && Handlers() == old(Handlers()[..i] + Handlers()[i + 1..])
    {
      forall j | i <= j < numEventCb - 1 {
        eventCb[j] := eventCb[j + 1];
      }
      numEventCb := numEventCb - 1;
    }

    /** Vendor handlers are refused. */
    method UnregisterHandler(cmd: int)
      requires Valid()
      modifies this`numEventCb, eventCb
      ensures Valid()
      ensures Handlers() == (
        if cmd == NL80211_CMD_VENDOR then old(Handlers()) else Without(old(Handlers()), Event(cmd, 0, 0)))
    {
      if cmd == NL80211_CMD_VENDOR {
        return;
      }
      ghost var e := Event(cmd, 0, 0);
      for i := 0 to numEventCb
        invariant Valid() && numEventCb == old(numEventCb) && Handlers() == old(Handlers())
        invariant forall j :: 0 <= j < i ==> !Handles(Handlers()[j], e)
      {
        if eventCb[i].nlCmd == cmd {
          FirstForUnique(Handlers(), e, i);
          CloseGap(i);
          return;
        }
      }
      FirstForUnique(Handlers(), e, numEventCb);
    }

    method UnregisterVendorHandler(id: int, subcmd: int)
      requires Valid()
      modifies this`numEventCb, eventCb
      ensures Valid() && Handlers() == Without(old(Handlers()), Event(NL80211_CMD_VENDOR, id, subcmd))
    {
      ghost var e := Event(NL80211_CMD_VENDOR, id, subcmd);
      for i := 0 to numEventCb
        invariant Valid() && numEventCb == old(numEventCb) && Handlers() == old(Handlers())
        invariant forall j :: 0 <= j < i ==> !Handles(Handlers()[j], e)
      {
        if eventCb[i].nlCmd == NL80211_CMD_VENDOR && eventCb[i].vendorId == id && eventCb[i].subcmd == subcmd {
          FirstForUnique(Handlers(), e, i);
          CloseGap(i);
          return;
        }
      }
      FirstForUnique(Handlers(), e, numEventCb);
    }

    /** The callback an event goes to. */
    method Dispatch(e: Event) returns (r: Option<Callback>)
      requires Valid()
      ensures r == Found(Handlers(), e)
    {
      for i := 0 to numEventCb
        invariant forall j :: 0 <= j < i ==> !Handles(Handlers()[j], e)
      {
        if e.cmd == eventCb[i].nlCmd {
          if e.cmd == NL80211_CMD_VENDOR && (e.vendorId != eventCb[i].vendorId || e.subcmd != eventCb[i].subcmd) {
            continue;
          }
          FirstForUnique(Handlers(), e, i);
          return Some(eventCb[i]);
        }
      }
      FirstForUnique(Handlers(), e, numEventCb);
      return None;
    }

    method RegisterCmd(id: int, c: nat) returns (r: WifiError)
      requires Valid()
      modifies this`numCmd, cmds
      ensures Valid()
      ensures r.Success? <==> |old(Commands())| < cmds.Length
      ensures Commands() == old(Commands()) + if r.Success? then [L.Entry(id, c)] else []
    {
      if numCmd < cmds.Length {
        cmds[numCmd] := L.Entry(id, c);
        numCmd := numCmd + 1;
        return Success;
      }
      return OutOfMemory;
    }

    method CloseCmdGap(i: nat)
      requires Valid() && i < numCmd
      modifies this`numCmd, cmds
      ensures Valid() && Commands() == L.RemoveEntry(old(Commands()), i)
    {
      forall j | i <= j < numCmd && j + 1 < cmds.Length {
        cmds[j] := cmds[j + 1];
      }
      numCmd := numCmd - 1;
    }

    method GetCmd(id: int) returns (r: Option<nat>)
      requires Valid()
      ensures var t := Commands(); var k := L.FindEntry(t, id); r == if k < |t| then Some(t[k].cmd) else None
    {
      for i := 0 to numCmd
        invariant forall j :: 0 <= j < i ==> Commands()[j].id != id
      {
        if cmds[i].id == id {
          assert Commands()[i].id == id;
          return Some(cmds[i].cmd);
        }
      }
      return None;
    }

    method UnregisterCmd(id: int) returns (r: Option<nat>)
      requires Valid()
      modifies this`numCmd, cmds
      ensures Valid() && Commands() == RemoveCmd(old(Commands()), id)
      ensures var t := old(Commands()); var k := L.FindEntry(t, id); r == if k < |t| then Some(t[k].cmd) else None
    {
      for i := 0 to numCmd
        invariant Valid() && numCmd == old(numCmd) && Commands() == old(Commands())
        invariant forall j :: 0 <= j < i ==> Commands()[j].id != id
      {
        if cmds[i].id == id {
          assert Commands()[i].id == id;
          r := Some(cmds[i].cmd);
          CloseCmdGap(i);
          return;
        }
      }
      return None;
    }
  }
}

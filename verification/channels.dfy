/** The channel table as the daemon updates it: in place, with the loops of the source. */
module Channels {
  import opened Octets
  import opened ChannelsSpec

  /** How many of the first `n` channels, the control channel aside, are open and have a pty. */
  function OpenWithPty(ch: seq<Chan>, n: nat): nat
    requires n <= |ch|
  {
    if n <= 1 then 0 else OpenWithPty(ch, n - 1) + if ch[n - 1].fdOpen && ch[n - 1].isOpen then 1 else 0
  }

  class Daemon {
    const channellist: array<Chan>
    var state: MuxState
    var sabmUaReceived: nat
    var setupComplete: bool
    var closingDown: bool
    var signals: nat
    var asserted: bool
    ghost var controlStarted: bool
    ghost var allocs: nat
    ghost var acked: set<nat>
    ghost var asked: set<nat>

    ghost predicate Valid()
      reads this
    {
      channellist.Length == MAX_CHANNELS
    }

    ghost function Abs(): (m: Mux)
      requires Valid()
      reads this, channellist
      ensures |m.ch| == MAX_CHANNELS
    {
      Mux(channellist[..], state, sabmUaReceived, setupComplete, closingDown, signals,
          asserted, controlStarted, allocs, acked, asked)
    }

    constructor ()
      ensures Valid() && fresh(channellist) && Init(Abs())
    {
      channellist := new Chan[MAX_CHANNELS](_ => Chan(false, false, false, false, false));
      state, sabmUaReceived, setupComplete, closingDown, signals, asserted := Muxing, 0, false, false, 0, false;
      controlStarted, allocs, acked, asked := false, 0, {}, {};
    }

    method LogicalChannelClose(c: nat)
      requires Valid() && c < MAX_CHANNELS
      modifies channellist
      ensures channellist[..] == old(channellist[..])[c := Closed(old(channellist[c]))]
    {
      if channellist[c].fdOpen {
        channellist[c] := channellist[c].(fdOpen := false);
      }
      channellist[c] := channellist[c].(isOpen := false);
      channellist[c] := channellist[c].(sabmPending := false, discPending := false);
    }

    method LogicalChannelEstablish(c: nat)
      requires Valid() && c < MAX_CHANNELS
      modifies channellist
      ensures channellist[..] == old(channellist[..])[c := Established(old(channellist[c]))]
    {
      channellist[c] := channellist[c].(fdOpen := true);
      channellist[c] := channellist[c].(sabmPending := true);
    }

    method OpenControlChannel()
      requires Valid() && Enabled(Abs(), OpenControl)
      modifies channellist, this`controlStarted, this`asked
      ensures Valid() && Abs() == Apply(old(Abs()), OpenControl)
    {
      channellist[0] := channellist[0].(sabmPending := true);
      controlStarted, asked := true, asked + {0};
    }

    /** The second search: it looks for any channel without a pty, but establishes `id` again. */
    method SearchAnyFree(id: nat) returns (found: bool)
      requires Valid() && id < MAX_CHANNELS
      modifies channellist
      ensures found == !AllTaken(old(channellist[..]))
      ensures AllTaken(old(channellist[..])) ==> channellist[..] == old(channellist[..])
      ensures !AllTaken(old(channellist[..])) ==>
        channellist[..] == old(channellist[..])[id := Established(old(channellist[id]))]
    {
      for i := 1 to MAX_CHANNELS
        invariant channellist[..] == old(channellist[..])
        invariant forall c :: 0 < c < i ==> channellist[c].fdOpen
      {
        if !channellist[i].fdOpen {
          assert !AllTaken(channellist[..]) by { assert !channellist[..][i].fdOpen; }
          LogicalChannelEstablish(id);
          return true;
        }
      }
      return false;
    }

    /** The first search: `id` is the first configured channel without a pty, or else the last one looked at. */
    method SearchConfigured() returns (found: bool, id: nat)
      requires Valid()
      ensures var k := FirstFree(channellist[..], 0);
        found == (k < |CONFIGURED|) && id == CONFIGURED[if found then k else |CONFIGURED| - 1]
    {
      hide CONFIGURED;
      ConfiguredFacts();
      id := 0;
      for i := 0 to |CONFIGURED|
        invariant i > 0 ==> id == CONFIGURED[i - 1]
        invariant FirstFree(channellist[..], 0) == FirstFree(channellist[..], i)
      {
        id := CONFIGURED[i];
        if !channellist[id].fdOpen {
          return true, id;
        }
      }
      return false, id;
    }

    /** One round of channel setup, which does nothing unless the daemon is muxing. */
    method AllocChannel() returns (failed: bool)
      requires Valid() && Enabled(Abs(), Alloc)
      modifies channellist, this`allocs, this`asked
      ensures Valid() && Abs() == Apply(old(Abs()), Alloc)
      ensures failed == AllocTarget(old(Abs())).None?
    {
      hide CONFIGURED, FirstFree, AllTaken;
      ConfiguredFacts();
      if state != Muxing {
        allocs := |CONFIGURED|;
        return true;
      }
      var found, id := SearchConfigured();
      if found {
        LogicalChannelEstablish(id);
      } else {
        found := SearchAnyFree(id);
      }
      if !found {
        allocs := |CONFIGURED|;
        return true;
      }
      asked, allocs := asked + {id}, allocs + 1;
      return false;
    }

    /** Whether a channel above 0 still waits for the UA to its DISC: the search behind every UA on an open channel. */
    method AllDiscAcknowledged() returns (all: bool)
      requires Valid()
      ensures all == NoneAwaited(channellist[..])
    {
      var i := 1;
      while i < MAX_CHANNELS
        invariant 1 <= i <= MAX_CHANNELS
        invariant forall c :: 0 < c < i ==> !channellist[c].discPending
      {
        if channellist[i].discPending {
          assert channellist[..][i].discPending;
          break;
        }
        i := i + 1;
      }
      all := i == MAX_CHANNELS;
    }

    /** The close-down waits for this signal. */
    method TellCloseDown()
      requires Valid()
      modifies this`signals
      ensures signals == old(signals) + if closingDown && NoneAwaited(channellist[..]) then 1 else 0
    {
      if closingDown {
        var all := AllDiscAcknowledged();
        if all {
          signals := signals + 1;
        }
      }
    }

    /** A UA on an open channel: one to a DISC closes it, and may be the last that the close-down waits for. */
    method UaOnOpen(c: nat)
      requires Valid() && c < MAX_CHANNELS && channellist[c].isOpen
      modifies this, channellist
      ensures Valid() && Abs() == UaReceived(old(Abs()), c)
    {
      if channellist[c].discPending {
        if c == 0 {
          asserted := true;
        }
        LogicalChannelClose(c);
        channellist[c] := channellist[c].(discPending := false);
        assert channellist[..] == old(channellist[..])[c := Closed(old(channellist[c]))];
      }
      TellCloseDown();
    }

    /** A UA to a SABM: the channel is open, and setup may be complete. */
    method UaToSabm(c: nat)
      requires Valid() && c < MAX_CHANNELS && !channellist[c].isOpen && channellist[c].sabmPending
      modifies this, channellist
      ensures Valid() && Abs() == UaReceived(old(Abs()), c)
    {
      channellist[c] := channellist[c].(isOpen := true);
      channellist[c] := channellist[c].(sabmPending := false);
      sabmUaReceived := sabmUaReceived + 1;
      acked := acked + {c};
      if sabmUaReceived == CH_NUM_ALL {
        setupComplete := true;
      }
    }

    method HandleUa(c: nat)
      requires Valid() && c < MAX_CHANNELS
      modifies this, channellist
      ensures Valid() && Abs() == UaReceived(old(Abs()), c)
    {
      if channellist[c].isOpen {
        UaOnOpen(c);
      } else if channellist[c].sabmPending {
        UaToSabm(c);
      } else if channellist[c].discPending {
        channellist[c] := channellist[c].(discPending := false);
      }
    }

    method HandleDm(c: nat)
      requires Valid() && c < MAX_CHANNELS
      modifies this`state, channellist
      ensures Valid() && Abs() == DmReceived(old(Abs()), c)
    {
      if channellist[c].isOpen {
        LogicalChannelClose(c);
      } else if c == 0 {
        state := Closing;
      }
    }

    /** The answer is the control octet sent back: UA from an open channel, DM from a closed one. */
    method HandleDisc(c: nat) returns (answer: Octet)
      requires Valid() && c < MAX_CHANNELS
      modifies this`state, channellist
      ensures Valid() && Abs() == DiscReceived(old(Abs()), c)
      ensures answer == if old(channellist[c].isOpen) then 0x73 else 0x1F
    {
      if channellist[c].isOpen {
        channellist[c] := channellist[c].(isOpen := false);
        answer := TYPE_UA | PF;
        if c == 0 {
          state := PeerClosing;
        } else {
          LogicalChannelClose(c);
        }
      } else {
        answer := TYPE_DM | PF;
      }
    }

    /** The dispatch on the frame type, whatever the poll/final bit; other control frames change nothing. */
    method HandleControlFrame(control: Octet, c: nat) returns (answer: Option<Octet>)
      requires Valid() && c < MAX_CHANNELS
      modifies this, channellist
      ensures Valid()
      ensures control == 0x63 || control == 0x73 ==> Abs() == Apply(old(Abs()), RecvUa(c)) && answer == None
      ensures control == 0x0F || control == 0x1F ==> Abs() == Apply(old(Abs()), RecvDm(c)) && answer == None
      ensures control == 0x43 || control == 0x53 ==>
        Abs() == Apply(old(Abs()), RecvDisc(c)) && answer == Some(if old(channellist[c].isOpen) then 0x73 else 0x1F)
      ensures control == 0x2F || control == 0x3F ==> Abs() == Apply(old(Abs()), RecvSabm(c)) && answer == Some(0x73)
      ensures control !in {0x63, 0x73, 0x0F, 0x1F, 0x43, 0x53, 0x2F, 0x3F} ==> Abs() == old(Abs()) && answer == None
    {
      ControlOctets(control);
      answer := None;
      if FrameIs(TYPE_UA, control) {
        HandleUa(c);
      } else if FrameIs(TYPE_DM, control) {
        HandleDm(c);
      } else if FrameIs(TYPE_DISC, control) {
        var reply := HandleDisc(c);
        answer := Some(reply);
      } else if FrameIs(TYPE_SABM, control) {
        channellist[c] := channellist[c].(isOpen := true);
        answer := Some(TYPE_UA | PF);
      }
    }

    /** Sends DISC on every open channel above 0 in the basic option; the result counts them. */
    method CloseAllChannels(basic: bool) returns (sent: nat)
      requires Valid() && !closingDown
      modifies this`closingDown, channellist
      ensures Valid() && Abs() == Apply(old(Abs()), CloseDevices(basic))
      ensures sent == if basic then OpenWithPty(old(channellist[..]), MAX_CHANNELS) else 0
    {
      closingDown := true;
      sent := 0;
      for i := 1 to MAX_CHANNELS
        invariant forall c :: 0 <= c < i ==>
          channellist[c] == (if basic then DiscSent(old(channellist[..]))[c] else old(channellist[c]))
        invariant forall c :: i <= c < MAX_CHANNELS ==> channellist[c] == old(channellist[c])
        invariant closingDown
        invariant sent == if basic then OpenWithPty(old(channellist[..]), i) else 0
      {
        if channellist[i].fdOpen && channellist[i].isOpen && basic {
          channellist[i] := channellist[i].(discPending := true);
          sent := sent + 1;
        }
      }
      ghost var ch := old(channellist[..]);
      assert channellist[..] == if basic then DiscSent(ch) else ch;
    }
  }
}

/**
 The channel's flow-control context on the heap does what the steps of the interleaved model say: beside every
 state of a run, each method leads to the step's next state.
 */
module FlowRefinement {
  import opened Octets
  import opened FlowControl
  import opened FrameList

  function Payloads(frames: seq<Frame>): (r: seq<seq<Octet>>)
    ensures |r| == |frames| && forall i :: 0 <= i < |frames| ==> r[i] == frames[i].data
  {
    seq(|frames|, i requires 0 <= i < |frames| => frames[i].data)
  }

  /** List, total, resume point and the two flags are those of the state; the list exists while flow control is off. */
  ghost predicate Agrees(ch: Channel, s: State)
    requires ch.Valid()
    reads ch, ch.rxFl, ch.nodes
  {
    && Payloads(ch.Pending()) == s.queue
    && ch.rxFlTotal == s.total && ch.rxFlWritten == s.writtenOfFirst
    && ch.rxFcOff == s.fcOff && ch.rxThread == s.threadFlag
    && (s.fcOff ==> ch.rxFl != null)
  }

  lemma PayloadsAppend(a: seq<Frame>, f: Frame)
    ensures Payloads(a + [f]) == Payloads(a) + [f.data]
  {}

  lemma PayloadsTail(a: seq<Frame>)
    requires a != []
    ensures Payloads(a[1..]) == Payloads(a)[1..]
  {}

  /** The assembler queues a frame, or drops it at the watermark. */
  method CacheArrival(ch: Channel, frame: Frame, ghost s: State)
    requires ch.Valid() && Agrees(ch, s) && Inv(s) && s.fcOff && Enabled(s, Arrive(frame.data))
    modifies ch, ch.rxFl
    ensures ch.Valid() && Agrees(ch, Apply(s, Arrive(frame.data)))
  {
    hide Inv;
    ghost var before := ch.Pending();
    var dropped := ch.CacheFrameData(frame);
    if !dropped {
      PayloadsAppend(before, frame);
    }
  }

  /** The rest of a frame the pty did not take becomes the first of the list. */
  method CacheRest(ch: Channel, frame: Frame, written: nat, ghost s: State)
    requires ch.Valid() && Agrees(ch, s) && Inv(s) && Enabled(s, CacheRemaining)
    requires s.assembler == Caching(frame.data, written)
    modifies ch, ch.rxFl
    ensures ch.Valid() && Agrees(ch, Apply(s, CacheRemaining))
  {
    assert s.queue == [] && !s.fcOff;
    hide Inv;
    var asserted := ch.CacheRemainingFrameData(frame, written);
  }

  /** A retry thread starts with the frame and the resume point the step gives it. */
  method StartDraining(ch: Channel, i: nat, ghost s: State) returns (frame: Frame, written: nat)
    requires ch.Valid() && Agrees(ch, s) && Inv(s) && Enabled(s, TakeFirst(i))
    modifies ch, ch.rxFl
    ensures ch.Valid() && Agrees(ch, Apply(s, TakeFirst(i)))
    ensures Apply(s, TakeFirst(i)).threads[i] == Draining(frame.data, written)
  {
    assert s.queue != [] && s.fcOff;
    hide Inv;
    ghost var before := ch.Pending();
    var f;
    f, written := ch.TakeFirst();
    PayloadsTail(before);
    frame := f.value;
  }

  /** A retry thread goes on with the next frame, or turns flow control on. */
  method GoOnDraining(ch: Channel, i: nat, ghost s: State) returns (frame: Option<Frame>)
    requires ch.Valid() && Agrees(ch, s) && Inv(s) && Enabled(s, FlowControl.TakeNext(i))
    modifies ch, ch.rxFl
    ensures ch.Valid() && Agrees(ch, Apply(s, FlowControl.TakeNext(i)))
    ensures Apply(s, FlowControl.TakeNext(i)).threads[i] == if frame.Some? then Draining(frame.value.data, 0) else Finishing
  {
    assert Active(s.threads[i]);
    assert i == |s.threads| - 1 && SomeActive(s);
    hide Inv;
    ghost var before := ch.Pending();
    frame := ch.TakeNext();
    if before != [] {
      PayloadsTail(before);
    }
  }
}

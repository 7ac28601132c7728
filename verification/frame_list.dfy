/**
 The circular list that holds a channel's pending frames, on the heap. The list is known by its sentinel;
 a push turns the sentinel into the newest node and makes a new one, a pop unlinks the node behind it.
 */
module FrameList {
  import opened Octets

  class Node {
    var frame: Option<Frame>
    var next: Node

    constructor Alone()
      ensures next == this && frame == None
    {
      next := this;
      frame := None;
    }

    constructor (frame: Option<Frame>, next: Node)
      ensures this.frame == frame && this.next == next
    {
      this.frame, this.next := frame, next;
    }
  }

  /** `nodes` are the data nodes from the oldest to the newest, in a cycle through the sentinel. */
  ghost predicate Cycle(sentinel: Node, nodes: seq<Node>)
    reads sentinel, nodes
  {
    var ring := nodes + [sentinel];
    && (forall i, j :: 0 <= i < j < |ring| ==> ring[i] != ring[j])
    && sentinel.next == ring[0]
    && (forall i :: 0 <= i < |nodes| ==> nodes[i].next == ring[i + 1])
    && (forall i :: 0 <= i < |nodes| ==> nodes[i].frame.Some?)
  }

  ghost function FrameOf(node: Node): Frame
    requires node.frame.Some?
    reads node
  {
    node.frame.value
  }

  /** The pending frames, oldest first. */
  ghost function Queue(nodes: seq<Node>): (q: seq<Frame>)
    requires forall i :: 0 <= i < |nodes| ==> nodes[i].frame.Some?
    reads nodes
    ensures |q| == |nodes|
  {
    if nodes == [] then [] else [FrameOf(nodes[0])] + Queue(nodes[1..])
  }

  /** Frames are told from their nodes one by one. */
  lemma {:induction false} QueueAppend(nodes: seq<Node>, node: Node)
    requires node.frame.Some? && forall i :: 0 <= i < |nodes| ==> nodes[i].frame.Some?
    ensures Queue(nodes + [node]) == Queue(nodes) + [FrameOf(node)]
  {
    if nodes == [] {
      assert (nodes + [node])[1..] == [];
    } else {
      QueueAppend(nodes[1..], node);
      assert (nodes + [node])[1..] == nodes[1..] + [node];
    }
  }

  ghost function QueueOf(sentinel: Node, nodes: seq<Node>): (q: seq<Frame>)
    requires Cycle(sentinel, nodes)
    reads sentinel, nodes
    ensures |q| == |nodes|
  {
    Queue(nodes)
  }

  method IsEmpty(list: Node, ghost nodes: seq<Node>) returns (empty: bool)
    requires Cycle(list, nodes)
    ensures empty <==> nodes == []
  {
    empty := list.next == list;
  }

  /** The old sentinel, now before a new one, closes a longer cycle. */
  lemma CycleGrows(list: Node, head: Node, nodes: seq<Node>)
    requires forall i, j :: 0 <= i < j <= |nodes| ==> (nodes + [list])[i] != (nodes + [list])[j]
    requires head !in nodes && head != list && list.next == head && list.frame.Some?
    requires head.next == (if nodes == [] then list else nodes[0])
    requires forall i :: 0 <= i < |nodes| ==> nodes[i].next == (nodes + [list])[i + 1] && nodes[i].frame.Some?
    ensures Cycle(head, nodes + [list])
  {
    var ring := nodes + [list] + [head];
    assert forall i :: 0 <= i <= |nodes| ==> ring[i] == (nodes + [list])[i];
    assert forall i, j :: 0 <= i < j < |ring| ==> ring[i] != ring[j];
    assert forall i :: 0 <= i < |nodes + [list]| ==> (nodes + [list])[i].next == ring[i + 1];
  }

  lemma CycleFacts(list: Node, nodes: seq<Node>)
    requires Cycle(list, nodes)
    ensures list !in nodes && list.next == (if nodes == [] then list else nodes[0])
  {
    var ring := nodes + [list];
    assert forall i :: 0 <= i < |nodes| ==> nodes[i] == ring[i] != ring[|nodes|];
  }

  /** The result is the new sentinel. */
  method PushFrame(list: Node, frame: Frame, ghost nodes: seq<Node>) returns (head: Node, ghost nodes': seq<Node>)
    requires Cycle(list, nodes)
    modifies list
    ensures fresh(head) && nodes' == nodes + [list]
    ensures Cycle(head, nodes') && QueueOf(head, nodes') == old(QueueOf(list, nodes)) + [frame]
  {
    CycleFacts(list, nodes);
    head := new Node(list.frame, list.next);
    list.next := head;
    list.frame := Some(frame);
    nodes' := nodes + [list];
    CycleGrows(list, head, nodes);
    QueueAppend(nodes, list);
  }

  /** Unlinks the oldest node, if there is one. */
  method PopFrame(list: Node, ghost nodes: seq<Node>) returns (frame: Option<Frame>, ghost nodes': seq<Node>)
    requires Cycle(list, nodes)
    modifies list
    ensures nodes' == (if nodes == [] then [] else nodes[1..])
    ensures Cycle(list, nodes')
    ensures frame == (if nodes == [] then None else Some(old(QueueOf(list, nodes))[0]))
    ensures QueueOf(list, nodes') == (if nodes == [] then [] else old(QueueOf(list, nodes))[1..])
  {
    var empty := IsEmpty(list, nodes);
    if empty {
      return None, [];
    }
    var node := list.next;
    ghost var ring := nodes + [list];
    assert node == ring[0] == nodes[0] && node != ring[|nodes|];
    frame := node.frame;
    list.next := list.next.next;
    nodes' := nodes[1..];
    assert nodes' + [list] == ring[1..];
  }

  /** Pops until the list is empty. */
  method CleanNodes(list: Node, ghost nodes: seq<Node>) returns (destroyed: seq<Frame>)
    requires Cycle(list, nodes)
    modifies list
    ensures Cycle(list, []) && destroyed == old(QueueOf(list, nodes))
  {
    hide Cycle, Queue, QueueOf, JoinUp;
    ghost var rest, all := nodes, QueueOf(list, nodes);
    destroyed := [];
    NoneTaken(all);
    var empty := IsEmpty(list, rest);
    while !empty
      invariant Cycle(list, rest) && empty == (rest == [])
      invariant JoinUp(destroyed, QueueOf(list, rest), all)
      decreases |rest|
    {
      var frame;
      MoveFront(destroyed, QueueOf(list, rest), all);
      frame, rest := PopFrame(list, rest);
      destroyed := destroyed + [frame.value];
      empty := IsEmpty(list, rest);
    }
    AllTaken(destroyed, QueueOf(list, rest), all);
  }

  predicate JoinUp(a: seq<Frame>, b: seq<Frame>, all: seq<Frame>) {
    a + b == all
  }

  lemma NoneTaken(all: seq<Frame>)
    ensures JoinUp([], all, all)
  {}

  lemma MoveFront(a: seq<Frame>, b: seq<Frame>, all: seq<Frame>)
    requires JoinUp(a, b, all) && b != []
    ensures JoinUp(a + [b[0]], b[1..], all)
  {
    assert b == [b[0]] + b[1..];
  }

  lemma AllTaken(a: seq<Frame>, b: seq<Frame>, all: seq<Frame>)
    requires JoinUp(a, b, all) && b == []
    ensures a == all
  {}

  /** The receive side of a channel's flow-control context. */
  class Channel {
    var rxFl: Node?
    var rxFlTotal: nat
    var rxFlWritten: nat
    var rxFcOff: bool
    var rxThread: bool
    ghost var nodes: seq<Node>

    ghost predicate Valid()
      reads this, rxFl, nodes
    {
      if rxFl == null then nodes == [] else Cycle(rxFl, nodes)
    }

    /** The frames waiting for the retry thread. */
    ghost function Pending(): seq<Frame>
      requires Valid()
      reads this, rxFl, nodes
    {
      if rxFl == null then [] else QueueOf(rxFl, nodes)
    }

    constructor ()
      ensures Valid() && Pending() == [] && rxFlTotal == rxFlWritten == 0 && !rxFcOff && !rxThread && rxFl == null
    {
      rxFl, nodes := null, [];
      rxFlTotal, rxFlWritten, rxFcOff, rxThread := 0, 0, false, false;
    }

    /** While flow control is off the list exists; a frame goes to its end unless it would pass the watermark. */
    method CacheFrameData(frame: Frame) returns (dropped: bool)
      requires Valid() && rxFl != null
      modifies this, rxFl
      ensures Valid() && rxFl != null
      ensures rxFcOff == old(rxFcOff) && rxFlWritten == old(rxFlWritten) && rxThread == old(rxThread)
      ensures dropped <==> old(rxFlTotal) + |frame.data| > HIGH_WATERMARK
      ensures dropped ==> Pending() == old(Pending()) && rxFlTotal == old(rxFlTotal)
      ensures !dropped ==> Pending() == old(Pending()) + [frame]
      ensures !dropped ==> rxFlTotal == old(rxFlTotal) + |frame.data| <= HIGH_WATERMARK
    {
      hide Cycle, Queue, QueueOf;
      dropped := rxFlTotal + |frame.data| > HIGH_WATERMARK;
      if !dropped {
        rxFlTotal := rxFlTotal + |frame.data|;
        rxFl, nodes := PushFrame(rxFl, frame, nodes);
      }
    }

    /**
     A frame of which only `written` octets went to the pty becomes the first of an empty list, or the assertion
     fires.
     */
    method CacheRemainingFrameData(frame: Frame, written: nat) returns (asserted: bool)
      requires Valid() && written <= |frame.data|
      modifies this, rxFl
      ensures Valid() && (asserted <==> old(Pending()) != []) && rxFcOff == old(rxFcOff) && rxThread == old(rxThread)
      ensures !asserted ==> Pending() == [frame] && rxFl != null
      ensures !asserted ==> rxFlTotal == |frame.data| - written && rxFlWritten == written
      ensures asserted ==> Pending() == old(Pending()) && rxFl == old(rxFl)
      ensures asserted ==> rxFlTotal == old(rxFlTotal) && rxFlWritten == old(rxFlWritten)
    {
      if rxFl != null {
        var empty := IsEmpty(rxFl, nodes);
        if !empty {
          return true;
        }
      } else {
        rxFl := new Node.Alone();
        nodes := [];
      }
      rxFlTotal := |frame.data| - written;
      rxFl, nodes := PushFrame(rxFl, frame, nodes);
      rxFlWritten := written;
      return false;
    }

    /** What a retry thread does first; without a frame its assertion fires. */
    method TakeFirst() returns (frame: Option<Frame>, written: nat)
      requires Valid() && rxFl != null
      modifies this, rxFl
      ensures Valid() && rxFl != null && rxFlTotal == old(rxFlTotal) && rxFcOff == old(rxFcOff)
      ensures frame == (if old(Pending()) == [] then None else Some(old(Pending())[0]))
      ensures Pending() == (if old(Pending()) == [] then [] else old(Pending())[1..])
      ensures written == old(rxFlWritten) && rxFlWritten == 0 && rxThread
    {
      hide Cycle, Queue, QueueOf;
      rxThread := true;
      frame, nodes := PopFrame(rxFl, nodes);
      written, rxFlWritten := rxFlWritten, 0;
    }

    /** The retry thread's next frame; with none left, flow control is on again. */
    method TakeNext() returns (frame: Option<Frame>)
      requires Valid() && rxFl != null
      modifies this, rxFl
      ensures Valid() && rxFl != null
      ensures rxFlTotal == old(rxFlTotal) && rxFlWritten == old(rxFlWritten) && rxThread == old(rxThread)
      ensures frame == (if old(Pending()) == [] then None else Some(old(Pending())[0]))
      ensures Pending() == (if old(Pending()) == [] then [] else old(Pending())[1..])
      ensures rxFcOff == (old(rxFcOff) && frame.Some?)
    {
      frame, nodes := PopFrame(rxFl, nodes);
      if frame.None? {
        rxFcOff := false;
      }
    }
  }
}

/** From an application on one side to the application on the other, across both halves of the multiplexer. */
module EndToEnd {
  import opened Octets
  import opened Sender
  import Fcs
  import Basic = BasicStream
  import BasicRejection
  import Advanced = AdvancedStream
  import Machine = AdvancedSpec

  lemma {:induction false} LinesAreStream(frames: seq<Frame>)
    ensures Lines(true, frames) == Advanced.Stream(Advanced.Bodies(frames))
    decreases |frames|
  {
    hide Advanced.Wire, Advanced.Body;
    if frames != [] {
      LinesAreStream(frames[1..]);
      assert Advanced.Bodies(frames)[1..] == Advanced.Bodies(frames[1..]);
    }
  }

  lemma {:induction false} LinesAreBasicStream(n1: Octet -> nat, frames: seq<Frame>)
    requires Basic.AllFit(n1, frames)
    ensures Lines(false, frames) == Basic.Stream(n1, frames)
    decreases |frames|
  {
    hide Basic.Encode;
    if frames != [] {
      LinesAreBasicStream(n1, frames[1..]);
    }
  }

  /** Data frames are UIH frames of the one channel, whatever their poll bit. */
  lemma {:induction false} DataFrames(channel: Octet, pollPending: bool, input: seq<Octet>, n1: nat)
    requires n1 > 0
    ensures forall f :: f in Emitted(channel, pollPending, input, n1) ==>
      f.channel == channel && !FrameIs(TYPE_UI, f.control) && |f.data| <= n1
    decreases |input|
  {
    if input != [] {
      var f := FrameSent(channel, TYPE_UIH, pollPending, input, n1);
      DataFrames(channel, pollPending && !GivesPollBack(TYPE_UIH, pollPending, input), input[|f.data|..], n1);
    }
  }

  /**
   In the advanced option an application's data arrives whole and in order, cut into pieces on the way in
   whatever way.
   */
  lemma AdvancedDataArrives(channel: Octet, pollPending: bool, input: seq<Octet>, n1: nat, chunks: seq<seq<Octet>>)
    requires channel < 64 && 0 < n1 <= Advanced.MAX_PAYLOAD
    requires Concat(chunks) == Lines(true, Emitted(channel, pollPending, input, n1))
    ensures Concat(Payloads(Advanced.DeliverFrames(Machine.Hunting, chunks))) == input
  {
    hide Fcs.FrameFcs, Emitted, Advanced.Stream, Advanced.Bodies, Advanced.DeliverFrames, Lines;
    var frames := Emitted(channel, pollPending, input, n1);
    DataFrames(channel, pollPending, input, n1);
    LinesAreStream(frames);
    Advanced.EndToEnd(frames, chunks);
    FragmentsJoinUp(channel, pollPending, input, n1);
  }

  /** And so it does in the basic option, where no cutting leads to the assertion either. */
  lemma BasicDataArrives(channel: Octet, pollPending: bool, input: seq<Octet>, limits: Octet -> nat,
                         pieces: seq<seq<Octet>>)
    requires channel < 64 && 0 < limits(channel) <= Basic.MAX_LENGTH
    requires Concat(pieces) == Lines(false, Emitted(channel, pollPending, input, limits(channel)))
    ensures !Basic.PieceAsserts(limits, false, [], pieces)
    ensures Concat(Payloads(Basic.Received(limits, false, [], pieces))) == input
  {
    hide Fcs.FrameFcs, Emitted, Basic.Stream, Basic.Received, Basic.PieceAsserts, Lines;
    var frames := Emitted(channel, pollPending, input, limits(channel));
    DataFrames(channel, pollPending, input, limits(channel));
    LinesAreBasicStream(limits, frames);
    BasicRejection.SentPiecesArrive(limits, frames, pieces);
    FragmentsJoinUp(channel, pollPending, input, limits(channel));
  }
}

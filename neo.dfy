/**
 * The part of neo's data model the utilities touch: a Block holds an
 * ordered list of Segments, a Segment holds ordered lists of AnalogSignals
 * and SpikeTrains. Signals are values here; Blocks and Segments are objects
 * whose lists the code updates in place, with a value view for the pure
 * selection functions.
 */
module Neo {
  import opened Wrappers

  /** A uniformly sampled signal; its samples and units are not modelled. */
  datatype AnalogSignal = AnalogSignal(name: string, description: string)

  /** A list of spike times; the times and units are not modelled. */
  datatype SpikeTrain = SpikeTrain(name: string, description: string)

  /** The contents of a Segment at one moment. */
  datatype SegmentData = SegmentData(analogsignals: seq<AnalogSignal>, spiketrains: seq<SpikeTrain>)

  /** The contents of a Block at one moment, as `io.read()` yields it. */
  datatype BlockData = BlockData(name: Option<string>, segments: seq<SegmentData>)

  class Segment {
    var analogsignals: seq<AnalogSignal>
    var spiketrains: seq<SpikeTrain>

    /** `neo.Segment()`: no signals, no spike trains. */
    constructor ()
      ensures analogsignals == [] && spiketrains == []
    {
      analogsignals := [];
      spiketrains := [];
    }

    function Data(): SegmentData
      reads this
    {
      SegmentData(analogsignals, spiketrains)
    }
  }

  /** The contents of a list of Segment objects. */
  function SegmentsData(segments: seq<Segment>): (r: seq<SegmentData>)
    reads segments
    ensures |r| == |segments|
    ensures forall i :: 0 <= i < |segments| ==> r[i] == segments[i].Data()
  {
    seq(|segments|, i reads segments requires 0 <= i < |segments| => segments[i].Data())
  }

  class Block {
    var name: Option<string>
    var segments: seq<Segment>

    /** `neo.Block()`: no name, no segments. */
    constructor ()
      ensures name == None && segments == []
    {
      name := None;
      segments := [];
    }

    function View(): BlockData
      reads this, segments
    {
      BlockData(name, SegmentsData(segments))
    }
  }
}

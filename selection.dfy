/**
 * `select_data` (tools/elephant/image/utils.py): resolve a segment token and
 * a spike-train or analog-signal token against a Block, with Python
 * list-subscript semantics, and normalise the shape of the answer.
 */
module Selection {
  import opened Wrappers
  import opened Slicing
  import opened Neo
  import Strings

  /**
   * Every failure `select_data` raises is a `ValueError`; the tag says which
   * step failed (an unparsable token, an integer index outside the segment
   * list or outside a series list, a zero slice step, no series index given).
   */
  datatype SelectError =
    | InvalidSliceString
    | SegmentIndexOutOfRange
    | SeriesIndexOutOfRange
    | ZeroSliceStep
    | NoSeriesIndex

  /**
   * The returned list. Each entry is one object, or the list a per-segment
   * slice produced (the spike-train and multi-segment branches do not flatten).
   */
  datatype Selected = Spikes(spikeEntries: seq<Picked<SpikeTrain>>) | Analogs(analogEntries: seq<Picked<AnalogSignal>>)

  /** A flat list of objects as a list of entries. */
  function Entries<T>(xs: seq<T>): (r: seq<Picked<T>>)
    ensures |r| == |xs|
    ensures forall k :: 0 <= k < |xs| ==> r[k] == One(xs[k])
  {
    seq(|xs|, k requires 0 <= k < |xs| => One(xs[k]))
  }

  /** A lone object is wrapped in a one-element list; a slice is already a list. */
  function AsList<T>(p: Picked<T>): (r: seq<T>)
    ensures p.One? ==> r == [p.item]
    ensures p.Many? ==> r == p.items
  {
    match p
    case One(x) => [x]
    case Many(xs) => xs
  }

  function SeriesFailure(f: IndexFailure): SelectError
  {
    match f
    case OutOfRange => SeriesIndexOutOfRange
    case ZeroStep => ZeroSliceStep
  }

  /** `block.segments[_parse_slice(segment_index)]`. */
  function SelectSegments(segments: seq<SegmentData>, segmentIndex: Token): (r: Result<Picked<SegmentData>, SelectError>)
    ensures r.Ok? <==> ParseSlice(segmentIndex).Some? && Subscript(segments, ParseSlice(segmentIndex).value).Ok?
    ensures r.Ok? ==> Subscript(segments, ParseSlice(segmentIndex).value) == Ok(r.value)
    ensures r.Err? ==> r.error in {InvalidSliceString, SegmentIndexOutOfRange, ZeroSliceStep}
  {
    match ParseSlice(segmentIndex)
    case None => Err(InvalidSliceString)
    case Some(ix) =>
      match Subscript(segments, ix)
      case Ok(p) => Ok(p)
      case Err(OutOfRange) => Err(SegmentIndexOutOfRange)
      case Err(ZeroStep) => Err(ZeroSliceStep)
  }

  /**
   * `[segment.<series>[_parse_slice(index)] for segment in segments]`: one
   * entry per segment, in segment order; the first segment whose series list
   * rejects the index aborts the whole comprehension. The token is parsed
   * once per segment, so an empty segment list never parses it.
   */
  function PerSegment<T>(segments: seq<SegmentData>, index: Token, series: SegmentData -> seq<T>): (r: Result<seq<Picked<T>>, SelectError>)
    ensures r.Ok? ==> |r.value| == |segments|
    ensures r.Ok? && segments != [] ==>
              ParseSlice(index).Some? &&
              forall k :: 0 <= k < |segments| ==> Subscript(series(segments[k]), ParseSlice(index).value) == Ok(r.value[k])
    ensures r.Err? ==> r.error in {InvalidSliceString, SeriesIndexOutOfRange, ZeroSliceStep}
    ensures r.Err? && index.IntToken? ==> r.error == SeriesIndexOutOfRange
    decreases |segments|
  {
    if segments == [] then Ok([])
    else
      match ParseSlice(index)
      case None => Err(InvalidSliceString)
      case Some(ix) =>
        match Subscript(series(segments[0]), ix)
        case Err(f) => Err(SeriesFailure(f))
        case Ok(p) =>
          match PerSegment(segments[1..], index, series)
          case Err(e) => Err(e)
          case Ok(rest) => Ok([p] + rest)
  }

  function SpikeTrainsOf(segment: SegmentData): seq<SpikeTrain>
  {
    segment.spiketrains
  }

  function AnalogSignalsOf(segment: SegmentData): seq<AnalogSignal>
  {
    segment.analogsignals
  }

  /**
   * `select_data(block, segment_index, spike_train_index, analog_signal_index)`;
   * `None` for either series index means the argument was not given.
   */
  function SelectData(block: BlockData, segmentIndex: Token, spikeTrainIndex: Option<Token>, analogSignalIndex: Option<Token>)
    : (r: Result<Selected, SelectError>)
    ensures r == Err(NoSeriesIndex) <==> spikeTrainIndex.None? && analogSignalIndex.None?
    ensures spikeTrainIndex.Some? && r.Ok? ==> r.value.Spikes?
    ensures spikeTrainIndex.None? && r.Ok? ==> r.value.Analogs?
  {
    if spikeTrainIndex.Some? then
      match SelectSegments(block.segments, segmentIndex)
      case Err(e) => Err(e)
      case Ok(picked) =>
        match PerSegment(AsList(picked), spikeTrainIndex.value, SpikeTrainsOf)
        case Err(e) => Err(e)
        case Ok(entries) => Ok(Spikes(entries))
    else if analogSignalIndex.Some? then
      match SelectSegments(block.segments, segmentIndex)
      case Err(e) => Err(e)
      case Ok(One(segment)) =>
        (match ParseSlice(analogSignalIndex.value)
         case None => Err(InvalidSliceString)
         case Some(ix) =>
           match Subscript(segment.analogsignals, ix)
           case Err(f) => Err(SeriesFailure(f))
           case Ok(One(signal)) => Ok(Analogs([One(signal)]))
           case Ok(Many(signals)) => Ok(Analogs(Entries(signals))))
      case Ok(Many(segments)) =>
        match PerSegment(segments, analogSignalIndex.value, AnalogSignalsOf)
        case Err(e) => Err(e)
        case Ok(entries) => Ok(Analogs(entries))
    else Err(NoSeriesIndex)
  }

  // ---------------------------------------------------------------- properties

  /** Python's reading of a valid integer index `i` into a list of length `n`. */
  function Normalize(i: int, n: nat): int
  {
    if i < 0 then i + n else i
  }

  /**
   * One segment and one signal by integer: a list with exactly that signal
   * (negative indices count from the end).
   */
  lemma SelectOneSignal(block: BlockData, s: int, i: int)
    requires -|block.segments| <= s < |block.segments|
    requires -|block.segments[Normalize(s, |block.segments|)].analogsignals| <= i
             < |block.segments[Normalize(s, |block.segments|)].analogsignals|
    ensures var signals := block.segments[Normalize(s, |block.segments|)].analogsignals;
            SelectData(block, IntToken(s), None, Some(IntToken(i))) == Ok(Analogs([One(signals[Normalize(i, |signals|)])]))
  {
  }

  /**
   * One segment and the inclusive range `"a:b"` of signals: the flat list of
   * signals `a` through `b`, cut short at the end of the list.
   */
  lemma SelectSignalRange(block: BlockData, s: nat, a: nat, b: nat)
    requires s < |block.segments|
    requires a <= b
    ensures var signals := block.segments[s].analogsignals;
            var hi := if b + 1 <= |signals| then b + 1 else |signals|;
            SelectData(block, IntToken(s), None, Some(StrToken(Strings.IntToString(a) + ":" + Strings.IntToString(b))))
              == Ok(Analogs(Entries(if a <= hi then signals[a..hi] else [])))
  {
    ParseRange(a, b);
    InclusiveRangeSelects(block.segments[s].analogsignals, a, b);
  }

  /** One segment and `"all"`: every signal of that segment, flat and in order. */
  lemma SelectAllSignals(block: BlockData, s: nat)
    requires s < |block.segments|
    ensures SelectData(block, IntToken(s), None, Some(StrToken("all")))
              == Ok(Analogs(Entries(block.segments[s].analogsignals)))
  {
    AllIsFullSlice();
    FullSliceSelectsEverything(block.segments[s].analogsignals);
  }

  /**
   * The segment range `"a:b"` and one signal index valid in each of those
   * segments: the `i`-th signal of every selected segment, in segment order.
   */
  lemma SelectAcrossSegments(block: BlockData, a: nat, b: nat, i: nat)
    requires a <= b < |block.segments|
    requires forall k :: a <= k <= b ==> i < |block.segments[k].analogsignals|
    ensures var picked := SelectData(block, StrToken(Strings.IntToString(a) + ":" + Strings.IntToString(b)), None, Some(IntToken(i)));
            picked.Ok? && picked.value.Analogs? &&
            |picked.value.analogEntries| == b - a + 1 &&
            forall k :: 0 <= k <= b - a ==> picked.value.analogEntries[k] == One(block.segments[a + k].analogsignals[i])
  {
    ParseRange(a, b);
    AcrossSegmentSpan(block, StrToken(Strings.IntToString(a) + ":" + Strings.IntToString(b)), a, b, i);
  }

  lemma AcrossSegmentSpan(block: BlockData, token: Token, a: nat, b: nat, i: nat)
    requires a <= b < |block.segments|
    requires forall k :: a <= k <= b ==> i < |block.segments[k].analogsignals|
    requires ParseSlice(token) == Some(Span(Some(a), Some(b + 1), None))
    ensures var picked := SelectData(block, token, None, Some(IntToken(i)));
            picked.Ok? && picked.value.Analogs? &&
            |picked.value.analogEntries| == b - a + 1 &&
            forall k :: 0 <= k <= b - a ==> picked.value.analogEntries[k] == One(block.segments[a + k].analogsignals[i])
  {
    var segments := block.segments[a..b + 1];
    SegmentRange(block.segments, token, a, b);
    SignalPerSegment(segments, i);
    var per := PerSegment(segments, IntToken(i), AnalogSignalsOf);
    AnalogsOfSegmentRange(block, token, segments, IntToken(i));
    forall k | 0 <= k <= b - a
      ensures per.value[k] == One(block.segments[a + k].analogsignals[i])
    {
      assert segments[k] == block.segments[a + k];
    }
  }

  /** The segment token `"a:b"` within the segment list selects segments `a` through `b`. */
  lemma SegmentRange(segments: seq<SegmentData>, token: Token, a: nat, b: nat)
    requires a <= b < |segments|
    requires ParseSlice(token) == Some(Span(Some(a), Some(b + 1), None))
    ensures SelectSegments(segments, token) == Ok(Many(segments[a..b + 1]))
  {
    InclusiveRangeSelects(segments, a, b);
  }

  /** A segment range selected by the segment token hands the signal token to every selected segment. */
  lemma AnalogsOfSegmentRange(block: BlockData, token: Token, segments: seq<SegmentData>, index: Token)
    requires SelectSegments(block.segments, token) == Ok(Many(segments))
    requires PerSegment(segments, index, AnalogSignalsOf).Ok?
    ensures SelectData(block, token, None, Some(index)) == Ok(Analogs(PerSegment(segments, index, AnalogSignalsOf).value))
  {
  }

  /** One integer signal index valid in every segment picks that signal from each, in segment order. */
  lemma SignalPerSegment(segments: seq<SegmentData>, i: nat)
    requires forall k :: 0 <= k < |segments| ==> i < |segments[k].analogsignals|
    ensures var per := PerSegment(segments, IntToken(i), AnalogSignalsOf);
            per.Ok? && |per.value| == |segments| &&
            forall k :: 0 <= k < |segments| ==> per.value[k] == One(segments[k].analogsignals[i])
  {
    PerSegmentAccepts(segments, IntToken(i), AnalogSignalsOf);
    var per := PerSegment(segments, IntToken(i), AnalogSignalsOf);
    forall k | 0 <= k < |segments|
      ensures per.value[k] == One(segments[k].analogsignals[i])
    {
      assert Subscript(AnalogSignalsOf(segments[k]), Single(i)) == Ok(per.value[k]);
    }
  }

  /**
   * The spike-train branch keeps one entry per segment and does not flatten:
   * a range of spike trains in one segment comes back as a list inside the list.
   */
  lemma SpikeTrainRangeNotFlattened(block: BlockData, s: nat, a: nat, b: nat)
    requires s < |block.segments|
    requires a <= b < |block.segments[s].spiketrains|
    ensures SelectData(block, IntToken(s), Some(StrToken(Strings.IntToString(a) + ":" + Strings.IntToString(b))), None)
              == Ok(Spikes([Many(block.segments[s].spiketrains[a..b + 1])]))
  {
    ParseRange(a, b);
    SpikeTrainSpan(block, s, StrToken(Strings.IntToString(a) + ":" + Strings.IntToString(b)), a, b);
  }

  lemma SpikeTrainSpan(block: BlockData, s: nat, token: Token, a: nat, b: nat)
    requires s < |block.segments|
    requires a <= b < |block.segments[s].spiketrains|
    requires ParseSlice(token) == Some(Span(Some(a), Some(b + 1), None))
    ensures SelectData(block, IntToken(s), Some(token), None) == Ok(Spikes([Many(block.segments[s].spiketrains[a..b + 1])]))
  {
    var segment := block.segments[s];
    InclusiveRangeSelects(segment.spiketrains, a, b);
    var trains := Many(segment.spiketrains[a..b + 1]);
    assert Subscript(SpikeTrainsOf(segment), Span(Some(a), Some(b + 1), None)) == Ok(trains);
    assert SelectSegments(block.segments, IntToken(s)) == Ok(One(segment));
    assert [segment][1..] == [];
    assert PerSegment([segment][1..], token, SpikeTrainsOf) == Ok([]);
    assert [trains] + [] == [trains];
    assert PerSegment([segment], token, SpikeTrainsOf) == Ok([trains]);
  }

  /**
   * No partial lists: the per-segment selection succeeds exactly when the
   * segment list is empty, or the token parses and every segment's series
   * list accepts it.
   */
  lemma {:induction false} PerSegmentAccepts<T>(segments: seq<SegmentData>, index: Token, series: SegmentData -> seq<T>)
    ensures PerSegment(segments, index, series).Ok? <==>
              segments == [] ||
              (ParseSlice(index).Some? &&
               forall k :: 0 <= k < |segments| ==> Subscript(series(segments[k]), ParseSlice(index).value).Ok?)
    decreases |segments|
  {
    if segments != [] && ParseSlice(index).Some? {
      PerSegmentAccepts(segments[1..], index, series);
      var ix := ParseSlice(index).value;
      if Subscript(series(segments[0]), ix).Ok? &&
         forall k :: 1 <= k < |segments| ==> Subscript(series(segments[k]), ix).Ok? {
        assert forall k :: 0 <= k < |segments| - 1 ==> segments[1..][k] == segments[k + 1];
      }
      if PerSegment(segments[1..], index, series).Ok? {
        assert forall k :: 1 <= k < |segments| ==> segments[k] == segments[1..][k - 1];
      }
    }
  }

  /**
   * A spike-train index wins: with one given, the analog-signal index is
   * never looked at.
   */
  lemma SpikeTrainIndexTakesPrecedence(block: BlockData, segmentIndex: Token, spikeTrainIndex: Token, analogSignalIndex: Option<Token>)
    ensures SelectData(block, segmentIndex, Some(spikeTrainIndex), analogSignalIndex)
              == SelectData(block, segmentIndex, Some(spikeTrainIndex), None)
  {
  }

  /**
   * One segment by integer and an integer signal index outside its signal
   * list: an error tagged with the series dimension.
   */
  lemma SignalOutOfRangeFails(block: BlockData, s: int, i: int)
    requires -|block.segments| <= s < |block.segments|
    requires !(-|block.segments[Normalize(s, |block.segments|)].analogsignals| <= i
               < |block.segments[Normalize(s, |block.segments|)].analogsignals|)
    ensures SelectData(block, IntToken(s), None, Some(IntToken(i))) == Err(SeriesIndexOutOfRange)
  {
  }

  /**
   * Any segment token and an integer spike-train index outside the list of
   * one of the selected segments: an error tagged with the series dimension.
   */
  lemma SpikeTrainOutOfRangeFails(block: BlockData, segmentIndex: Token, i: int, k: nat)
    requires SelectSegments(block.segments, segmentIndex).Ok?
    requires k < |AsList(SelectSegments(block.segments, segmentIndex).value)|
    requires !(-|AsList(SelectSegments(block.segments, segmentIndex).value)[k].spiketrains| <= i
               < |AsList(SelectSegments(block.segments, segmentIndex).value)[k].spiketrains|)
    ensures SelectData(block, segmentIndex, Some(IntToken(i)), None) == Err(SeriesIndexOutOfRange)
  {
    SeriesOutOfRangeFails(AsList(SelectSegments(block.segments, segmentIndex).value), i, SpikeTrainsOf, k);
  }

  /**
   * An integer series index outside some selected segment's list fails the
   * whole per-segment selection, never a shorter list.
   */
  lemma SeriesOutOfRangeFails<T>(segments: seq<SegmentData>, i: int, series: SegmentData -> seq<T>, k: nat)
    requires k < |segments|
    requires !(-|series(segments[k])| <= i < |series(segments[k])|)
    ensures PerSegment(segments, IntToken(i), series) == Err(SeriesIndexOutOfRange)
  {
    PerSegmentAccepts(segments, IntToken(i), series);
  }

  /** An integer segment index outside the segment list is an error tagged with the segment dimension. */
  lemma SegmentOutOfRangeFails(block: BlockData, s: int, spikeTrainIndex: Option<Token>, analogSignalIndex: Option<Token>)
    requires !(-|block.segments| <= s < |block.segments|)
    requires spikeTrainIndex.Some? || analogSignalIndex.Some?
    ensures SelectData(block, IntToken(s), spikeTrainIndex, analogSignalIndex) == Err(SegmentIndexOutOfRange)
  {
  }
}

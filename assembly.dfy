/**
 * `prepare_data` (tools/elephant/image/utils.py): validate an action and the
 * new data, then build the Block to save.
 */
module Assembly {
  import opened Wrappers
  import opened Neo

  /**
   * `InvalidAction` and `NoData` are its two `ValueError`s. The `replace`
   * body empties the segment list and then indexes it (`IndexError`); the
   * `add` body reads `.analogsignals` off a list, or any attribute off `None`
   * (`AttributeError`).
   */
  datatype PrepareError = InvalidAction | NoData | EmptySegmentIndex | MissingAttribute

  /** `lst is not None and len(lst) != 0`. */
  predicate HasItems<T>(list: Option<seq<T>>)
  {
    list.Some? && |list.value| > 0
  }

  function ItemsOf<T>(list: Option<seq<T>>): seq<T>
  {
    match list
    case Some(xs) => xs
    case None => []
  }

  predicate KnownAction(action: Option<string>)
  {
    action == Some("new") || action == Some("replace") || action == Some("add")
  }

  /** The two checks made before anything is touched, the action first. */
  function CheckRequest(action: Option<string>, analog: Option<seq<AnalogSignal>>, spikes: Option<seq<SpikeTrain>>)
    : (r: Option<PrepareError>)
    ensures r == None <==> KnownAction(action) && (HasItems(analog) || HasItems(spikes))
    ensures r == Some(InvalidAction) <==> !KnownAction(action)
    ensures r == Some(NoData) <==> KnownAction(action) && !HasItems(analog) && !HasItems(spikes)
  {
    if !KnownAction(action) then Some(InvalidAction)
    else if !HasItems(analog) && !HasItems(spikes) then Some(NoData)
    else None
  }

  /** The Block `new` produces: unnamed, one Segment, the signals then the spike trains in the given order. */
  function NewBlockView(analog: Option<seq<AnalogSignal>>, spikes: Option<seq<SpikeTrain>>): BlockData
  {
    BlockData(None, [SegmentData(ItemsOf(analog), ItemsOf(spikes))])
  }

  /** The `new` branch: a fresh Block, one fresh Segment, extended with the signals and then the spike trains. */
  method BuildNewBlock(analog: Option<seq<AnalogSignal>>, spikes: Option<seq<SpikeTrain>>) returns (block: Block)
    ensures fresh(block) && block.View() == NewBlockView(analog, spikes)
    ensures forall k :: 0 <= k < |block.segments| ==> fresh(block.segments[k])
  {
    block := new Block();
    var segment := new Segment();
    block.segments := block.segments + [segment];
    if HasItems(analog) {
      block.segments[0].analogsignals := block.segments[0].analogsignals + analog.value;
    }
    if HasItems(spikes) {
      block.segments[0].spiketrains := block.segments[0].spiketrains + spikes.value;
    }
    assert block.segments == [segment];
    assert segment.Data() == SegmentData(ItemsOf(analog), ItemsOf(spikes));
    assert SegmentsData(block.segments)[0] == segment.Data();
  }

  /** `prepare_data(old_block, analog_signal, spike_train, action)`. */
  method PrepareData(oldBlock: Block?, analog: Option<seq<AnalogSignal>>, spikes: Option<seq<SpikeTrain>>, action: Option<string>)
    returns (r: Result<Block, PrepareError>)
    modifies oldBlock
    ensures CheckRequest(action, analog, spikes).Some? ==>
              r == Err(CheckRequest(action, analog, spikes).value) && (oldBlock != null ==> unchanged(oldBlock))
    ensures CheckRequest(action, analog, spikes).None? && action == Some("new") ==>
              r.Ok? && fresh(r.value) && r.value.View() == NewBlockView(analog, spikes) &&
              (oldBlock != null ==> unchanged(oldBlock) && oldBlock.View() == old(oldBlock.View()))
    ensures CheckRequest(action, analog, spikes).None? && action == Some("replace") ==>
              if oldBlock == null then r == Err(MissingAttribute)
              else r == Err(EmptySegmentIndex) && oldBlock.segments == [] && oldBlock.name == old(oldBlock.name)
    ensures CheckRequest(action, analog, spikes).None? && action == Some("add") ==>
              r == Err(MissingAttribute) && (oldBlock != null ==> unchanged(oldBlock))
  {
    var problem := CheckRequest(action, analog, spikes);
    if problem.Some? {
      return Err(problem.value);
    }
    if action == Some("new") {
      var block := BuildNewBlock(analog, spikes);
      return Ok(block);
    } else if action == Some("replace") {
      if oldBlock == null {
        return Err(MissingAttribute);
      }
      oldBlock.segments := [];
      return Err(EmptySegmentIndex);
    } else {
      return Err(MissingAttribute);
    }
  }
}

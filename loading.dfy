/**
 * The block choice at the end of `load_data` (tools/elephant/image/utils.py):
 * given the list of Blocks the reader returned, pick one by index, the first
 * one with a name, or all of them.
 */
module Loading {
  import opened Wrappers
  import opened Neo

  datatype Loaded = OneBlock(block: BlockData) | AllBlocks(blocks: seq<BlockData>)

  /** The three `ValueError`s of the block choice. */
  datatype LoadError = IndexAndName | InvalidBlockIndex | BlockNameNotFound

  /** Python truthiness of an optional `int`: `None` and `0` are false. */
  predicate IndexIsTruthy(blockIndex: Option<int>)
  {
    blockIndex.Some? && blockIndex.value != 0
  }

  /** Python truthiness of an optional `str`: `None` and `""` are false. */
  predicate NameIsTruthy(blockName: Option<string>)
  {
    blockName.Some? && blockName.value != ""
  }

  /** `next((block for block in blocks if block.name == name), None)`, as a position. */
  function FirstNamed(blocks: seq<BlockData>, name: string): (r: Option<nat>)
    ensures r.Some? ==> r.value < |blocks| && blocks[r.value].name == Some(name)
    ensures r.Some? ==> forall j :: 0 <= j < r.value ==> blocks[j].name != Some(name)
    ensures r.None? ==> forall j :: 0 <= j < |blocks| ==> blocks[j].name != Some(name)
  {
    if blocks == [] then None
    else if blocks[0].name == Some(name) then Some(0)
    else
      match FirstNamed(blocks[1..], name)
      case Some(k) => Some(k + 1)
      case None => None
  }

  /**
   * `load_data`'s choice among `io.read()`'s blocks. Index and name are
   * tested together by truthiness, so index 0 with a name selects by index;
   * a negative index counts from the end as Python lists do.
   */
  function ChooseBlocks(blocks: seq<BlockData>, blockIndex: Option<int>, blockName: Option<string>)
    : (r: Result<Loaded, LoadError>)
    ensures r == Err(IndexAndName) <==> IndexIsTruthy(blockIndex) && NameIsTruthy(blockName)
    ensures r == Ok(AllBlocks(blocks)) <==> blockIndex.None? && blockName.None?
    ensures blockIndex.Some? && !(IndexIsTruthy(blockIndex) && NameIsTruthy(blockName)) ==>
              (r.Ok? <==> -|blocks| <= blockIndex.value < |blocks|) &&
              (r.Ok? ==> r.value == OneBlock(blocks[if blockIndex.value < 0 then blockIndex.value + |blocks| else blockIndex.value])) &&
              (r.Err? ==> r.error == InvalidBlockIndex)
    ensures blockIndex.None? && blockName.Some? ==>
              (r.Ok? <==> exists j :: 0 <= j < |blocks| && blocks[j].name == blockName) &&
              (r.Err? ==> r.error == BlockNameNotFound)
    ensures blockIndex.None? && blockName.Some? && r.Ok? ==>
              exists j :: 0 <= j < |blocks| && r.value == OneBlock(blocks[j]) && blocks[j].name == blockName &&
                          forall i :: 0 <= i < j ==> blocks[i].name != blockName
  {
    if IndexIsTruthy(blockIndex) && NameIsTruthy(blockName) then Err(IndexAndName)
    else if blockIndex.Some? then
      var i := blockIndex.value;
      if -|blocks| <= i < |blocks| then Ok(OneBlock(blocks[if i < 0 then i + |blocks| else i]))
      else Err(InvalidBlockIndex)
    else if blockName.Some? then
      match FirstNamed(blocks, blockName.value)
      case Some(k) => Ok(OneBlock(blocks[k]))
      case None => Err(BlockNameNotFound)
    else Ok(AllBlocks(blocks))
  }

  /** Index 0 is falsy: combined with a name it does not raise, and the name is ignored. */
  lemma ZeroIndexIgnoresName(blocks: seq<BlockData>, blockName: string)
    ensures ChooseBlocks(blocks, Some(0), Some(blockName)) == ChooseBlocks(blocks, Some(0), None)
  {
  }
}

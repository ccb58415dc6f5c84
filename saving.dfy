/**
 * `save_data` (tools/elephant/image/utils.py) up to the write itself: the
 * checks of action, format and file existence, in the order the code makes
 * them, the format inferred from the file suffix, the mode passed to the
 * writer, and the wrapping of a lone signal, spike train or segment in a
 * fresh Block.
 */
module Saving {
  import opened Wrappers
  import opened Neo
  import Strings

  datatype Format = NixIO | NWBIO

  /** The `ValueError`s `save_data` raises before writing. */
  datatype SaveError = InvalidAction | InvalidOutputFormat | UnknownExtension | FileAlreadyExists | FileMissing

  /** What the code ends up doing: open a writer in a mode, or (for a falsy, non-`None` format) nothing. */
  datatype WritePlan = Write(format: Format, mode: string) | NoWrite

  /** `Path(path).suffix`: from the last dot of the final component, unless that dot leads or ends it. */
  function Suffix(path: string): (r: string)
    ensures r != "" ==> r[0] == '.' && |r| >= 2 && '/' !in r && '.' !in r[1..]
  {
    var name := Strings.LastPart(path, '/');
    var i := Strings.LastIndex(name, '.');
    if 0 < i < |name| - 1 then name[i..] else ""
  }

  function FormatNamed(name: string): Option<Format>
  {
    if name == "NixIO" then Some(NixIO) else if name == "NWBIO" then Some(NWBIO) else None
  }

  /** The writer mode: overwrite for `new`/`replace`, read-write (NIX) or `"?"` (NWB) for `update`. */
  function Mode(format: Format, action: string): (r: string)
    ensures (action == "replace" || action == "new") <==> r in {"ow", "w"}
    ensures format.NixIO? ==> r in {"ow", "rw"}
    ensures format.NWBIO? ==> r in {"w", "?"}
  {
    match format
    case NixIO => if action == "replace" || action == "new" then "ow" else "rw"
    case NWBIO => if action == "replace" || action == "new" then "w" else "?"
  }

  predicate ValidAction(action: Option<string>)
  {
    action == Some("new") || action == Some("replace") || action == Some("update")
  }

  /**
   * The checks of `save_data`, in order: action, then a truthy format's name,
   * then a missing format inferred from the lower-cased suffix, then the
   * file's existence against the action. `fileExists` is `output_file.exists()`.
   */
  function PlanSave(path: string, fileExists: bool, outputFormat: Option<string>, action: Option<string>)
    : (r: Result<WritePlan, SaveError>)
    ensures !ValidAction(action) ==> r == Err(InvalidAction)
    ensures r.Ok? && r.value.Write? ==> r.value.mode == Mode(r.value.format, action.value)
    ensures r.Ok? ==> ValidAction(action) && (action == Some("new") <==> !fileExists)
    ensures r == Ok(NoWrite) <==> ValidAction(action) && outputFormat == Some("") && (action == Some("new") <==> !fileExists)
    ensures (ValidAction(action) && outputFormat.Some? && outputFormat.value != "" &&
             FormatNamed(outputFormat.value).None?) ==> r == Err(InvalidOutputFormat)
    ensures (ValidAction(action) && outputFormat.None? &&
             Strings.Lower(Suffix(path)) != ".nix" && Strings.Lower(Suffix(path)) != ".nwb") ==> r == Err(UnknownExtension)
  {
    if !ValidAction(action) then Err(InvalidAction)
    else if outputFormat.Some? && outputFormat.value != "" && FormatNamed(outputFormat.value).None? then
      Err(InvalidOutputFormat)
    else
      var format: Result<Option<Format>, SaveError> :=
        if outputFormat.None? then
          var ext := Strings.Lower(Suffix(path));
          if ext == ".nix" then Ok(Some(NixIO))
          else if ext == ".nwb" then Ok(Some(NWBIO))
          else Err(UnknownExtension)
        else Ok(FormatNamed(outputFormat.value));
      if format.Err? then Err(format.error)
      else if action == Some("new") && fileExists then Err(FileAlreadyExists)
      else if action != Some("new") && !fileExists then Err(FileMissing)
      else
        match format.value
        case Some(f) => Ok(Write(f, Mode(f, action.value)))
        case None => Ok(NoWrite)
  }

  // ---------------------------------------------------------------- wrapping

  /** The `data` argument: one of the four neo objects `save_data` accepts. */
  datatype SaveInput =
    | SaveSignal(signal: AnalogSignal)
    | SaveSpikeTrain(train: SpikeTrain)
    | SaveBlock(block: Block)
    | SaveSegment(segment: Segment)

  /** The Block handed to the writer: the Block itself, or a fresh one around the object. */
  method WrapForSaving(data: SaveInput) returns (b: Block)
    ensures data.SaveBlock? ==> b == data.block
    ensures data.SaveSignal? ==> b.View() == BlockData(None, [SegmentData([data.signal], [])])
    ensures data.SaveSpikeTrain? ==> b.View() == BlockData(None, [SegmentData([], [data.train])])
    ensures data.SaveSegment? ==> b.name == None && b.segments == [data.segment]
    ensures !data.SaveBlock? ==> fresh(b)
    ensures data.SaveSignal? || data.SaveSpikeTrain? ==> |b.segments| == 1 && fresh(b.segments[0])
  {
    match data
    case SaveBlock(block) =>
      b := block;
    case SaveSegment(segment) =>
      b := new Block();
      b.segments := b.segments + [segment];
    case SaveSignal(signal) =>
      b := new Block();
      var segment := new Segment();
      segment.analogsignals := segment.analogsignals + [signal];
      b.segments := b.segments + [segment];
      assert b.segments == [segment];
      assert segment.Data() == SegmentData([signal], []);
      assert SegmentsData(b.segments)[0] == segment.Data();
    case SaveSpikeTrain(train) =>
      b := new Block();
      var segment := new Segment();
      segment.spiketrains := segment.spiketrains + [train];
      b.segments := b.segments + [segment];
      assert b.segments == [segment];
      assert segment.Data() == SegmentData([], [train]);
      assert SegmentsData(b.segments)[0] == segment.Data();
  }

  /** What reaches the writer: the mode plan and the Block to write. */
  datatype SaveRequest = SaveRequest(plan: WritePlan, block: Block)

  /** `save_data` without the write: validate first, then wrap. */
  method SaveData(data: SaveInput, path: string, fileExists: bool, outputFormat: Option<string>, action: Option<string>)
    returns (r: Result<SaveRequest, SaveError>)
    ensures r.Err? <==> PlanSave(path, fileExists, outputFormat, action).Err?
    ensures r.Err? ==> r.error == PlanSave(path, fileExists, outputFormat, action).error
    ensures r.Ok? ==> r.value.plan == PlanSave(path, fileExists, outputFormat, action).value
    ensures r.Ok? && data.SaveBlock? ==> r.value.block == data.block
    ensures r.Ok? && data.SaveSignal? ==> r.value.block.View() == BlockData(None, [SegmentData([data.signal], [])])
    ensures r.Ok? && data.SaveSpikeTrain? ==> r.value.block.View() == BlockData(None, [SegmentData([], [data.train])])
    ensures r.Ok? && data.SaveSegment? ==> r.value.block.segments == [data.segment]
    ensures r.Ok? && !data.SaveBlock? ==> fresh(r.value.block)
    ensures r.Ok? && (data.SaveSignal? || data.SaveSpikeTrain?) ==> |r.value.block.segments| == 1 && fresh(r.value.block.segments[0])
  {
    var plan := PlanSave(path, fileExists, outputFormat, action);
    if plan.Err? {
      return Err(plan.error);
    }
    var b := WrapForSaving(data);
    r := Ok(SaveRequest(plan.value, b));
  }

  // ---------------------------------------------------------------- properties

  /**
   * A dotted extension after a non-empty stem is the path's suffix; the stem
   * may hold dots of its own (`run.v2.nix` has the suffix `.nix`).
   */
  lemma SuffixOfStemAndExtension(dir: string, stem: string, ext: string)
    requires dir == "" || dir[|dir| - 1] == '/'
    requires stem != [] && '/' !in stem
    requires |ext| >= 2 && ext[0] == '.' && '/' !in ext && '.' !in ext[1..]
    ensures Suffix(dir + stem + ext) == ext
  {
    var name := stem + ext;
    assert dir + stem + ext == dir + name;
    FinalComponent(dir, name);
    Strings.LastIndexOfTail(stem, ext, '.');
    assert name[|stem|..] == ext;
  }

  /**
   * No suffix: a final component without a dot, one whose only dot leads it
   * (`.nix`), or one that ends in a dot.
   */
  lemma NoSuffix(dir: string, name: string)
    requires dir == "" || dir[|dir| - 1] == '/'
    requires '/' !in name
    requires '.' !in name || (name[0] == '.' && '.' !in name[1..]) || name[|name| - 1] == '.'
    ensures Suffix(dir + name) == ""
  {
    FinalComponent(dir, name);
    if '.' !in name {
      Strings.LastIndexAbsent(name, '.');
    } else if name[|name| - 1] == '.' {
      Strings.LastIndexAt(name, '.', |name| - 1);
    } else {
      assert forall k :: 0 < k < |name| ==> name[k] == name[1..][k - 1];
      Strings.LastIndexAt(name, '.', 0);
    }
  }

  /** The final component of a directory followed by a name without `/` is that name. */
  lemma FinalComponent(dir: string, name: string)
    requires dir == "" || dir[|dir| - 1] == '/'
    requires '/' !in name
    ensures Strings.LastPart(dir + name, '/') == name
  {
    if dir == "" {
      assert dir + name == name;
      Strings.LastPartWhole(name, '/');
    } else {
      var d := dir[..|dir| - 1];
      assert dir + name == d + ['/'] + name;
      Strings.LastPartAfter(d, name, '/');
    }
  }

  /**
   * With no format given, `.nix` and `.nwb` in any letter case select the
   * writer, and the action decides the mode; any other suffix is rejected.
   */
  lemma InferFormat(dir: string, stem: string, ext: string, fileExists: bool, action: string)
    requires dir == "" || dir[|dir| - 1] == '/'
    requires stem != [] && '/' !in stem
    requires |ext| >= 2 && ext[0] == '.' && '/' !in ext && '.' !in ext[1..]
    requires action in {"new", "replace", "update"}
    requires (action == "new") <==> !fileExists
    ensures var r := PlanSave(dir + stem + ext, fileExists, None, Some(action));
            if Strings.Lower(ext) == ".nix" then r == Ok(Write(NixIO, Mode(NixIO, action)))
            else if Strings.Lower(ext) == ".nwb" then r == Ok(Write(NWBIO, Mode(NWBIO, action)))
            else r == Err(UnknownExtension)
  {
    SuffixOfStemAndExtension(dir, stem, ext);
  }

  /** The existence check: `new` refuses an existing file, `replace` and `update` a missing one. */
  lemma ExistenceAgainstAction(path: string, fileExists: bool, format: Format, action: string)
    requires action in {"new", "replace", "update"}
    ensures var r := PlanSave(path, fileExists, Some(if format == NixIO then "NixIO" else "NWBIO"), Some(action));
            if action == "new" && fileExists then r == Err(FileAlreadyExists)
            else if action != "new" && !fileExists then r == Err(FileMissing)
            else r == Ok(Write(format, Mode(format, action)))
  {
  }
}

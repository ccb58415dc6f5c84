# ebrains-workflow-components: a verified model of the data helpers and the provenance converter

The repository packages neuroscience analysis steps (elephant filters, rate
estimation, feature extraction) as command-line tools for CWL workflows on
EBRAINS. The elephant image tools `butterworth_filter_cli.py` and
`wavelet_transform_cli.py` share the helpers in
`tools/elephant/image/utils.py` to read a neo file, pick the signals to work
on, build the Block to write and write it (other tools carry their own
loading and saving code); a script converts the CWL
provenance record of a workflow run into the JSON accepted by the EBRAINS
provenance API. This project models those helpers and the pure and
in-place parts of the converter in Dafny and proves what they promise.

Modules, one per concern of the source:

- `Wrappers`: `Option` and `Result`.
- `Strings`: the Python string behaviour the code relies on: `split` on one
  character and its inverse `join`, `rfind`, `startswith`, `in`, ASCII
  `lower`, and the text accepted by `int()`.
- `Slicing`: `_parse_slice` and Python's list subscript (integer index or
  slice object with CPython's bound clamping).
- `Neo`: Blocks and Segments as classes whose lists are updated in place,
  with a value view for the pure selection code.
- `Selection`: `select_data`.
- `Loading`: the block choice of `load_data`, over the list `io.read()`
  returns.
- `Saving`: the validation, format inference and mode choice of
  `save_data`, and its wrapping of the data in a Block.
- `Assembly`: `prepare_data`.
- `Cwlprov`: `guess_content_type`, `guess_computation_type`,
  `uuid_from_uri`, `as_cmdline_string`, `get_workflow_step`.
- `Arguments`: the command-line argument assembly of `get_prov_for_stage`
  and the masking of the `token` entry.
- `Locations`: the in-place matching pass of `add_file_locations`.

Where the documentation and the code disagree, the model follows the code:

- `_parse_slice`'s docstring calls the stop bound exclusive, but the code
  adds 1 to it (so its own example `'1:5'` gives `slice(1, 6, None)`). The
  stop is inclusive in the model. As a consequence `"0:-1"` is
  `slice(0, 0)`, which is empty.
- An integer range token is passed through unchanged, negative ones
  included, and Python indexing then counts it from the end.
- `guess_computation_type` falls back to the label test whenever no valid
  type is among the keywords. This includes plans that have a keywords
  entry.
- `save_data` rejects a format only when it is truthy. An empty string
  passes every check, is not inferred from the suffix, and selects no
  writer, so nothing is written (`NoWrite`).
- `prepare_data` with `replace` empties the old Block's segment list and
  then indexes it, which raises `IndexError`. With `add` it reads an
  attribute off a list, which raises `AttributeError`. Both are modelled as
  these errors, and `replace` leaves the old Block emptied.

## Model

| member | source | states |
|---|---|---|
| Strings.Split | tools/elephant/image/utils.py:51 | `str.split` on one character gives at least one part and no part holds the separator |
| Strings.JoinSplit | tools/elephant/image/utils.py:51 | joining the parts of a split with the separator gives the string back |
| Strings.SplitJoin | examples/scripts/convert_cwlprov_to_ebrains.py:110-114 | splitting a join of separator-free parts gives the parts back |
| Strings.ParseIntToString | tools/elephant/image/utils.py:53-55 | `int()` reads back every integer's decimal text |
| Strings.LastIndex | examples/scripts/convert_cwlprov_to_ebrains.py:39 | `rfind`: -1 or an index holding the character, with no occurrence after it |
| Strings.Lower | tools/elephant/image/utils.py:282 | same length, each character mapped to its ASCII lower case |
| Strings.LastPartAfter | examples/scripts/convert_cwlprov_to_ebrains.py:488 | `split(sep)[-1]` of `front + sep + last`, with no separator in `last`, is `last` |
| Strings.LastPartWhole | examples/scripts/convert_cwlprov_to_ebrains.py:488 | `split(sep)[-1]` of a string without the separator is the string |
| Slicing.ParseSlice | tools/elephant/image/utils.py:45-61 | an integer token is returned unchanged as a single index, a slice object unchanged as that slice; a string token that parses is a slice |
| Slicing.EmptyPartsAreNone | tools/elephant/image/utils.py:51-57 | in `start:stop:step`, every empty part is `None` and every integer part is read, the stop moved one on (`"::2"`, `"1::2"`) |
| Slicing.EmptyPartsAreNoneTwoParts | tools/elephant/image/utils.py:51-57 | in `start:stop`, every empty part is `None` and the step is `None` (`"2:"`, `":5"`) |
| Slicing.ParseSliceFails | tools/elephant/image/utils.py:51-59 | a string token is rejected exactly when one of its first three colon-separated parts is non-empty and not an integer |
| Slicing.ParseRange | tools/elephant/image/utils.py:51-57 | `"a:b"` parses to `slice(a, b + 1, None)`: the stop is inclusive |
| Slicing.ParseRangeWithStep | tools/elephant/image/utils.py:51-57 | `"a:b:c"` parses to `slice(a, b + 1, c)` |
| Slicing.ParseColonless | tools/elephant/image/utils.py:51-57 | a colon-less token `"a"` is `slice(a, None, None)`, from `a` to the end, not one index |
| Slicing.ExtraPartsIgnored | tools/elephant/image/utils.py:51-55 | parts after the third do not change the result |
| Slicing.AllIsFullSlice | tools/elephant/image/utils.py:49-50 | `"all"` parses to the full slice `slice(None, None, None)` |
| Slicing.FullSliceSelectsEverything | tools/elephant/image/utils.py:103 | the full slice selects the whole list, in order |
| Slicing.SameLeadingParts | tools/elephant/image/utils.py:51-55 | two string tokens whose first three parts agree parse alike |
| Slicing.ZeroToMinusOneIsEmpty | tools/elephant/image/utils.py:54 | `"0:-1"` becomes `slice(0, 0)` and selects nothing |
| Slicing.Subscript | tools/elephant/image/utils.py:103 | list subscript: an integer index succeeds iff `-n <= i < n` and yields the element at `i` modulo `n` (negative indices count from the end), else fails with `IndexError`; a slice fails iff its step is 0 and otherwise yields elements of the list |
| Slicing.SpanStepOne | tools/elephant/image/utils.py:103 | a slice with step 1 or none is the contiguous run between its clamped bounds, empty when they cross |
| Slicing.InclusiveRangeSelects | tools/elephant/image/utils.py:111-118 | the slice of `"a:b"` selects elements `a` through `b`, cut at the end of the list instead of raising |
| Slicing.ReversedRangeIsEmpty | tools/elephant/image/utils.py:54 | a range whose stop is below its start selects nothing, without error |
| Slicing.Walk | tools/elephant/image/utils.py:103 | the positions a slice visits lie between its start and stop, in the direction of the step |
| Slicing.WalkPositions | tools/elephant/image/utils.py:103 | the walk visits `i + k * step` for `k = 0, 1, ...` and ends at the first such position not before the stop, skipping none |
| Slicing.SpanItems | tools/elephant/image/utils.py:103 | for any non-zero step, item `k` of a slice is the element at the clamped start plus `k` steps, all before the clamped stop, and no further position is before it |
| Slicing.ReverseSlice | tools/elephant/image/utils.py:103 | the slice with step -1 and no bounds is the list reversed |
| Slicing.EveryOtherElement | tools/elephant/image/utils.py:103 | `slice(0, 5, 2)`, which is how the token `"0:4:2"` is read, takes positions 0, 2 and 4 of a six-element list |
| Selection.SelectSegments | tools/elephant/image/utils.py:103 | the segment selection succeeds iff the segment token parses and subscripts the segment list, and returns that subscript |
| Selection.PerSegment | tools/elephant/image/utils.py:106-109 | one entry per selected segment, each the subscript of that segment's list; an integer index that fails is an error of the series dimension |
| Selection.PerSegmentAccepts | tools/elephant/image/utils.py:119-122 | the per-segment list is built iff the token parses and every segment's list accepts it: never a partial list |
| Selection.SelectData | tools/elephant/image/utils.py:102-124 | the "no index" error iff neither series index is given; with a spike-train index the answer is spike trains, otherwise analog signals |
| Selection.SpikeTrainIndexTakesPrecedence | tools/elephant/image/utils.py:102-110 | with a spike-train index given, the analog-signal index does not change the answer |
| Selection.SelectOneSignal | tools/elephant/image/utils.py:111-118 | one segment and one signal by integer: a list of exactly that signal |
| Selection.SelectSignalRange | tools/elephant/image/utils.py:111-118 | one segment and `"a:b"`: the flat list of signals `a` through `b`, in order |
| Selection.SelectAllSignals | tools/elephant/image/utils.py:111-118 | one segment and `"all"`: every signal of that segment, flat and in order |
| Selection.SelectAcrossSegments | tools/elephant/image/utils.py:119-122 | a segment range and one signal index: signal `i` of each selected segment, in segment order |
| Selection.SignalPerSegment | tools/elephant/image/utils.py:119-122 | an integer signal index valid in every segment yields that signal from each segment, in segment order |
| Selection.SpikeTrainRangeNotFlattened | tools/elephant/image/utils.py:102-109 | the spike-train branch keeps one entry per segment: a range in one segment is a list inside the list |
| Selection.SeriesOutOfRangeFails | tools/elephant/image/utils.py:119-122 | in the per-segment comprehension, an integer series index outside any selected segment's list is an error of the series dimension, not a shorter list |
| Selection.SignalOutOfRangeFails | tools/elephant/image/utils.py:111-117 | one segment by integer and a signal index outside its signal list: an error of the series dimension |
| Selection.SpikeTrainOutOfRangeFails | tools/elephant/image/utils.py:102-109 | any segment selection and a spike-train index outside one selected segment's list: an error of the series dimension |
| Selection.SegmentOutOfRangeFails | tools/elephant/image/utils.py:125-137 | an integer segment index outside the segment list is an error of the segment dimension |
| Loading.FirstNamed | tools/elephant/image/utils.py:215-217 | the position of the first block with the name, or none when no block has it |
| Loading.ChooseBlocks | tools/elephant/image/utils.py:202-232 | index and name both truthy is an error; a given index selects like a Python index and fails iff out of range; a name selects the first block with it and fails iff none has it; neither gives all blocks |
| Loading.ZeroIndexIgnoresName | tools/elephant/image/utils.py:202-206 | index 0 with a name does not raise and selects by index |
| Saving.Suffix | tools/elephant/image/utils.py:282 | a non-empty suffix starts with a dot, has at least one character after it, and holds no other dot and no `/` |
| Saving.Mode | tools/elephant/image/utils.py:313-321 | the writer is opened in an overwriting mode (`ow` for NIX, `w` for NWB) iff the action is `new` or `replace`; otherwise `rw` for NIX and `?` for NWB |
| Saving.PlanSave | tools/elephant/image/utils.py:273-322 | an invalid action is rejected first; a plan that writes uses the mode its format and action call for; success requires `new` exactly when the file is missing; nothing is written iff the format is the empty string and the checks pass; a named format other than NixIO and NWBIO is rejected; with no format, a suffix other than `.nix` or `.nwb` (any case) is rejected whether or not the file exists |
| Saving.SuffixOfStemAndExtension | tools/elephant/image/utils.py:282 | the suffix of `dir/stem.ext` is `.ext` for any non-empty stem, dots in the stem included |
| Saving.NoSuffix | tools/elephant/image/utils.py:282 | a final component without a dot, with only a leading dot, or ending in a dot has no suffix |
| Saving.InferFormat | tools/elephant/image/utils.py:281-290 | with no format, a `.nix` or `.nwb` suffix in any letter case after any non-empty stem selects the writer and mode, any other suffix is rejected |
| Saving.ExistenceAgainstAction | tools/elephant/image/utils.py:292-297 | `new` on an existing file and `replace`/`update` on a missing file are rejected; otherwise the named format is written in the action's mode |
| Saving.WrapForSaving | tools/elephant/image/utils.py:299-311 | a Block is written as is; a Segment goes into a freshly allocated Block; a signal or spike train goes into a fresh Segment, the only one of a fresh Block |
| Saving.SaveData | tools/elephant/image/utils.py:273-322 | fails iff the checks fail, with their error; otherwise the checks' plan and the wrapped Block, freshly allocated unless the data was a Block |
| Assembly.CheckRequest | tools/elephant/image/utils.py:402-407 | the action error iff the action is not `new`, `replace` or `add`; the no-data error iff both lists are missing or empty; no error otherwise |
| Assembly.BuildNewBlock | tools/elephant/image/utils.py:409-417 | the `new` branch builds a fresh Block whose single Segment holds the signals and then the spike trains, in the given order |
| Assembly.PrepareData | tools/elephant/image/utils.py:402-431 | rejected requests leave the old Block untouched; `new` returns a fresh Block holding one Segment with the signals then the spike trains, old Block unchanged; `replace` empties the old Block's segments and fails; `add` fails without change |
| Cwlprov.AsCmdlineString | examples/scripts/convert_cwlprov_to_ebrains.py:110-114 | a non-list is its `str`; a one-item list is the item's `str`; an empty list is the empty string |
| Cwlprov.CmdlineStringSplits | examples/scripts/convert_cwlprov_to_ebrains.py:110-114 | splitting the command-line string of a list on spaces gives each item's `str` back when none holds a space |
| Cwlprov.UuidFromUri | examples/scripts/convert_cwlprov_to_ebrains.py:116-120 | an `http` URI gives a text without `/`; any other string is returned unchanged |
| Cwlprov.UuidOfResource | examples/scripts/convert_cwlprov_to_ebrains.py:116-120 | the UUID of `base/id` is `id` |
| Cwlprov.UuidFromUriIdempotent | examples/scripts/convert_cwlprov_to_ebrains.py:116-120 | applying it twice equals applying it once |
| Cwlprov.ExtensionAt | examples/scripts/convert_cwlprov_to_ebrains.py:39 | with a non-dot between the last `/` and the last dot, the extension runs from that dot to the end |
| Cwlprov.Extension | examples/scripts/convert_cwlprov_to_ebrains.py:39 | the extension is empty or a dot followed by neither dot nor `/`, and ends the path |
| Cwlprov.ExtensionOfSplitPath | examples/scripts/convert_cwlprov_to_ebrains.py:39 | the extension of `dir/stem.ext`, with a stem that is not all dots, is `.ext` |
| Cwlprov.ExtensionWithoutDot | examples/scripts/convert_cwlprov_to_ebrains.py:39 | a final component without a dot has no extension |
| Cwlprov.ExtensionAfterLeadingDots | examples/scripts/convert_cwlprov_to_ebrains.py:39 | a final component whose last dot is preceded only by dots (`.png`, `..png`) has no extension |
| Cwlprov.GuessContentType | examples/scripts/convert_cwlprov_to_ebrains.py:24-40 | a found type is one of the table's types |
| Cwlprov.ContentTypeOfFinalExtension | examples/scripts/convert_cwlprov_to_ebrains.py:24-40 | the type of `dir/stem.ext` is the table entry for `.ext`, or none: only the final extension matters |
| Cwlprov.UpperCaseExtensionUnknown | examples/scripts/convert_cwlprov_to_ebrains.py:24-40 | the lookup is case-sensitive: `.PNG` has no type |
| Cwlprov.FirstMentioned | examples/scripts/convert_cwlprov_to_ebrains.py:45-48 | the first computation type, in tuple order, that the keywords contain, or none iff they contain none |
| Cwlprov.GuessFromLabel | examples/scripts/convert_cwlprov_to_ebrains.py:49-54 | a label containing `analysis` is data analysis; otherwise one containing `visuali` is visualization; otherwise no guess (containment stated by an occurrence offset) |
| Cwlprov.GuessComputationType | examples/scripts/convert_cwlprov_to_ebrains.py:42-54 | the result is a valid computation type or none; a keyword match decides; otherwise the label does |
| Cwlprov.KeywordsOutrankLabel | examples/scripts/convert_cwlprov_to_ebrains.py:44-48 | tuple order breaks ties between keywords, whatever the label |
| Cwlprov.GetWorkflowStep | examples/scripts/convert_cwlprov_to_ebrains.py:564-568 | the first step with the id, or none iff no step has it |
| Arguments.ArgName | examples/scripts/convert_cwlprov_to_ebrains.py:488 | the argument name has no `/` |
| Arguments.ArgNameOfId | examples/scripts/convert_cwlprov_to_ebrains.py:488 | the name of an id `base/name` is `name`, and an id without `/` is its own name |
| Arguments.BoundInputs | examples/scripts/convert_cwlprov_to_ebrains.py:484 | exactly the inputs that have an `inputBinding` |
| Arguments.BoundInputsConcat | examples/scripts/convert_cwlprov_to_ebrains.py:484 | the filter keeps order and multiplicity: it distributes over concatenation |
| Arguments.BoundInputsSingle | examples/scripts/convert_cwlprov_to_ebrains.py:484 | one input is kept iff it has an `inputBinding` |
| Arguments.SortByPosition | examples/scripts/convert_cwlprov_to_ebrains.py:484-485 | the result is ordered by position (default 0) and is a permutation of the input |
| Arguments.SortIsStable | examples/scripts/convert_cwlprov_to_ebrains.py:484-485 | inputs with the same position keep their relative order |
| Arguments.PrefixMap | examples/scripts/convert_cwlprov_to_ebrains.py:490-491 | a name has a prefix iff some input with that name has one |
| Arguments.PrefixOfLastInput | examples/scripts/convert_cwlprov_to_ebrains.py:490-491 | the prefix recorded for a name is that of the last input with the name and a prefix |
| Arguments.CollectExpectedArgs | examples/scripts/convert_cwlprov_to_ebrains.py:484-491 | the expected names are the inputs' names in order, and the prefixes are the prefix map |
| Arguments.BaseArgs | examples/scripts/convert_cwlprov_to_ebrains.py:495-498 | the list starts empty iff the base command is `python`, and otherwise holds exactly the base command |
| Arguments.Argument | examples/scripts/convert_cwlprov_to_ebrains.py:505-506 | a prefixed argument is the one string prefix, space, `str` of the value; an unprefixed one is the value |
| Arguments.Contribution | examples/scripts/convert_cwlprov_to_ebrains.py:499-510 | a missing argument adds nothing; a prefixed one adds the one prefixed string; an unprefixed list is spliced in; any other unprefixed value is appended as it is |
| Arguments.ContributionsPositional | examples/scripts/convert_cwlprov_to_ebrains.py:499-510 | when every name is provided and none is an unprefixed list, argument `k` is that of expected name `k` |
| Arguments.BuildArgs | examples/scripts/convert_cwlprov_to_ebrains.py:495-510 | the list is the base arguments followed by every expected name's contribution, in order |
| Arguments.Masked | examples/scripts/convert_cwlprov_to_ebrains.py:493-494 | same keys; the token, if present, becomes the mask; every other entry is unchanged |
| Arguments.MaskedIdempotent | examples/scripts/convert_cwlprov_to_ebrains.py:600-601 | masking twice is masking once |
| Arguments.JobObject.MaskToken | examples/scripts/convert_cwlprov_to_ebrains.py:600-601 | the dictionary is replaced in place by its masked version |
| Arguments.AssembleArguments | examples/scripts/convert_cwlprov_to_ebrains.py:481-510 | the provided dictionary ends masked and the arguments are those of the sorted inputs over the masked values |
| Arguments.TokenArgumentIsMasked | examples/scripts/convert_cwlprov_to_ebrains.py:493-494 | an unprefixed token argument reaches the command line only as the mask |
| Locations.Placed | examples/scripts/convert_cwlprov_to_ebrains.py:136-140 | a matched item gets the map's location, any other keeps its own |
| Locations.PlaceStage | examples/scripts/convert_cwlprov_to_ebrains.py:135-140 | over one stage's inputs then outputs: all placed, or stopped at a matched item that had a location |
| Locations.AddFileLocations | examples/scripts/convert_cwlprov_to_ebrains.py:133-140 | file names never change; the pass completes iff no matched item had a location; then every matched item has its location and the rest are unchanged; otherwise it stopped at the first conflict with the earlier items placed and the rest untouched |
| Locations.PassComplete | examples/scripts/convert_cwlprov_to_ebrains.py:133-140 | once every item is handled, no matched item had a location and every item holds its placed location |
| Locations.StopConflicts | examples/scripts/convert_cwlprov_to_ebrains.py:139 | a pass that stopped at an item means some matched item already had a location |
| Locations.SecondPassConflicts | examples/scripts/convert_cwlprov_to_ebrains.py:139 | after a complete pass, a second one conflicts iff some item matched |

## Left out

- Reading and writing files: `io.read()` is an input list of Blocks, file existence a boolean, and the writers' work is not modelled.
- neo's own code is not part of this model: candidate IO lookup, `InvalidFile`, the `TypeError` of a wrong reader, signal samples and units, and Block and Segment parent links.
- The text of the `ValueError` messages. `select_data` chooses its message by searching neo's `IndexError` text; the model tags the error by dimension (segment or series) instead.
- `_parse_slice` returns any value that is neither an integer nor a string unchanged; the model's tokens are integers, strings and slice objects, and values of other types (such as a `numpy.int64`, which a list accepts as an index) are not modelled.
- Strings.Lower: `str.lower()` applies Unicode case mapping; the model lowers ASCII letters only, which is all the comparison with `.nix` and `.nwb` needs.
- `int()` accepts Unicode digits and whitespace beyond ASCII; the model accepts ASCII only.
- Cwlprov.AsCmdlineString: `repr` of a string inside a list is modelled as single quotes without escaping; floats and dictionaries are not modelled.
- Saving.Suffix: the path is taken as given; `pathlib`'s normalisation (repeated or trailing slashes) and a plain `str` argument, which has no `.suffix`, are not modelled.
- Saving.WrapForSaving: a `data` of any other type, which leaves `saved_block` unbound, is not modelled.
- Loading.ChooseBlocks: a found Block is taken to be truthy.
- Cwlprov.UuidFromUri: the `None` argument, which raises `AttributeError`, is not modelled.
- Locations.AddFileLocations: requires the items to be distinct objects, as the script builds a fresh dictionary for each. The inner loop over the location map is modelled as a lookup, since the map's keys are distinct.
- The manifest-reading first pass of `add_file_locations`, which opens files; its result is the location map given as input.
- `quantity_arg` and the numerical elephant calls; the tool scripts (`butter_cli.py`, `butterworth_filter_cli.py`, `instantaneous_rate_cli.py`, `bluepyefe_cli.py`), which are argument parsing around library calls.
- The RDF classes (`File`, `Folder`, `Dictionary`, `Stage`), the container and subprocess helpers, `upload_to_kg` and `cwl_test.py`: graph queries, processes and network.
- Assertions are assumed enabled (Python without `-O`), so the failing `assert` of the location pass stops it.

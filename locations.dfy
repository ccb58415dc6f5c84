/**
 * The second pass of `add_file_locations` in
 * examples/scripts/convert_cwlprov_to_ebrains.py: every input and output
 * item of every stage whose file name is a key of the location map gets
 * that location, and the item must not have had one before.
 */
module Locations {
  import opened Wrappers

  /** An input or output item of a stage: a dictionary updated in place. */
  class FileItem {
    /** The `file_name` entry, when the item has one. */
    var fileName: Option<string>
    var location: Option<string>

    constructor (fileName: Option<string>, location: Option<string>)
      ensures this.fileName == fileName && this.location == location
    {
      this.fileName := fileName;
      this.location := location;
    }
  }

  /** A stage of the provenance report: its `input` and `output` item lists. */
  datatype Stage = Stage(input: seq<FileItem>, output: seq<FileItem>)

  /** The items in the order the pass visits them: stage by stage, inputs before outputs. */
  function Items(stages: seq<Stage>): seq<FileItem>
  {
    if stages == [] then []
    else Items(stages[..|stages| - 1]) + stages[|stages| - 1].input + stages[|stages| - 1].output
  }

  predicate Distinct(items: seq<FileItem>)
  {
    forall i, j :: 0 <= i < j < |items| ==> items[i] != items[j]
  }

  /** An item with this file name is matched: the name is a key of the location map. */
  predicate Listed(fileName: Option<string>, locationMap: map<string, string>)
  {
    fileName.Some? && fileName.value in locationMap
  }

  /** The location the pass gives an item with this file name that had `previous`. */
  function Placed(fileName: Option<string>, locationMap: map<string, string>, previous: Option<string>): (r: Option<string>)
    ensures Listed(fileName, locationMap) ==> r == Some(locationMap[fileName.value])
    ensures !Listed(fileName, locationMap) ==> r == previous
  {
    if Listed(fileName, locationMap) then Some(locationMap[fileName.value]) else previous
  }

  /** The file names of the items, in order. */
  function Names(items: seq<FileItem>): (r: seq<Option<string>>)
    reads items
    ensures |r| == |items| && forall k :: 0 <= k < |items| ==> r[k] == items[k].fileName
  {
    seq(|items|, k reads items requires 0 <= k < |items| => items[k].fileName)
  }

  /** The locations of the items, in order. */
  function Locations(items: seq<FileItem>): (r: seq<Option<string>>)
    reads items
    ensures |r| == |items| && forall k :: 0 <= k < |items| ==> r[k] == items[k].location
  {
    seq(|items|, k reads items requires 0 <= k < |items| => items[k].location)
  }

  /** No matched item had a location before the pass. */
  predicate NoConflict(names: seq<Option<string>>, locationMap: map<string, string>, before: seq<Option<string>>)
    requires |names| == |before|
  {
    forall k :: 0 <= k < |names| && Listed(names[k], locationMap) ==> before[k] == None
  }

  /** A pass over all items: every matched item gets its location, the rest keep theirs. */
  predicate PlacedAll(names: seq<Option<string>>, locationMap: map<string, string>, before: seq<Option<string>>, after: seq<Option<string>>)
    requires |names| == |before| == |after|
  {
    forall k :: 0 <= k < |names| ==> after[k] == Placed(names[k], locationMap, before[k])
  }

  /**
   * A pass stopped at item `f`, matched although it already had a location:
   * the items before it were placed without conflict, it and the rest are as before.
   */
  predicate StoppedAt(names: seq<Option<string>>, locationMap: map<string, string>, before: seq<Option<string>>,
                      after: seq<Option<string>>, f: int)
    requires |names| == |before| == |after|
  {
    0 <= f < |names| && Listed(names[f], locationMap) && before[f] != None &&
    (forall k :: 0 <= k < f ==> after[k] == Placed(names[k], locationMap, before[k])) &&
    (forall k :: 0 <= k < f && Listed(names[k], locationMap) ==> before[k] == None) &&
    (forall k :: f <= k < |names| ==> after[k] == before[k])
  }

  /**
   * The `assert` guards against placing twice: after a complete pass, a
   * second pass with the same map conflicts exactly when some item matched.
   */
  lemma SecondPassConflicts(names: seq<Option<string>>, locationMap: map<string, string>,
                            before: seq<Option<string>>, after: seq<Option<string>>)
    requires |names| == |before| == |after|
    requires PlacedAll(names, locationMap, before, after)
    ensures NoConflict(names, locationMap, after) <==> forall k :: 0 <= k < |names| ==> !Listed(names[k], locationMap)
  {
    if !NoConflict(names, locationMap, after) {
      var k :| 0 <= k < |names| && Listed(names[k], locationMap) && after[k] != None;
    }
    if exists k :: 0 <= k < |names| && Listed(names[k], locationMap) {
      var k :| 0 <= k < |names| && Listed(names[k], locationMap);
      assert after[k] == Some(locationMap[names[k].value]);
    }
  }

  lemma {:induction false} ItemsPrefix(stages: seq<Stage>, n: nat)
    requires n <= |stages|
    ensures Items(stages[..n]) <= Items(stages)
    decreases |stages|
  {
    if n < |stages| {
      var front := stages[..|stages| - 1];
      assert front[..n] == stages[..n];
      ItemsPrefix(front, n);
      var last := stages[|stages| - 1];
      assert Items(stages) == Items(front) + (last.input + last.output);
    } else {
      assert stages[..n] == stages;
    }
  }

  lemma ItemsStep(stages: seq<Stage>, s: nat)
    requires s < |stages|
    ensures Items(stages[..s + 1]) == Items(stages[..s]) + stages[s].input + stages[s].output
  {
    assert stages[..s + 1][..s] == stages[..s];
  }

  /** Stage `s`'s items sit among all items right after those of the stages before it. */
  lemma StageItems(stages: seq<Stage>, s: nat, all: seq<FileItem>, done: nat)
    requires s < |stages| && all == Items(stages) && done == |Items(stages[..s])|
    ensures var items := stages[s].input + stages[s].output;
            done + |items| == |Items(stages[..s + 1])| && done + |items| <= |all| &&
            forall j :: 0 <= j < |items| ==> all[done + j] == items[j]
  {
    ItemsStep(stages, s);
    ItemsPrefix(stages, s + 1);
  }

  /** Items whose file names are `names`, one by one, have `names` as their file names. */
  lemma NamesKept(all: seq<FileItem>, names: seq<Option<string>>)
    requires |all| == |names| && forall k :: 0 <= k < |all| ==> all[k].fileName == names[k]
    ensures Names(all) == names
  {
  }

  /** The pass has handled the first `done` items and no later one. */
  ghost predicate PassedUpTo(all: seq<FileItem>, names: seq<Option<string>>, locationMap: map<string, string>,
                             before: seq<Option<string>>, done: int)
    requires |names| == |before| == |all|
    reads all
  {
    0 <= done <= |all| &&
    (forall k :: 0 <= k < |all| ==> all[k].fileName == names[k]) &&
    (forall k :: 0 <= k < done ==> all[k].location == Placed(names[k], locationMap, before[k])) &&
    (forall k :: 0 <= k < done && Listed(names[k], locationMap) ==> before[k] == None) &&
    (forall k :: done <= k < |all| ==> all[k].location == before[k])
  }

  /**
   * The inner loop over one stage's `chain(stage["input"], stage["output"])`,
   * whose items sit at positions `done` onwards among all items.
   */
  method PlaceStage(items: seq<FileItem>, locationMap: map<string, string>, ghost all: seq<FileItem>,
                    ghost names: seq<Option<string>>, ghost before: seq<Option<string>>, ghost done: nat)
    returns (ok: bool)
    requires Distinct(all) && |names| == |before| == |all|
    requires done + |items| <= |all| && forall j :: 0 <= j < |items| ==> all[done + j] == items[j]
    requires PassedUpTo(all, names, locationMap, before, done)
    modifies items
    ensures forall k :: 0 <= k < |all| ==> all[k].fileName == names[k]
    ensures ok ==> PassedUpTo(all, names, locationMap, before, done + |items|)
    ensures !ok ==> exists f :: StoppedAt(names, locationMap, before, Locations(all), f)
  {
    var j := 0;
    while j < |items|
      invariant 0 <= j <= |items|
      invariant PassedUpTo(all, names, locationMap, before, done + j)
    {
      var item := items[j];
      assert item == all[done + j];
      if item.fileName.Some? {
        var name := item.fileName.value;
        if name in locationMap {
          if item.location != None {
            assert StoppedAt(names, locationMap, before, Locations(all), done + j);
            return false;
          }
          item.location := Some(locationMap[name]);
        }
      }
      j := j + 1;
    }
    return true;
  }

  /**
   * The matching pass of `add_file_locations`: every stage in turn, each
   * item of its inputs then outputs. It stops with `false` at the first
   * matched item that already has a location (the failing `assert`).
   */
  method AddFileLocations(stages: seq<Stage>, locationMap: map<string, string>) returns (ok: bool)
    requires Distinct(Items(stages))
    modifies Items(stages)
    ensures Names(Items(stages)) == old(Names(Items(stages)))
    ensures ok <==> NoConflict(Names(Items(stages)), locationMap, old(Locations(Items(stages))))
    ensures ok ==> PlacedAll(Names(Items(stages)), locationMap, old(Locations(Items(stages))), Locations(Items(stages)))
    ensures !ok ==> exists f :: StoppedAt(Names(Items(stages)), locationMap, old(Locations(Items(stages))), Locations(Items(stages)), f)
  {
    ghost var all := Items(stages);
    ghost var names := Names(all);
    ghost var before := Locations(all);
    ghost var done := 0;
    var s := 0;
    while s < |stages|
      invariant 0 <= s <= |stages|
      invariant done == |Items(stages[..s])|
      invariant PassedUpTo(all, names, locationMap, before, done)
    {
      var items := stages[s].input + stages[s].output;
      StageItems(stages, s, all, done);
      var stageOk := PlaceStage(items, locationMap, all, names, before, done);
      if !stageOk {
        NamesKept(all, names);
        StopConflicts(names, locationMap, before, Locations(all));
        return false;
      }
      done := done + |items|;
      s := s + 1;
    }
    assert stages[..s] == stages;
    PassComplete(all, names, locationMap, before);
    return true;
  }

  /** A pass that has handled every item placed them all without conflict. */
  lemma PassComplete(all: seq<FileItem>, names: seq<Option<string>>, locationMap: map<string, string>, before: seq<Option<string>>)
    requires |names| == |before| == |all|
    requires PassedUpTo(all, names, locationMap, before, |all|)
    ensures Names(all) == names
    ensures NoConflict(names, locationMap, before)
    ensures PlacedAll(names, locationMap, before, Locations(all))
  {
  }

  /** A pass that stopped at an item met a conflict. */
  lemma StopConflicts(names: seq<Option<string>>, locationMap: map<string, string>,
                      before: seq<Option<string>>, after: seq<Option<string>>)
    requires |names| == |before| == |after|
    requires exists f :: StoppedAt(names, locationMap, before, after, f)
    ensures !NoConflict(names, locationMap, before)
  {
  }
}

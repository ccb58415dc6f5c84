/**
 * The command-line argument assembly of `get_prov_for_stage` in
 * examples/scripts/convert_cwlprov_to_ebrains.py: the tool's inputs that
 * carry an `inputBinding` are ordered by position, each gives an expected
 * argument name and possibly a prefix, and the job's values for those names
 * are laid out after the base command; a `token` value is masked first.
 */
module Arguments {
  import opened Wrappers
  import opened Strings
  import opened Cwlprov

  /** A CWL `inputBinding`: its optional `position` and `prefix`. */
  datatype InputBinding = InputBinding(position: Option<int>, prefix: Option<string>)

  /** An entry of the tool's `inputs`: its `id` and its `inputBinding`, if it has one. */
  datatype ToolInput = ToolInput(id: string, binding: Option<InputBinding>)

  /** The sort key: the binding's `position`, 0 when absent. */
  function Position(t: ToolInput): int
  {
    match t.binding
    case Some(b) => b.position.GetOr(0)
    case None => 0
  }

  predicate HasPrefix(t: ToolInput)
  {
    t.binding.Some? && t.binding.value.prefix.Some?
  }

  /** `input["id"].split("/")[-1]`. */
  function ArgName(t: ToolInput): (r: string)
    ensures '/' !in r
  {
    LastPart(t.id, '/')
  }

  /** The name is what follows the last `/` of the id, or the whole id when it has none. */
  lemma ArgNameOfId(base: string, name: string, binding: Option<InputBinding>)
    requires '/' !in name
    ensures ArgName(ToolInput(base + "/" + name, binding)) == name
    ensures ArgName(ToolInput(name, binding)) == name
  {
    LastPartAfter(base, name, '/');
    LastPartWhole(name, '/');
  }

  // ---------------------------------------------------------------- ordering

  /** `[item for item in inputs if "inputBinding" in item]`. */
  function BoundInputs(inputs: seq<ToolInput>): (r: seq<ToolInput>)
    ensures forall t :: t in r <==> t in inputs && t.binding.Some?
  {
    if inputs == [] then []
    else
      var last := inputs[|inputs| - 1];
      var rest := BoundInputs(inputs[..|inputs| - 1]);
      assert forall t :: t in inputs <==> t in inputs[..|inputs| - 1] || t == last;
      if last.binding.Some? then rest + [last] else rest
  }

  /**
   * The filter keeps order and multiplicity: the bound inputs of two lists
   * one after the other are those of the first, then those of the second.
   */
  lemma {:induction false} BoundInputsConcat(a: seq<ToolInput>, b: seq<ToolInput>)
    ensures BoundInputs(a + b) == BoundInputs(a) + BoundInputs(b)
    decreases |b|
  {
    if b == [] {
      assert a + b == a;
    } else {
      var front := b[..|b| - 1];
      var last := b[|b| - 1];
      assert (a + b)[..|a + b| - 1] == a + front;
      BoundInputsConcat(a, front);
      AppendAssociative(BoundInputs(a), BoundInputs(front), if last.binding.Some? then [last] else []);
    }
  }

  /** A single input is kept exactly when it carries an `inputBinding`. */
  lemma BoundInputsSingle(t: ToolInput)
    ensures BoundInputs([t]) == if t.binding.Some? then [t] else []
  {
    assert [t][..0] == [];
  }

  predicate SortedByPosition(s: seq<ToolInput>)
  {
    forall i, j :: 0 <= i < j < |s| ==> Position(s[i]) <= Position(s[j])
  }

  /** Place `x` after every element of `s` except the trailing ones with a larger position. */
  function Insert(s: seq<ToolInput>, x: ToolInput): (r: seq<ToolInput>)
    ensures multiset(r) == multiset(s) + multiset{x}
  {
    if s == [] then [x]
    else if Position(s[|s| - 1]) <= Position(x) then s + [x]
    else
      var front := s[..|s| - 1];
      assert s == front + [s[|s| - 1]];
      Insert(front, x) + [s[|s| - 1]]
  }

  /** Inserting into a sorted list keeps it sorted. */
  lemma {:induction false} InsertSorted(s: seq<ToolInput>, x: ToolInput)
    requires SortedByPosition(s)
    ensures SortedByPosition(Insert(s, x))
    decreases |s|
  {
    if s != [] && Position(x) < Position(s[|s| - 1]) {
      var front := s[..|s| - 1];
      var last := s[|s| - 1];
      InsertSorted(front, x);
      var r := Insert(front, x);
      forall i | 0 <= i < |r|
        ensures Position(r[i]) <= Position(last)
      {
        assert r[i] in multiset(r);
        assert r[i] == x || r[i] in multiset(front);
      }
    }
  }

  /** `sorted(inputs, key=position)`: Python's sort is stable, so this is an insertion sort. */
  function SortByPosition(xs: seq<ToolInput>): (r: seq<ToolInput>)
    ensures SortedByPosition(r)
    ensures multiset(r) == multiset(xs)
  {
    if xs == [] then []
    else
      var front := xs[..|xs| - 1];
      assert xs == front + [xs[|xs| - 1]];
      InsertSorted(SortByPosition(front), xs[|xs| - 1]);
      Insert(SortByPosition(front), xs[|xs| - 1])
  }

  /** The inputs of `s` at position `p`, in their order in `s`. */
  function AtPosition(s: seq<ToolInput>, p: int): seq<ToolInput>
  {
    if s == [] then []
    else AtPosition(s[..|s| - 1], p) + (if Position(s[|s| - 1]) == p then [s[|s| - 1]] else [])
  }

  lemma AtPositionAppend(s: seq<ToolInput>, y: ToolInput, p: int)
    ensures AtPosition(s + [y], p) == AtPosition(s, p) + (if Position(y) == p then [y] else [])
  {
    assert (s + [y])[..|s|] == s;
  }

  lemma {:induction false} AtPositionInsert(s: seq<ToolInput>, x: ToolInput, p: int)
    ensures AtPosition(Insert(s, x), p) == AtPosition(s, p) + (if Position(x) == p then [x] else [])
    decreases |s|
  {
    if s == [] {
      AtPositionAppend([], x, p);
    } else {
      var last := s[|s| - 1];
      var front := s[..|s| - 1];
      assert s == front + [last];
      AtPositionAppend(front, last, p);
      if Position(last) <= Position(x) {
        AtPositionAppend(s, x, p);
      } else {
        AtPositionInsert(front, x, p);
        AtPositionAppend(Insert(front, x), last, p);
      }
    }
  }

  /** The sort is stable: inputs sharing a position keep their relative order. */
  lemma {:induction false} SortIsStable(xs: seq<ToolInput>, p: int)
    ensures AtPosition(SortByPosition(xs), p) == AtPosition(xs, p)
    decreases |xs|
  {
    if xs != [] {
      var front := xs[..|xs| - 1];
      SortIsStable(front, p);
      AtPositionInsert(SortByPosition(front), xs[|xs| - 1], p);
    }
  }

  // ---------------------------------------------------------------- expected names and prefixes

  function ArgNames(ordered: seq<ToolInput>): (r: seq<string>)
    ensures |r| == |ordered|
    ensures forall k :: 0 <= k < |r| ==> r[k] == ArgName(ordered[k])
  {
    seq(|ordered|, k requires 0 <= k < |ordered| => ArgName(ordered[k]))
  }

  /** The `arg_prefixes` dictionary after the loop: a later input with the same name overwrites. */
  function PrefixMap(ordered: seq<ToolInput>): (r: map<string, string>)
    ensures forall name :: name in r <==> exists i :: 0 <= i < |ordered| && HasPrefix(ordered[i]) && ArgName(ordered[i]) == name
  {
    if ordered == [] then map[]
    else
      var front := ordered[..|ordered| - 1];
      var t := ordered[|ordered| - 1];
      assert forall i :: 0 <= i < |front| ==> front[i] == ordered[i];
      if HasPrefix(t) then PrefixMap(front)[ArgName(t) := t.binding.value.prefix.value]
      else PrefixMap(front)
  }

  /** The prefix recorded for a name is that of the last input with the name and a prefix. */
  lemma {:induction false} PrefixOfLastInput(ordered: seq<ToolInput>, i: nat)
    requires i < |ordered| && HasPrefix(ordered[i])
    requires forall j :: i < j < |ordered| ==> !HasPrefix(ordered[j]) || ArgName(ordered[j]) != ArgName(ordered[i])
    ensures ArgName(ordered[i]) in PrefixMap(ordered)
    ensures PrefixMap(ordered)[ArgName(ordered[i])] == ordered[i].binding.value.prefix.value
    decreases |ordered|
  {
    var front := ordered[..|ordered| - 1];
    if i < |ordered| - 1 {
      assert front[i] == ordered[i];
      assert forall j :: i < j < |front| ==> front[j] == ordered[j];
      PrefixOfLastInput(front, i);
    }
  }

  /** The loop that fills `expected_args` and `arg_prefixes`. */
  method CollectExpectedArgs(ordered: seq<ToolInput>) returns (expected: seq<string>, prefixes: map<string, string>)
    ensures expected == ArgNames(ordered)
    ensures prefixes == PrefixMap(ordered)
  {
    expected := [];
    prefixes := map[];
    var i := 0;
    while i < |ordered|
      invariant 0 <= i <= |ordered|
      invariant expected == ArgNames(ordered[..i])
      invariant prefixes == PrefixMap(ordered[..i])
    {
      var t := ordered[i];
      assert ordered[..i + 1][..i] == ordered[..i];
      expected := expected + [ArgName(t)];
      if t.binding.Some? && t.binding.value.prefix.Some? {
        prefixes := prefixes[ArgName(t) := t.binding.value.prefix.value];
      }
      i := i + 1;
    }
    assert ordered[..i] == ordered;
  }

  // ---------------------------------------------------------------- the argument list

  /** `args` before the loop: empty for `python`, else the base command as one element. */
  function BaseArgs(baseCommand: Value): (r: seq<Value>)
    ensures r == [] <==> baseCommand == Str("python")
    ensures baseCommand != Str("python") ==> r == [baseCommand]
  {
    if baseCommand == Str("python") then [] else [baseCommand]
  }

  /** The argument for a provided name: `f"{prefix} {value}"` when it has a prefix, else the value. */
  function Argument(name: string, prefixes: map<string, string>, value: Value): (r: Value)
    ensures name in prefixes ==> r.Str? && StartsWith(r.s, prefixes[name] + " ")
    ensures name in prefixes ==> r == Str(prefixes[name] + " " + PyStr(value))
    ensures name !in prefixes ==> r == value
  {
    if name in prefixes then
      var s := prefixes[name] + " " + PyStr(value);
      assert s[..|prefixes[name] + " "|] == prefixes[name] + " ";
      Str(s)
    else value
  }

  /** What one expected name adds to `args`: nothing if missing, a list's items, or one value. */
  function Contribution(name: string, prefixes: map<string, string>, provided: map<string, Value>): (r: seq<Value>)
    ensures name !in provided ==> r == []
    ensures name in provided && name in prefixes ==> r == [Str(prefixes[name] + " " + PyStr(provided[name]))]
    ensures name in provided && name !in prefixes && provided[name].List? ==> r == provided[name].items
    ensures name in provided && name !in prefixes && !provided[name].List? ==> r == [provided[name]]
  {
    if name !in provided then []
    else
      var arg := Argument(name, prefixes, provided[name]);
      if arg.List? then arg.items else [arg]
  }

  function Contributions(expected: seq<string>, prefixes: map<string, string>, provided: map<string, Value>): seq<Value>
  {
    if expected == [] then []
    else Contributions(expected[..|expected| - 1], prefixes, provided)
         + Contribution(expected[|expected| - 1], prefixes, provided)
  }

  /** One more expected name appends its contribution. */
  lemma ContributionsStep(expected: seq<string>, i: nat, prefixes: map<string, string>, provided: map<string, Value>)
    requires i < |expected|
    ensures Contributions(expected[..i + 1], prefixes, provided)
         == Contributions(expected[..i], prefixes, provided) + Contribution(expected[i], prefixes, provided)
  {
    assert expected[..i + 1][..i] == expected[..i];
  }

  lemma ContributionOfArgument(name: string, prefixes: map<string, string>, provided: map<string, Value>, arg: Value)
    requires name in provided && arg == Argument(name, prefixes, provided[name])
    ensures Contribution(name, prefixes, provided) == if arg.List? then arg.items else [arg]
  {
  }

  lemma AppendAssociative<T>(a: seq<T>, b: seq<T>, c: seq<T>)
    ensures a + (b + c) == (a + b) + c
  {
  }

  /** When every name is provided and none is an unprefixed list, argument k is name k's. */
  lemma {:induction false} ContributionsPositional(expected: seq<string>, prefixes: map<string, string>, provided: map<string, Value>)
    requires forall k :: 0 <= k < |expected| ==> expected[k] in provided
    requires forall k :: 0 <= k < |expected| ==> expected[k] in prefixes || !provided[expected[k]].List?
    ensures |Contributions(expected, prefixes, provided)| == |expected|
    ensures forall k :: 0 <= k < |expected| ==>
              Contributions(expected, prefixes, provided)[k] == Argument(expected[k], prefixes, provided[expected[k]])
    decreases |expected|
  {
    if expected != [] {
      var front := expected[..|expected| - 1];
      assert forall k :: 0 <= k < |front| ==> front[k] == expected[k];
      ContributionsPositional(front, prefixes, provided);
    }
  }

  /** The `for arg_name in expected_args` loop, from `args` holding the base command. */
  method BuildArgs(expected: seq<string>, prefixes: map<string, string>, provided: map<string, Value>, baseCommand: Value)
    returns (args: seq<Value>)
    ensures args == BaseArgs(baseCommand) + Contributions(expected, prefixes, provided)
  {
    if baseCommand == Str("python") {
      args := [];
    } else {
      args := [baseCommand];
    }
    var i := 0;
    while i < |expected|
      invariant 0 <= i <= |expected|
      invariant args == BaseArgs(baseCommand) + Contributions(expected[..i], prefixes, provided)
    {
      var name := expected[i];
      ContributionsStep(expected, i, prefixes, provided);
      AppendAssociative(BaseArgs(baseCommand), Contributions(expected[..i], prefixes, provided), Contribution(name, prefixes, provided));
      if name in provided {
        var arg := Argument(name, prefixes, provided[name]);
        ContributionOfArgument(name, prefixes, provided, arg);
        if arg.List? {
          args := args + arg.items;
        } else {
          args := args + [arg];
        }
      }
      i := i + 1;
    }
    assert expected[..i] == expected;
  }

  // ---------------------------------------------------------------- masking

  const MaskedSecret: string := "<MASKED SECRET>"

  /** A job dictionary with its `token` entry, if any, replaced by the mask. */
  function Masked(entries: map<string, Value>): (r: map<string, Value>)
    ensures r.Keys == entries.Keys
    ensures "token" in entries ==> r["token"] == Str(MaskedSecret)
    ensures forall k :: k in entries && k != "token" ==> r[k] == entries[k]
  {
    if "token" in entries then entries["token" := Str(MaskedSecret)] else entries
  }

  lemma MaskedIdempotent(entries: map<string, Value>)
    ensures Masked(Masked(entries)) == Masked(entries)
  {
  }

  /** A JSON dictionary updated in place: the job config, or a stage's input values. */
  class JobObject {
    var entries: map<string, Value>

    constructor (entries: map<string, Value>)
      ensures this.entries == entries
    {
      this.entries := entries;
    }

    /** `if "token" in d: d["token"] = "<MASKED SECRET>"`. */
    method MaskToken()
      modifies this
      ensures entries == Masked(old(entries))
    {
      if "token" in entries {
        entries := entries["token" := Str(MaskedSecret)];
      }
    }
  }

  /** The argument list for a tool and the (masked) job values. */
  function ArgumentsFor(inputs: seq<ToolInput>, provided: map<string, Value>, baseCommand: Value): seq<Value>
  {
    var ordered := SortByPosition(BoundInputs(inputs));
    BaseArgs(baseCommand) + Contributions(ArgNames(ordered), PrefixMap(ordered), provided)
  }

  /**
   * Lines 481-510 of `get_prov_for_stage`: sort, collect, mask the token of
   * the provided values (which are the stage's own input dictionary), build.
   */
  method AssembleArguments(inputs: seq<ToolInput>, provided: JobObject, baseCommand: Value) returns (args: seq<Value>)
    modifies provided
    ensures provided.entries == Masked(old(provided.entries))
    ensures args == ArgumentsFor(inputs, provided.entries, baseCommand)
  {
    var ordered := SortByPosition(BoundInputs(inputs));
    var expected, prefixes := CollectExpectedArgs(ordered);
    provided.MaskToken();
    args := BuildArgs(expected, prefixes, provided.entries, baseCommand);
  }

  /** A token argument reaches the command line only as the mask. */
  lemma TokenArgumentIsMasked(entries: map<string, Value>, prefixes: map<string, string>)
    requires "token" in entries && "token" !in prefixes
    ensures Contribution("token", prefixes, Masked(entries)) == [Str(MaskedSecret)]
  {
  }
}

/**
 * The pure helpers of examples/scripts/convert_cwlprov_to_ebrains.py, which
 * turns a CWL provenance record into a JSON document for the EBRAINS
 * provenance API: the MIME-type lookup, the computation-type guess, the
 * UUID at the end of a URI, the command-line string of a job value, and
 * the lookup of a workflow step.
 */
module Cwlprov {
  import opened Wrappers
  import opened Strings

  // ---------------------------------------------------------------- JSON values

  /** A JSON value of a CWL job or tool description (floats and objects are not modelled). */
  datatype Value = Null | Bool(b: bool) | Int(i: int) | Str(s: string) | List(items: seq<Value>)

  /** Python's `repr` of the value; strings are quoted with `'` and not escaped. */
  function PyRepr(v: Value): string
    decreases v, 1
  {
    match v
    case Null => "None"
    case Bool(b) => if b then "True" else "False"
    case Int(i) => IntToString(i)
    case Str(s) => "'" + s + "'"
    case List(xs) => "[" + ReprItems(xs) + "]"
  }

  /** The `repr`s of list items separated by `", "`. */
  function ReprItems(xs: seq<Value>): string
    decreases xs, 0
  {
    if xs == [] then ""
    else if |xs| == 1 then PyRepr(xs[0])
    else PyRepr(xs[0]) + ", " + ReprItems(xs[1..])
  }

  /** Python's `str` of the value: a string is itself, anything else its `repr`. */
  function PyStr(v: Value): string
  {
    if v.Str? then v.s else PyRepr(v)
  }

  /** `as_cmdline_string(obj)`: a list becomes the `str` of its items joined by single spaces. */
  function AsCmdlineString(obj: Value): (r: string)
    ensures !obj.List? ==> r == PyStr(obj)
    ensures obj.List? && |obj.items| == 1 ==> r == PyStr(obj.items[0])
    ensures obj == List([]) ==> r == ""
  {
    match obj
    case List(xs) => Join(seq(|xs|, k requires 0 <= k < |xs| => PyStr(xs[k])), " ")
    case _ => PyStr(obj)
  }

  /**
   * When no item's text holds a space, splitting the command-line string on
   * spaces gives back the `str` of each item, in order.
   */
  lemma CmdlineStringSplits(xs: seq<Value>)
    requires |xs| >= 1
    requires forall k :: 0 <= k < |xs| ==> ' ' !in PyStr(xs[k])
    ensures Split(AsCmdlineString(List(xs)), ' ') == seq(|xs|, k requires 0 <= k < |xs| => PyStr(xs[k]))
  {
    SplitJoin(seq(|xs|, k requires 0 <= k < |xs| => PyStr(xs[k])), ' ');
  }

  // ---------------------------------------------------------------- URIs

  /** `uuid_from_uri(uri)`: for an `http...` URI the text after the last `/`, else the string itself. */
  function UuidFromUri(uri: string): (r: string)
    ensures StartsWith(uri, "http") ==> '/' !in r
    ensures !StartsWith(uri, "http") ==> r == uri
  {
    if StartsWith(uri, "http") then LastPart(uri, '/') else uri
  }

  /** The identifier of a resource is recovered from its URI. */
  lemma UuidOfResource(base: string, id: string)
    requires StartsWith(base, "http")
    requires '/' !in id
    ensures UuidFromUri(base + "/" + id) == id
  {
    var uri := base + "/" + id;
    assert uri[..4] == base[..4];
    assert uri == base + ['/'] + id;
    SplitAround(base, id, '/');
    SplitNoSeparator(id, '/');
  }

  /** Applying `uuid_from_uri` twice is the same as applying it once. */
  lemma UuidFromUriIdempotent(uri: string)
    ensures UuidFromUri(UuidFromUri(uri)) == UuidFromUri(uri)
  {
    var r := UuidFromUri(uri);
    if StartsWith(uri, "http") {
      SplitNoSeparator(r, '/');
    }
  }

  // ---------------------------------------------------------------- content types

  /** `os.path.splitext(p)[1]`: from the last dot after the last `/`, unless only dots precede it there. */
  function Extension(p: string): (r: string)
    ensures r != "" ==> r[0] == '.' && '/' !in r && '.' !in r[1..]
    ensures |r| <= |p| && p[|p| - |r|..] == r
  {
    var sepIndex := LastIndex(p, '/');
    var dotIndex := LastIndex(p, '.');
    if dotIndex > sepIndex && exists k :: sepIndex < k < dotIndex && p[k] != '.' then
      assert forall k :: dotIndex < k < |p| ==> p[dotIndex..][k - dotIndex] == p[k];
      p[dotIndex..]
    else ""
  }

  /** The fixed extension to MIME type table of `guess_content_type`. */
  const ContentTypes: map<string, string> := map[
    ".mat" := "application/5-mat",
    ".png" := "image/png",
    ".json" := "application/json",
    ".pdf" := "application/pdf",
    ".py" := "text/x-python",
    ".md" := "text/markdown",
    ".txt" := "text/plain",
    ".html" := "text/html",
    ".pkl" := "application/vnd.pickle",
    ".nix" := "application/vnd.g-node.nix+hdf5",
    ".ns2" := "application/vnd.blackrockmicrosystems.neuralsignals.2"
  ]

  /** `guess_content_type(file_name)`: the table entry for the final extension, if any. */
  function GuessContentType(fileName: string): (r: Option<string>)
    ensures r.Some? ==> r.value in ContentTypes.Values
  {
    var ext := Extension(fileName);
    if ext in ContentTypes then Some(ContentTypes[ext]) else None
  }

  /** A directory, a stem with some character other than a dot, and a final extension. */
  predicate SplitPath(dir: string, stem: string, ext: string)
  {
    (dir == "" || dir[|dir| - 1] == '/') &&
    '/' !in stem && (exists k :: 0 <= k < |stem| && stem[k] != '.') &&
    |ext| >= 1 && ext[0] == '.' && '/' !in ext && '.' !in ext[1..]
  }

  /** `os.path.splitext` takes the extension after the last dot of the file name. */
  lemma ExtensionOfSplitPath(dir: string, stem: string, ext: string)
    requires SplitPath(dir, stem, ext)
    ensures Extension(dir + stem + ext) == ext
  {
    var p := dir + stem + ext;
    assert p == (dir + stem) + ext;
    LastIndexOfTail(dir + stem, ext, '.');
    assert p == dir + (stem + ext);
    LastSlashOfDirectory(dir, stem + ext);
    var j :| 0 <= j < |stem| && stem[j] != '.';
    assert p[|dir| + j] == stem[j];
    ExtensionAt(p, |dir| - 1, |dir| + |stem|, |dir| + j);
    assert p[|dir| + |stem|..] == ext;
  }

  /** No extension when the final component has no dot. */
  lemma ExtensionWithoutDot(dir: string, name: string)
    requires dir == "" || dir[|dir| - 1] == '/'
    requires '/' !in name && '.' !in name
    ensures Extension(dir + name) == ""
  {
    var p := dir + name;
    LastSlashOfDirectory(dir, name);
    forall k | |dir| <= k < |p|
      ensures p[k] != '.'
    {
      assert p[k] == name[k - |dir|];
    }
  }

  /** No extension when only dots precede the last dot of the final component (`.png`, `..png`). */
  lemma ExtensionAfterLeadingDots(dir: string, dots: string, ext: string)
    requires dir == "" || dir[|dir| - 1] == '/'
    requires forall k :: 0 <= k < |dots| ==> dots[k] == '.'
    requires |ext| >= 1 && ext[0] == '.' && '/' !in ext && '.' !in ext[1..]
    ensures Extension(dir + dots + ext) == ""
  {
    var p := dir + dots + ext;
    LastDotOfTail(dir + dots, ext);
    DotsHaveNoSlash(dots, ext);
    LastSlashOfDirectory(dir, dots + ext);
    DotsAfterDirectory(dir, dots, ext);
    ExtensionEmptyAt(p, |dir| - 1, |dir| + |dots|);
  }

  lemma LastDotOfTail(front: string, ext: string)
    requires |ext| >= 1 && ext[0] == '.' && '.' !in ext[1..]
    ensures LastIndex(front + ext, '.') == |front|
  {
    LastIndexOfTail(front, ext, '.');
  }

  lemma DotsHaveNoSlash(dots: string, ext: string)
    requires forall k :: 0 <= k < |dots| ==> dots[k] == '.'
    requires '/' !in ext
    ensures '/' !in dots + ext
  {
    forall k | 0 <= k < |dots + ext|
      ensures (dots + ext)[k] != '/'
    {
      if k >= |dots| {
        assert (dots + ext)[k] == ext[k - |dots|];
      }
    }
  }

  lemma DotsAfterDirectory(dir: string, dots: string, ext: string)
    requires forall k :: 0 <= k < |dots| ==> dots[k] == '.'
    ensures dir + (dots + ext) == dir + dots + ext
    ensures forall k :: |dir| <= k < |dir| + |dots| ==> (dir + dots + ext)[k] == '.'
  {
    forall k | |dir| <= k < |dir| + |dots|
      ensures (dir + dots + ext)[k] == '.'
    {
      assert (dir + dots + ext)[k] == dots[k - |dir|];
    }
  }

  /** With only dots between the last `/` and the last dot, there is no extension. */
  lemma ExtensionEmptyAt(p: string, sep: int, dot: int)
    requires LastIndex(p, '/') == sep && LastIndex(p, '.') == dot
    requires forall k :: sep < k < dot ==> p[k] == '.'
    ensures Extension(p) == ""
  {
  }

  /** With the last `/` and the last dot known, and a non-dot between them, the extension starts at that dot. */
  lemma ExtensionAt(p: string, sep: int, dot: nat, j: nat)
    requires LastIndex(p, '/') == sep && LastIndex(p, '.') == dot
    requires sep < j < dot && p[j] != '.'
    ensures Extension(p) == p[dot..]
  {
  }

  /** A directory ending in `/` followed by a name without one puts the last `/` at the directory's end. */
  lemma LastSlashOfDirectory(dir: string, name: string)
    requires dir == "" || dir[|dir| - 1] == '/'
    requires '/' !in name
    ensures LastIndex(dir + name, '/') == |dir| - 1
  {
    var p := dir + name;
    forall k | |dir| <= k < |p|
      ensures p[k] != '/'
    {
      assert p[k] == name[k - |dir|];
    }
    if dir == "" {
      LastIndexAbsent(p, '/');
    } else {
      LastIndexAt(p, '/', |dir| - 1);
    }
  }

  /** The type depends only on the final extension: directories and stems do not matter. */
  lemma ContentTypeOfFinalExtension(dir: string, stem: string, ext: string)
    requires SplitPath(dir, stem, ext)
    ensures GuessContentType(dir + stem + ext) == if ext in ContentTypes then Some(ContentTypes[ext]) else None
  {
    ExtensionOfSplitPath(dir, stem, ext);
  }

  /** The lookup is case-sensitive: an upper-case `.PNG` is not recognised. */
  lemma UpperCaseExtensionUnknown(dir: string, stem: string)
    requires SplitPath(dir, stem, ".PNG")
    ensures GuessContentType(dir + stem + ".PNG") == None
  {
    ExtensionOfSplitPath(dir, stem, ".PNG");
  }

  // ---------------------------------------------------------------- computation types

  /** `valid_computation_types`, in tuple order. */
  const ComputationTypes: seq<string> := ["data transfer", "simulation", "data analysis", "visualization", "optimization"]

  /** The plan's `https://schema.org/keywords` entry: a list of keywords or a single text. */
  datatype Keywords = KeywordList(words: seq<string>) | KeywordText(text: string)

  /** Python's `ct in keywords`: list membership, or substring of a text. */
  predicate Mentions(keywords: Keywords, ct: string)
  {
    match keywords
    case KeywordList(words) => ct in words
    case KeywordText(text) => Contains(text, ct)
  }

  /** The first of `types` that the keywords mention. */
  function FirstMentioned(types: seq<string>, keywords: Keywords): (r: Option<string>)
    ensures r.None? <==> forall i :: 0 <= i < |types| ==> !Mentions(keywords, types[i])
    ensures r.Some? ==> exists i :: 0 <= i < |types| && types[i] == r.value && Mentions(keywords, r.value) &&
                                    forall j :: 0 <= j < i ==> !Mentions(keywords, types[j])
  {
    if types == [] then None
    else if Mentions(keywords, types[0]) then Some(types[0])
    else
      var rest := FirstMentioned(types[1..], keywords);
      assert forall i :: 1 <= i < |types| ==> types[i] == types[1..][i - 1];
      rest
  }

  /** The label test used when no keyword decides. */
  function GuessFromLabel(stageLabel: string): (r: Option<string>)
    ensures r.Some? ==> r.value in ComputationTypes
    ensures (exists i :: OccursAt(stageLabel, "analysis", i)) ==> r == Some("data analysis")
    ensures ((!exists i :: OccursAt(stageLabel, "analysis", i)) && (exists i :: OccursAt(stageLabel, "visuali", i)))
              ==> r == Some("visualization")
    ensures ((!exists i :: OccursAt(stageLabel, "analysis", i)) && (!exists i :: OccursAt(stageLabel, "visuali", i)))
              ==> r == None
  {
    ContainsAt(stageLabel, "analysis");
    ContainsAt(stageLabel, "visuali");
    if Contains(stageLabel, "analysis") then Some("data analysis")
    else if Contains(stageLabel, "visuali") then Some("visualization")
    else None
  }

  /**
   * `guess_computation_type(stageLabel, plan)`; `keywords` is the plan's keywords
   * entry when the plan has one. Keywords that mention no valid type fall
   * through to the label.
   */
  function GuessComputationType(stageLabel: string, keywords: Option<Keywords>): (r: Option<string>)
    ensures r.Some? ==> r.value in ComputationTypes
    ensures keywords.Some? && FirstMentioned(ComputationTypes, keywords.value).Some? ==>
              r == FirstMentioned(ComputationTypes, keywords.value)
    ensures keywords.None? || FirstMentioned(ComputationTypes, keywords.value).None? ==>
              r == GuessFromLabel(stageLabel)
  {
    match keywords
    case Some(words) =>
      (match FirstMentioned(ComputationTypes, words)
       case Some(ct) => Some(ct)
       case None => GuessFromLabel(stageLabel))
    case None => GuessFromLabel(stageLabel)
  }

  /** The keywords outrank the label, and tuple order breaks ties between keywords. */
  lemma KeywordsOutrankLabel(stageLabel: string, words: seq<string>)
    requires "data analysis" in words && "simulation" in words && "data transfer" !in words
    ensures GuessComputationType(stageLabel, Some(KeywordList(words))) == Some("simulation")
  {
    assert Mentions(KeywordList(words), ComputationTypes[1]);
    assert !Mentions(KeywordList(words), ComputationTypes[0]);
  }

  // ---------------------------------------------------------------- workflow steps

  /** A step of the prospective workflow: its `id` and the tool it `run`s. */
  datatype WorkflowStep = WorkflowStep(id: string, run: string)

  /** `get_workflow_step(workflow_prospective, step_id)`: the first step with that id, or `None`. */
  function GetWorkflowStep(steps: seq<WorkflowStep>, stepId: string): (r: Option<WorkflowStep>)
    ensures r.None? <==> forall i :: 0 <= i < |steps| ==> steps[i].id != stepId
    ensures r.Some? ==> exists i :: 0 <= i < |steps| && steps[i] == r.value && r.value.id == stepId &&
                                    forall j :: 0 <= j < i ==> steps[j].id != stepId
  {
    if steps == [] then None
    else if steps[0].id == stepId then Some(steps[0])
    else
      var rest := GetWorkflowStep(steps[1..], stepId);
      assert forall i :: 1 <= i < |steps| ==> steps[i] == steps[1..][i - 1];
      rest
  }
}

/** The pure parts of the `GetFeatures` tool: deriving the build-output path
    of the active project, and turning the namespaces of the exported types
    into the distinct, sorted list of feature names. */
module FeatureTools {
  import opened Wrappers
  import opened Strings
  import opened Sequences
  import opened Paths

  const NamespaceSeparator: char := '.'

  /** The fixed build-output location, relative to the project directory. */
  const BuildOutput: seq<string> := ["bin", "Debug", "net9.0"]

  const AssemblyExtension: string := "dll"

  /** The failures the tool reports once a project file is known. */
  datatype ToolError =
    | ProjectPathNotFound(projectPath: Option<Path>)
    | AssemblyLoadFailed(assemblyFile: Path)

  // ---------------------------------------------------------------------
  // Feature names
  // ---------------------------------------------------------------------

  /** A type takes part when it has a namespace with at least two segments. */
  predicate HasFeature(ns: Option<string>) {
    ns.Some? && |Split(ns.value, NamespaceSeparator)| > 1
  }

  /** The feature a namespace names: its second segment. */
  function FeatureOf(ns: string): string
    requires |Split(ns, NamespaceSeparator)| > 1
  {
    Split(ns, NamespaceSeparator)[1]
  }

  /** Every feature name the namespaces contribute, as a set. */
  ghost function ContributedNames(namespaces: seq<Option<string>>): set<string> {
    set i | 0 <= i < |namespaces| && HasFeature(namespaces[i]) :: FeatureOf(namespaces[i].value)
  }

  /** The `Where` and `Select` steps: second segments of the qualifying
      namespaces, in input order, duplicates kept. */
  function SecondSegments(namespaces: seq<Option<string>>): (names: seq<string>)
    ensures forall n :: n in names <==> n in ContributedNames(namespaces)
    ensures |names| <= |namespaces|
  {
    if |namespaces| == 0 then []
    else
      var init := namespaces[..|namespaces| - 1];
      var last := namespaces[|namespaces| - 1];
      var names := SecondSegments(init);
      assert ContributedNames(namespaces) ==
        ContributedNames(init) + (if HasFeature(last) then {FeatureOf(last.value)} else {}) by {
        forall n | n in ContributedNames(namespaces)
          ensures n in ContributedNames(init) || (HasFeature(last) && n == FeatureOf(last.value))
        {
          var i :| 0 <= i < |namespaces| && HasFeature(namespaces[i]) && n == FeatureOf(namespaces[i].value);
          if i < |init| {
            assert init[i] == namespaces[i];
          }
        }
        forall n | n in ContributedNames(init)
          ensures n in ContributedNames(namespaces)
        {
          var i :| 0 <= i < |init| && HasFeature(init[i]) && n == FeatureOf(init[i].value);
          assert namespaces[i] == init[i];
        }
      }
      if HasFeature(last) then names + [FeatureOf(last.value)] else names
  }

  /** The whole pipeline: `Where`, `Select`, `Distinct`, `Order`. The result
      lists exactly the contributed feature names, once each, in order. */
  function FeatureNames(namespaces: seq<Option<string>>, le: (string, string) -> bool): (names: seq<string>)
    requires TotalPreorder(le)
    ensures forall n :: n in names <==> n in ContributedNames(namespaces)
    ensures NoDuplicates(names)
    ensures Sorted(names, le)
  {
    var distinct := Distinct(SecondSegments(namespaces));
    var sorted := Sort(distinct, le);
    NoDuplicatesFromMultiset(distinct, sorted);
    sorted
  }

  /** Soundness, spelled out: each returned name is the second segment of
      some input namespace that has at least two segments. */
  lemma FeatureNamesSound(namespaces: seq<Option<string>>, le: (string, string) -> bool, n: string)
    requires TotalPreorder(le)
    requires n in FeatureNames(namespaces, le)
    ensures exists i :: 0 <= i < |namespaces| && HasFeature(namespaces[i]) && FeatureOf(namespaces[i].value) == n
  {
  }

  /** Completeness, spelled out: each namespace with at least two segments
      contributes its second segment. */
  lemma FeatureNamesComplete(namespaces: seq<Option<string>>, le: (string, string) -> bool, i: nat)
    requires TotalPreorder(le)
    requires i < |namespaces| && HasFeature(namespaces[i])
    ensures FeatureOf(namespaces[i].value) in FeatureNames(namespaces, le)
  {
  }

  /** A namespace qualifies exactly when it contains a `'.'`; null and
      single-segment namespaces are ignored. */
  lemma HasFeatureIffDotted(ns: Option<string>)
    ensures HasFeature(ns) <==> ns.Some? && NamespaceSeparator in ns.value
  {
  }

  /** The result is empty exactly when no namespace has two segments. */
  lemma {:induction false} FeatureNamesEmpty(namespaces: seq<Option<string>>, le: (string, string) -> bool)
    requires TotalPreorder(le)
    ensures FeatureNames(namespaces, le) == [] <==>
      forall i :: 0 <= i < |namespaces| ==> !HasFeature(namespaces[i])
  {
    var names := FeatureNames(namespaces, le);
    if names != [] {
      assert names[0] in names;
    }
    if exists i :: 0 <= i < |namespaces| && HasFeature(namespaces[i]) {
      var i :| 0 <= i < |namespaces| && HasFeature(namespaces[i]);
      assert FeatureOf(namespaces[i].value) in ContributedNames(namespaces);
    }
  }

  /** Only segment index 1 matters: whatever precedes the first `'.'` and
      whatever follows the second segment, the feature is that segment. */
  lemma {:induction false} FeatureIsSecondSegment(first: string, second: string, rest: string)
    requires NamespaceSeparator !in first && NamespaceSeparator !in second
    requires rest == [] || rest[0] == NamespaceSeparator
    ensures HasFeature(Some(first + [NamespaceSeparator] + second + rest))
    ensures FeatureOf(first + [NamespaceSeparator] + second + rest) == second
  {
    var sep := NamespaceSeparator;
    var ns := first + [sep] + second + rest;
    assert ns == first + [sep] + (second + rest);
    SplitCons(first, second + rest, sep);
    if rest == [] {
      assert second + rest == second;
      SplitAtom(second, sep);
    } else {
      assert second + rest == second + [sep] + rest[1..];
      SplitCons(second, rest[1..], sep);
    }
  }

  /** Namespaces that differ only outside their second segment give the
      same feature. */
  lemma SameSecondSegmentSameFeature(a1: string, a2: string, b: string, r1: string, r2: string)
    requires NamespaceSeparator !in a1 && NamespaceSeparator !in a2 && NamespaceSeparator !in b
    requires r1 == [] || r1[0] == NamespaceSeparator
    requires r2 == [] || r2[0] == NamespaceSeparator
    ensures FeatureOf(a1 + [NamespaceSeparator] + b + r1) == FeatureOf(a2 + [NamespaceSeparator] + b + r2)
  {
    FeatureIsSecondSegment(a1, b, r1);
    FeatureIsSecondSegment(a2, b, r2);
  }

  /** Under an ordering that never ties distinct names, the result depends
      only on the set of contributed names: reordering the exported types,
      or listing one twice, changes nothing. */
  lemma {:induction false} FeatureNamesDependOnlyOnContributedSet(
    a: seq<Option<string>>, b: seq<Option<string>>, le: (string, string) -> bool)
    requires TotalPreorder(le) && Antisymmetric(le)
    requires ContributedNames(a) == ContributedNames(b)
    ensures FeatureNames(a, le) == FeatureNames(b, le)
  {
    SortedSetUnique(FeatureNames(a, le), FeatureNames(b, le), le);
  }

  /** Same exported namespaces, in any order and multiplicity, same result. */
  lemma FeatureNamesIgnoreOrderAndDuplicates(
    a: seq<Option<string>>, b: seq<Option<string>>, le: (string, string) -> bool)
    requires TotalPreorder(le) && Antisymmetric(le)
    requires forall ns :: ns in a <==> ns in b
    ensures FeatureNames(a, le) == FeatureNames(b, le)
  {
    assert ContributedNames(a) == ContributedNames(b) by {
      forall n | n in ContributedNames(a) ensures n in ContributedNames(b) {
        var i :| 0 <= i < |a| && HasFeature(a[i]) && n == FeatureOf(a[i].value);
        assert a[i] in b;
        var j :| 0 <= j < |b| && b[j] == a[i];
      }
      forall n | n in ContributedNames(b) ensures n in ContributedNames(a) {
        var j :| 0 <= j < |b| && HasFeature(b[j]) && n == FeatureOf(b[j].value);
        assert b[j] in a;
        var i :| 0 <= i < |a| && a[i] == b[j];
      }
    }
    FeatureNamesDependOnlyOnContributedSet(a, b, le);
  }

  // ---------------------------------------------------------------------
  // Assembly path
  // ---------------------------------------------------------------------

  /** The project directory is the directory of `root` combined with the
      project file; it must exist. The assembly lies under
      `bin/Debug/net9.0` there and is named after the project file with its
      extension replaced by `.dll`. */
  function AssemblyFile(root: Path, projectFile: Path, directoryExists: Path -> bool): (r: Result<Path, ToolError>)
    ensures var full := Combine(root, projectFile);
      r.Success? <==> |full.segments| > 0 && directoryExists(DirectoryName(full).value)
    ensures r.Failure? ==> r.error == ProjectPathNotFound(DirectoryName(Combine(root, projectFile)))
    ensures r.Success? ==> var full := Combine(root, projectFile);
      && r.value.rooted == full.rooted
      && |r.value.segments| == |full.segments| + 3
      && r.value.segments[..|full.segments| - 1] == full.segments[..|full.segments| - 1]
      && r.value.segments[|full.segments| - 1..|full.segments| + 2] == BuildOutput
      && StripExtension(FileName(r.value)) == StripExtension(FileName(full))
      && FileName(r.value) == StripExtension(FileName(r.value)) + ['.'] + AssemblyExtension
  {
    var full := Combine(root, projectFile);
    match DirectoryName(full)
    case None => Failure(ProjectPathNotFound(None))
    case Some(projectPath) =>
      if !directoryExists(projectPath) then Failure(ProjectPathNotFound(Some(projectPath)))
      else
        var stem := StripExtension(FileName(full));
        StripAppendedExtension(stem, AssemblyExtension);
        Success(Combine(projectPath, Relative(BuildOutput + [stem + ['.'] + AssemblyExtension])))
  }

  /** The tool once the project file is known: derive the assembly path,
      load the namespaces of its exported types (`load` stands for the
      metadata loader; `None` is a load failure), and list the feature names. */
  function GetFeatures(
    root: Path, projectFile: Path, directoryExists: Path -> bool,
    load: Path -> Option<seq<Option<string>>>, le: (string, string) -> bool): (r: Result<seq<string>, ToolError>)
    requires TotalPreorder(le)
    ensures AssemblyFile(root, projectFile, directoryExists).Failure? ==>
      r == Failure(AssemblyFile(root, projectFile, directoryExists).error)
    ensures AssemblyFile(root, projectFile, directoryExists).Success? ==>
      var file := AssemblyFile(root, projectFile, directoryExists).value;
      && (load(file).None? <==> r == Failure(AssemblyLoadFailed(file)))
      && (load(file).Some? <==> r.Success?)
      && (r.Success? ==>
            && load(file).Some?
            && NoDuplicates(r.value)
            && Sorted(r.value, le)
            && forall n :: n in r.value <==> n in ContributedNames(load(file).value))
  {
    match AssemblyFile(root, projectFile, directoryExists)
    case Failure(e) => Failure(e)
    case Success(file) =>
      match load(file)
      case None => Failure(AssemblyLoadFailed(file))
      case Some(namespaces) => Success(FeatureNames(namespaces, le))
  }
}

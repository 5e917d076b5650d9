# Vertical Slices feature tools — Dafny model

The Vertical Slices server exposes tools to an assistant host that read a
built .NET project and report its "features". This project models the two
pieces of that code with behaviour of their own:

- **`FeatureTools.GetFeatures`** — once the active project file is known,
  the tool derives the path of the build output
  (`<project dir>/bin/Debug/net9.0/<project name>.dll`). It then takes the
  namespaces of the assembly's exported types and returns the distinct,
  sorted list of their second segments. `Cratis.Orders.Commands` names the
  feature `Orders`.
- **`FileNameComparer`** — an `IEqualityComparer<string>` that treats two
  paths as equal when their file names match, ignoring case. A null path
  equals nothing, not even another null. Its hash code rejects null and
  hashes the case-folded file name.

Modules, one per concern:

| file | module | models |
|---|---|---|
| `wrappers.dfy` | `Wrappers` | `Option` for nullable references, `Result` for thrown exceptions |
| `strings.dfy` | `Strings` | `String.Split(char)`, which keeps empty segments, and its inverse `Join` |
| `sequences.dfy` | `Sequences` | LINQ `Distinct()` and the stable `Order()`, over an ordering given as a parameter |
| `paths.dfy` | `Paths` | `Path.Combine`, `GetDirectoryName`, `GetFileName`, `GetFileNameWithoutExtension` on segment lists |
| `feature_tools.dfy` | `FeatureTools` | the feature-name pipeline, the assembly path, and the tool's result |
| `file_name_comparer.dfy` | `FileNameComparer` | `Equals` and `GetHashCode` |

The string ordering of `Order()` is a parameter `le`. It is required to be a
total preorder. Only the order-independence lemmas also require it to be
antisymmetric. `Sequences.CodePointLe`, lexicographic order on Unicode
scalar values, is one ordering that meets both requirements; it is not the
comparison `Order()` uses. The comparer's separator set, its per-character case folding
and its string hash are fields of a `Platform` value.

## Model

| member | source | states |
|---|---|---|
| Strings.Split | Source/FeatureTools.cs:51-52 | splitting on `'.'` yields at least one segment; no segment contains `'.'`; there is exactly one segment iff the namespace has no `'.'` |
| Strings.JoinSplit | Source/FeatureTools.cs:51-52 | joining the segments with `'.'` gives back the namespace, so empty segments are kept |
| Strings.SplitJoin | Source/FeatureTools.cs:51-52 | splitting a join of `'.'`-free segments gives back exactly those segments |
| Sequences.Distinct | Source/FeatureTools.cs:53 | the result has no duplicates and contains exactly the elements of the input |
| Sequences.DistinctOfDuplicateFree | Source/FeatureTools.cs:53 | a duplicate-free input passes through `Distinct` unchanged |
| Sequences.Sort | Source/FeatureTools.cs:54 | the result is sorted under `le`, is a permutation (same multiset) of the input, and is stable: for every `z`, the elements that tie with `z` appear in the same order as in the input |
| Sequences.NoDuplicatesFromMultiset | Source/FeatureTools.cs:53-54 | a permutation of a duplicate-free sequence is duplicate-free, so sorting keeps the names distinct |
| Sequences.SortedSetUnique | Source/FeatureTools.cs:53-54 | under an antisymmetric total order, two sorted duplicate-free sequences with the same elements are equal |
| FeatureTools.SecondSegments | Source/FeatureTools.cs:51-52 | the names after the filter and projection are exactly the second segments of the namespaces that have two or more segments |
| FeatureTools.FeatureNames | Source/FeatureTools.cs:50-55 | the result lists exactly the second segments of the qualifying namespaces, with no duplicates, sorted under `le` |
| FeatureTools.FeatureNamesSound | Source/FeatureTools.cs:51-52 | every returned name is the second segment of some input namespace with at least two segments |
| FeatureTools.FeatureNamesComplete | Source/FeatureTools.cs:51-53 | every input namespace with at least two segments contributes its second segment to the result |
| FeatureTools.HasFeatureIffDotted | Source/FeatureTools.cs:51 | a type takes part iff its namespace is non-null and contains a `'.'` |
| FeatureTools.FeatureNamesEmpty | Source/FeatureTools.cs:51 | the result is empty iff no namespace is non-null with two or more segments |
| FeatureTools.FeatureIsSecondSegment | Source/FeatureTools.cs:52 | for `first.second` or `first.second.rest`, the feature is `second`, whatever `first` and `rest` are |
| FeatureTools.SameSecondSegmentSameFeature | Source/FeatureTools.cs:52 | namespaces that differ only in the first segment or after the second give the same feature |
| FeatureTools.FeatureNamesDependOnlyOnContributedSet | Source/FeatureTools.cs:53-54 | with an antisymmetric ordering, inputs that contribute the same set of names give the same result |
| FeatureTools.FeatureNamesIgnoreOrderAndDuplicates | Source/FeatureTools.cs:53-54 | with an antisymmetric ordering, reordering the exported types or repeating one does not change the result |
| FeatureTools.AssemblyFile | Source/FeatureTools.cs:40-45 | it fails with "project path not found" iff the combined path has no directory or that directory does not exist; otherwise the result is the project directory, then `bin`, `Debug`, `net9.0`, then the project file name with its extension replaced by `.dll` |
| FeatureTools.GetFeatures | Source/FeatureTools.cs:40-60 | a path failure is reported as is; a failed load is reported as "could not load" for the derived assembly path; a successful load always succeeds, with the sorted, distinct list of contributed names |
| Paths.DirectoryName | Source/FeatureTools.cs:41 | a path has no directory exactly when it has no segments; otherwise the directory keeps rootedness and drops one segment |
| Paths.DirectoryAndFileNameRecombine | Source/FeatureTools.cs:40-41 | a path is its directory combined with its file name |
| Paths.StripExtension | Source/FeatureTools.cs:45 | the stem is a prefix of the name; a name without `'.'` is kept whole; otherwise the stem stops at the last `'.'` |
| Paths.StripAppendedExtension | Source/FeatureTools.cs:45 | stripping the extension from `stem.dll` gives `stem` back, so the assembly keeps the project's base name |
| FileNameComparer.FileName | Source/FileNameComparer.cs:19 | the file name is the longest suffix of the path that holds no separator |
| FileNameComparer.FileNameAfterLastSeparator | Source/FileNameComparer.cs:19 | the file name of `dir` + separator + `name` is `name` when `name` holds no separator |
| FileNameComparer.Equals | Source/FileNameComparer.cs:16-17 | a null on either side gives "not equal", even when both are null |
| FileNameComparer.GetHashCode | Source/FileNameComparer.cs:23-28 | fails with an argument-null error exactly when the argument is null |
| FileNameComparer.FoldedEqualIffPointwise | Source/FileNameComparer.cs:19 | two strings are equal after folding iff they have the same length and agree character by character after folding |
| FileNameComparer.EqualsIffFileNamesMatch | Source/FileNameComparer.cs:19 | two non-null paths are equal iff their file names have the same length and agree character by character after folding |
| FileNameComparer.EqualsSymmetric | Source/FileNameComparer.cs:16-19 | `Equals(x, y)` iff `Equals(y, x)`, nulls included |
| FileNameComparer.EqualsReflexiveOnNonNull | Source/FileNameComparer.cs:19 | every non-null path equals itself |
| FileNameComparer.EqualsTransitive | Source/FileNameComparer.cs:16-19 | equality chains, so the comparer is an equivalence on non-null paths |
| FileNameComparer.EqualsIgnoresDirectory | Source/FileNameComparer.cs:19 | two paths whose file names fold to the same string are equal, whatever directories precede them |
| FileNameComparer.HashConsistentWithEquals | Source/FileNameComparer.cs:19-27 | paths the comparer calls equal both have hash codes, and the hash codes are equal |

## Left out

- The roots request, the `.vertical-slices.json` configuration and the interactive project selection (`Source/FeatureTools.cs:27-38`). These are host round-trips and file I/O. The model starts from the root path and the project file.
- `Directory.Exists` and the metadata loader are parameters of `AssemblyFile` and `GetFeatures`. A load that fails for any reason is one `None`. The catch-all (`Source/FeatureTools.cs:57-60`) is modelled only for a failed load, since the modelled pipeline itself cannot fail.
- Paths are segment lists, not strings. Parsing a path string into segments is not modelled. Neither are `.` and `..` segments, repeated or trailing separators, or drive letters.
- For a relative one-segment path, `GetDirectoryName` returns `""` and `Directory.Exists("")` is always false. The model leaves `directoryExists` of the empty relative path unconstrained. The root path comes from `Uri.LocalPath` and is absolute, so the case does not arise in the tool.
- FeatureTools.FeatureNamesDependOnlyOnContributedSet: requires an antisymmetric ordering. The culture-sensitive comparison behind `Order()` can tie distinct strings. Tied names then keep their first-occurrence order, which does depend on input order.
- FeatureTools.FeatureNamesIgnoreOrderAndDuplicates: requires an antisymmetric ordering, for the same reason.
- The culture rules of `Order()` and the Unicode case rules of `OrdinalIgnoreCase` are not modelled. The ordering is the parameter `le`; the folding and the hash are fields of `Platform`.
- The platform's separator set for `Path.GetFileName` is the `separators` field of `Platform`. The special handling of a volume separator on Windows is not modelled.
- The other source files (project discovery, the configuration record, assembly loading, host set-up and the data records) hold no logic this model covers.

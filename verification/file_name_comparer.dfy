/** `FileNameComparer`: an equality comparer on path strings that looks only
    at the file-name part, ignoring case. A null path equals nothing, not
    even another null. */
module FileNameComparer {
  import opened Wrappers

  /** What the comparer takes from its platform: the characters that end a
      directory (`Path.GetFileName`), the per-character case folding of an
      ordinal case-insensitive comparison, and that comparison's hash of an
      already folded string. */
  datatype Platform = Platform(separators: set<char>, fold: char -> char, hash: string -> int)

  /** `ArgumentNullException.ThrowIfNull`. */
  datatype Error = ArgumentNull

  /** `Path.GetFileName`: the longest suffix of `path` free of separators.
      It works on the raw string the comparer receives; `Paths.FileName` is
      the same operation on a path already split into segments. */
  function FileName(path: string, separators: set<char>): (name: string)
    ensures |name| <= |path| && path[|path| - |name|..] == name
    ensures forall i :: 0 <= i < |name| ==> name[i] !in separators
    ensures |name| < |path| ==> path[|path| - |name| - 1] in separators
  {
    if |path| == 0 || path[|path| - 1] in separators then ""
    else
      var init := path[..|path| - 1];
      var name := FileName(init, separators);
      assert path[|path| - |name| - 1..] == init[|init| - |name|..] + [path[|path| - 1]];
      name + [path[|path| - 1]]
  }

  function FoldString(s: string, fold: char -> char): string {
    seq(|s|, i requires 0 <= i < |s| => fold(s[i]))
  }

  /** The file name of `path`, case-folded: the key both members compare by. */
  function Key(p: Platform, path: string): string {
    FoldString(FileName(path, p.separators), p.fold)
  }

  function Equals(p: Platform, x: Option<string>, y: Option<string>): (equal: bool)
    ensures x.None? || y.None? ==> !equal
  {
    if x.None? || y.None? then false
    else Key(p, x.value) == Key(p, y.value)
  }

  function GetHashCode(p: Platform, obj: Option<string>): (r: Result<int, Error>)
    ensures r.Failure? <==> obj.None?
    ensures r.Failure? ==> r.error == ArgumentNull
  {
    match obj
    case None => Failure(ArgumentNull)
    case Some(path) => Success(p.hash(Key(p, path)))
  }

  /** `a` and `b` have the same length and agree character by character
      after folding. */
  predicate FoldsAlike(a: string, b: string, fold: char -> char) {
    |a| == |b| && forall i :: 0 <= i < |a| ==> fold(a[i]) == fold(b[i])
  }

  /** Two strings fold to the same string exactly when they fold alike
      character by character. */
  lemma FoldedEqualIffPointwise(a: string, b: string, fold: char -> char)
    ensures FoldString(a, fold) == FoldString(b, fold) <==> FoldsAlike(a, b, fold)
  {
    if FoldString(a, fold) == FoldString(b, fold) {
      forall i | 0 <= i < |a|
        ensures fold(a[i]) == fold(b[i])
      {
        assert FoldString(a, fold)[i] == FoldString(b, fold)[i];
      }
    }
  }

  /** For non-null paths, equality means the file names have the same length
      and agree character by character after folding. */
  lemma EqualsIffFileNamesMatch(p: Platform, x: string, y: string)
    ensures Equals(p, Some(x), Some(y)) <==>
      FoldsAlike(FileName(x, p.separators), FileName(y, p.separators), p.fold)
  {
    FoldedEqualIffPointwise(FileName(x, p.separators), FileName(y, p.separators), p.fold);
  }

  lemma EqualsSymmetric(p: Platform, x: Option<string>, y: Option<string>)
    ensures Equals(p, x, y) <==> Equals(p, y, x)
  {
  }

  lemma EqualsReflexiveOnNonNull(p: Platform, x: string)
    ensures Equals(p, Some(x), Some(x))
  {
  }

  lemma EqualsTransitive(p: Platform, x: Option<string>, y: Option<string>, z: Option<string>)
    requires Equals(p, x, y) && Equals(p, y, z)
    ensures Equals(p, x, z)
  {
  }

  /** The file name of a path is whatever follows its last separator. */
  lemma {:induction false} FileNameAfterLastSeparator(dir: string, sep: char, name: string, separators: set<char>)
    requires sep in separators
    requires forall i :: 0 <= i < |name| ==> name[i] !in separators
    ensures FileName(dir + [sep] + name, separators) == name
    decreases |name|
  {
    var path := dir + [sep] + name;
    if |name| > 0 {
      var init := name[..|name| - 1];
      assert path[..|path| - 1] == dir + [sep] + init;
      FileNameAfterLastSeparator(dir, sep, init, separators);
      assert init + [name[|name| - 1]] == name;
    }
  }

  /** The directory part is irrelevant: two paths that end in the same file
      name, up to case, compare equal whatever folders precede it. */
  lemma EqualsIgnoresDirectory(
    p: Platform, dir1: string, sep1: char, name1: string, dir2: string, sep2: char, name2: string)
    requires sep1 in p.separators && sep2 in p.separators
    requires forall i :: 0 <= i < |name1| ==> name1[i] !in p.separators
    requires forall i :: 0 <= i < |name2| ==> name2[i] !in p.separators
    requires FoldString(name1, p.fold) == FoldString(name2, p.fold)
    ensures Equals(p, Some(dir1 + [sep1] + name1), Some(dir2 + [sep2] + name2))
  {
    FileNameAfterLastSeparator(dir1, sep1, name1, p.separators);
    FileNameAfterLastSeparator(dir2, sep2, name2, p.separators);
  }

  /** Paths the comparer calls equal hash alike, as `IEqualityComparer`
      requires. */
  lemma HashConsistentWithEquals(p: Platform, x: Option<string>, y: Option<string>)
    requires Equals(p, x, y)
    ensures GetHashCode(p, x).Success? && GetHashCode(p, y).Success?
    ensures GetHashCode(p, x).value == GetHashCode(p, y).value
  {
  }
}

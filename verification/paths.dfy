/** File-system paths as a sequence of segments, with the three `Path`
    helpers the assembly-path derivation uses: `Combine`, `GetDirectoryName`
    and `GetFileNameWithoutExtension`. */
module Paths {
  import opened Wrappers

  /** `rooted` paths start at the file-system root; `segments` are the names
      between separators. */
  datatype Path = Path(rooted: bool, segments: seq<string>)

  function Relative(segments: seq<string>): Path {
    Path(false, segments)
  }

  /** `Path.Combine(a, b)`: a rooted `b` replaces `a`, otherwise `b` is appended. */
  function Combine(a: Path, b: Path): Path {
    if b.rooted then b else Path(a.rooted, a.segments + b.segments)
  }

  /** `Path.GetDirectoryName`: drops the last segment; a path without one
      (the root, or the empty path) has no directory. */
  function DirectoryName(p: Path): (dir: Option<Path>)
    ensures dir.None? <==> |p.segments| == 0
    ensures dir.Some? ==> dir.value.rooted == p.rooted && |dir.value.segments| + 1 == |p.segments|
  {
    if |p.segments| == 0 then None
    else Some(Path(p.rooted, p.segments[..|p.segments| - 1]))
  }

  /** `Path.GetFileName`: the last segment, empty for a path without one.
      The comparer in `FileNameComparer` has its own `FileName` over path
      strings, because it receives raw strings; the assembly path is built
      from parts and is never parsed, so it stays a segment list here. */
  function FileName(p: Path): string {
    if |p.segments| == 0 then "" else p.segments[|p.segments| - 1]
  }

  /** A path is its directory combined with its file name. */
  lemma DirectoryAndFileNameRecombine(p: Path)
    requires |p.segments| > 0
    ensures DirectoryName(p).Some?
    ensures Combine(DirectoryName(p).value, Relative([FileName(p)])) == p
  {
    assert p.segments[..|p.segments| - 1] + [FileName(p)] == p.segments;
  }

  /** The file name of `name` with the part from its last `'.'` removed;
      a name without `'.'` is returned whole. */
  function StripExtension(name: string): (stem: string)
    ensures stem <= name
    ensures '.' !in name ==> stem == name
    ensures '.' in name ==> |stem| < |name| && name[|stem|] == '.' && '.' !in name[|stem| + 1..]
  {
    if '.' !in name then name
    else if name[|name| - 1] == '.' then name[..|name| - 1]
    else
      var init := name[..|name| - 1];
      assert '.' in init by {
        var k :| 0 <= k < |name| && name[k] == '.';
        assert init[k] == '.';
      }
      var stem := StripExtension(init);
      assert name[|stem| + 1..] == init[|stem| + 1..] + [name[|name| - 1]];
      stem
  }

  /** Appending an extension to a stem and stripping it again gives the stem:
      `GetFileNameWithoutExtension(stem + ext)` is `stem` when `ext` starts
      with its only `'.'`. */
  lemma {:induction false} StripAppendedExtension(stem: string, ext: string)
    requires '.' !in ext
    ensures StripExtension(stem + ['.'] + ext) == stem
    decreases |ext|
  {
    var name := stem + ['.'] + ext;
    assert name[|stem|] == '.';
    if |ext| == 0 {
      assert name[..|name| - 1] == stem;
    } else {
      assert name[..|name| - 1] == stem + ['.'] + ext[..|ext| - 1];
      assert ext[|ext| - 1] in ext;
      StripAppendedExtension(stem, ext[..|ext| - 1]);
    }
  }
}

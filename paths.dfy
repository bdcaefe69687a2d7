/** Absolute paths as sequences of components, and the os.path helpers the
    organizer uses on them (join, basename, dirname). The root directory is
    the empty sequence. */
module Paths {

  type Path = seq<string>

  /** os.path.join(dir, name) for a single component `name`. */
  function Join(dir: Path, name: string): (p: Path)
    ensures |p| == |dir| + 1 && dir < p && p[|dir|] == name
  {
    dir + [name]
  }

  /** os.path.basename: the last component; the root has basename "". */
  function Basename(p: Path): string
  {
    if p == [] then "" else p[|p| - 1]
  }

  /** os.path.dirname: everything but the last component; the root is its own dirname. */
  function Dirname(p: Path): (d: Path)
    ensures p != [] ==> |d| == |p| - 1 && d < p
    ensures p == [] ==> d == []
  {
    if p == [] then [] else p[..|p| - 1]
  }

  /** Splitting a joined path gives back its two parts. */
  lemma JoinSplit(dir: Path, name: string)
    ensures Dirname(Join(dir, name)) == dir
    ensures Basename(Join(dir, name)) == name
  {
    assert Join(dir, name)[..|dir|] == dir;
  }

  /** Joining the two halves of a non-root path gives the path back. */
  lemma SplitJoin(p: Path)
    requires p != []
    ensures Join(Dirname(p), Basename(p)) == p
  {
  }

  /** A prefix of `dir/name` is that path itself or a prefix of `dir`. */
  lemma PrefixOfJoin(dir: Path, name: string, q: Path)
    ensures q <= Join(dir, name) ==> q == Join(dir, name) || q <= dir
  {
    if q <= Join(dir, name) && |q| <= |dir| {
      assert q == dir[..|q|];
    }
  }

  /** `c` is an entry directly inside directory `p`. */
  predicate IsChild(p: Path, c: Path)
  {
    |c| == |p| + 1 && p < c
  }
}

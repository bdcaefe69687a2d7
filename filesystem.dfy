/** An abstract filesystem: a finite map from absolute path to node, the
    os / shutil operations the organizer performs on it as functions, and a
    Disk object through which the organizer changes it step by step. */
module FileSystem {
  import opened Paths
  import opened Wrappers

  datatype Node = File(data: string) | Dir

  type Tree = map<Path, Node>

  predicate IsFile(t: Tree, p: Path) { p in t && t[p].File? }

  predicate IsDir(t: Tree, p: Path) { p in t && t[p].Dir? }

  /** The root is a directory and every other entry sits in a directory. */
  predicate WellFormed(t: Tree)
  {
    IsDir(t, []) && forall p :: p in t && p != [] ==> IsDir(t, Dirname(p))
  }

  /** Every proper prefix of an entry of a well-formed tree is a directory. */
  lemma {:induction false} AncestorIsDir(t: Tree, p: Path, k: nat)
    requires WellFormed(t) && p in t && k < |p|
    ensures IsDir(t, p[..k])
    decreases |p| - k
  {
    var parent := Dirname(p);
    assert IsDir(t, parent);
    if k < |parent| {
      AncestorIsDir(t, parent, k);
      assert parent[..k] == p[..k];
    }
  }

  /** Whatever lies beneath `a` in a well-formed tree makes `a` a directory. */
  lemma BelowDir(t: Tree, a: Path, q: Path)
    requires WellFormed(t) && q in t && a < q
    ensures IsDir(t, a)
  {
    AncestorIsDir(t, q, |a|);
    assert q[..|a|] == a;
  }

  /** Whatever lies beneath `d` in a well-formed tree passes through a child of `d`. */
  lemma BelowChild(t: Tree, d: Path, q: Path)
    requires WellFormed(t) && q in t && d < q
    ensures q[..|d| + 1] in t && IsChild(d, q[..|d| + 1])
  {
    if |q| > |d| + 1 {
      AncestorIsDir(t, q, |d| + 1);
    } else {
      assert q[..|d| + 1] == q;
    }
  }

  /** A non-root path is a child of its dirname. */
  lemma ChildOfDirname(q: Path)
    requires q != []
    ensures IsChild(Dirname(q), q)
  {
  }

  /** The regular files of a tree, with their contents. */
  function Files(t: Tree): map<Path, Node>
  {
    map p | p in t && t[p].File? :: t[p]
  }

  /** os.makedirs(p, exist_ok=True): create every missing directory on the
      way to `p`. When an existing prefix is a file or the OS refuses to
      create a missing one, the model fails and changes nothing; the real
      call keeps the directories it made before the failing level. In a run
      at most one level is missing (the category folder), and for the ledger
      of a run undo finds the original folder in place (see
      Session.RestoreFolderExists), so the two agree there. */
  function MakeDirs(t: Tree, denied: set<Path>, p: Path): (r: Option<Tree>)
    ensures r.Some? <==> forall k :: 0 <= k <= |p| ==> !IsFile(t, p[..k]) && (p[..k] in t || p[..k] !in denied)
    ensures r.Some? ==>
      && (forall k :: 0 <= k <= |p| ==> IsDir(r.value, p[..k]))
      && (forall q :: q in t ==> q in r.value && r.value[q] == t[q])
      && (forall q :: q in r.value && q !in t ==> q <= p && r.value[q] == Dir)
  {
    if exists k :: 0 <= k <= |p| && (IsFile(t, p[..k]) || (p[..k] !in t && p[..k] in denied)) then None
    else Some(t + map k | 0 <= k <= |p| && p[..k] !in t :: p[..k] := Dir)
  }

  lemma MakeDirsWellFormed(t: Tree, denied: set<Path>, p: Path)
    requires WellFormed(t) && MakeDirs(t, denied, p).Some?
    ensures WellFormed(MakeDirs(t, denied, p).value)
  {
    var t' := MakeDirs(t, denied, p).value;
    forall q | q in t' && q != [] ensures IsDir(t', Dirname(q)) {
      if q !in t {
        assert q <= p;
        assert Dirname(q) == p[..|q| - 1];
      }
    }
  }

  /** shutil.move for a regular file: if `dst` is a directory the file goes
      inside it under its own name (an existing entry there is an error);
      otherwise it is renamed to `dst`, replacing a file already there. It
      fails, changing nothing, when the OS refuses to move `src`, when `src`
      is not a file, or when the target's directory does not exist. */
  function ShutilMove(t: Tree, denied: set<Path>, src: Path, dst: Path): Option<Tree>
  {
    var target := if IsDir(t, dst) then Join(dst, Basename(src)) else dst;
    if src in denied || !IsFile(t, src) then None
    else if IsDir(t, dst) && target in t then None
    else if !IsDir(t, Dirname(target)) || target == [] then None
    else Some((t - {src})[target := t[src]])
  }

  /** Where shutil.move puts `src` when it succeeds. */
  function MoveTarget(t: Tree, src: Path, dst: Path): Path
  {
    if IsDir(t, dst) then Join(dst, Basename(src)) else dst
  }

  /** A successful move takes the file away from `src`, puts it at its target
      and leaves every other path as it was; it keeps the tree well-formed. */
  lemma ShutilMoveSpec(t: Tree, denied: set<Path>, src: Path, dst: Path)
    requires WellFormed(t) && src != dst
    requires ShutilMove(t, denied, src, dst).Some?
    ensures var t' := ShutilMove(t, denied, src, dst).value;
      var target := MoveTarget(t, src, dst);
      && IsFile(t, src) && target != src
      && target in t' && t'[target] == t[src] && src !in t'
      && (forall q :: q != src && q != target ==> (q in t' <==> q in t) && (q in t ==> t'[q] == t[q]))
      && WellFormed(t')
  {
    var t' := ShutilMove(t, denied, src, dst).value;
    var target := MoveTarget(t, src, dst);
    forall q | q in t' && q != [] ensures IsDir(t', Dirname(q)) {
      if q != target {
        assert q in t && IsDir(t, Dirname(q));
        if src < q { BelowDir(t, src, q); }
        ChildOfDirname(q);
      }
    }
  }

  /** os.rmdir: removes an empty directory other than the root, unless the OS refuses. */
  function RemoveDir(t: Tree, denied: set<Path>, p: Path): Option<Tree>
  {
    if IsDir(t, p) && p != [] && p !in denied && forall c :: c in t ==> !IsChild(p, c) then Some(t - {p})
    else None
  }

  lemma RemoveDirWellFormed(t: Tree, denied: set<Path>, p: Path)
    requires WellFormed(t) && RemoveDir(t, denied, p).Some?
    ensures WellFormed(RemoveDir(t, denied, p).value)
  {
    var t' := RemoveDir(t, denied, p).value;
    forall q | q in t' && q != [] ensures IsDir(t', Dirname(q)) {
      assert q in t && IsDir(t, Dirname(q));
      ChildOfDirname(q);
    }
  }

  /** A tree that keeps every entry of another and adds only directories has
      the same files. */
  lemma FilesSameUpToDirs(t: Tree, u: Tree)
    requires forall q :: q in t ==> q in u && u[q] == t[q]
    requires forall q :: q in u && q !in t ==> u[q] == Dir
    ensures Files(u) == Files(t)
  {
    assert forall q :: q in Files(u) <==> q in Files(t);
  }

  /** `u` keeps every entry of `t` with its node, and every entry it adds is
      a directory drawn from `extra`. */
  predicate ExtendsWithDirs(u: Tree, t: Tree, extra: set<Path>)
  {
    && (forall q :: q in t ==> q in u && u[q] == t[q])
    && (forall q :: q in u && q !in t ==> q in extra && u[q] == Dir)
  }

  lemma ExtendsTransitive(a: Tree, b: Tree, c: Tree, extra: set<Path>)
    requires ExtendsWithDirs(a, b, extra) && ExtendsWithDirs(b, c, extra)
    ensures ExtendsWithDirs(a, c, extra)
  {
  }

  /** Every prefix of a directory of a well-formed tree is a directory. */
  lemma AncestorsAreDirs(t: Tree, p: Path)
    requires WellFormed(t) && IsDir(t, p)
    ensures forall k :: 0 <= k <= |p| ==> IsDir(t, p[..k])
  {
    forall k | 0 <= k <= |p| ensures IsDir(t, p[..k]) {
      if k < |p| {
        AncestorIsDir(t, p, k);
      } else {
        assert p[..k] == p;
      }
    }
  }

  /** Every prefix of a path whose prefixes are all directories is one. */
  lemma PrefixesAreDirs(t: Tree, p: Path, q: Path)
    requires forall k :: 0 <= k <= |p| ==> IsDir(t, p[..k])
    ensures q <= p ==> IsDir(t, q)
  {
    if q <= p {
      assert q == p[..|q|];
    }
  }

  /** Makedirs of a path none of whose prefixes is an extra directory
      behaves alike on a tree and on its extension, and keeps the one an
      extension of the other. */
  lemma MakeDirsExtends(u: Tree, t: Tree, extra: set<Path>, denied: set<Path>, p: Path)
    requires ExtendsWithDirs(u, t, extra)
    requires forall k :: 0 <= k <= |p| ==> p[..k] !in extra
    ensures MakeDirs(u, denied, p).Some? <==> MakeDirs(t, denied, p).Some?
    ensures MakeDirs(t, denied, p).Some? ==>
      ExtendsWithDirs(MakeDirs(u, denied, p).value, MakeDirs(t, denied, p).value, extra)
  {
    assert forall k :: 0 <= k <= |p| ==> (p[..k] in u <==> p[..k] in t);
    if MakeDirs(t, denied, p).Some? {
      var u1 := MakeDirs(u, denied, p).value;
      var t1 := MakeDirs(t, denied, p).value;
      forall q | q in t1 ensures q in u1 && u1[q] == t1[q] {
        PrefixesAreDirs(u1, p, q);
      }
      forall q | q in u1 && q !in t1 ensures q in extra && u1[q] == Dir {
        PrefixesAreDirs(t1, p, q);
      }
    }
  }

  /** shutil.move between paths that are not extra directories, whose
      target inside `dst` is not one either, behaves alike on a tree and on
      its extension, and keeps the one an extension of the other. */
  lemma ShutilMoveExtends(u: Tree, t: Tree, extra: set<Path>, denied: set<Path>, src: Path, dst: Path)
    requires ExtendsWithDirs(u, t, extra)
    requires src !in extra && dst !in extra && Dirname(dst) !in extra && Join(dst, Basename(src)) !in extra
    ensures ShutilMove(u, denied, src, dst).Some? <==> ShutilMove(t, denied, src, dst).Some?
    ensures ShutilMove(t, denied, src, dst).Some? ==>
      ExtendsWithDirs(ShutilMove(u, denied, src, dst).value, ShutilMove(t, denied, src, dst).value, extra)
  {
    assert IsDir(u, dst) <==> IsDir(t, dst);
    var target := MoveTarget(t, src, dst);
    assert target == MoveTarget(u, src, dst);
    if target != dst {
      JoinSplit(dst, Basename(src));
    }
    assert IsDir(u, Dirname(target)) <==> IsDir(t, Dirname(target));
  }

  /** The disk the organizer works on. `denied` holds the paths the OS refuses
      to list, create, move or remove (permission errors). */
  class Disk {
    var tree: Tree
    const denied: set<Path>

    constructor (t: Tree, denied: set<Path>)
      requires WellFormed(t)
      ensures tree == t && this.denied == denied
    {
      tree := t;
      this.denied := denied;
    }

    /** os.path.exists */
    method Exists(p: Path) returns (b: bool)
      ensures b <==> p in tree
    {
      b := p in tree;
    }

    /** os.path.isfile */
    method IsFileAt(p: Path) returns (b: bool)
      ensures b <==> IsFile(tree, p)
    {
      b := p in tree && tree[p].File?;
    }

    /** os.path.isdir */
    method IsDirAt(p: Path) returns (b: bool)
      ensures b <==> IsDir(tree, p)
    {
      b := p in tree && tree[p].Dir?;
    }

    /** os.listdir(p) == []: None when the listing raises (not a directory, refused). */
    method ListsEmpty(p: Path) returns (r: Option<bool>)
      ensures r.None? <==> !IsDir(tree, p) || p in denied
      ensures r.Some? ==> (r.value <==> forall c :: c in tree ==> !IsChild(p, c))
    {
      if !(p in tree && tree[p].Dir?) || p in denied {
        r := None;
      } else {
        r := Some(forall c | c in tree :: !IsChild(p, c));
      }
    }

    method MakeDirsAt(p: Path) returns (ok: bool)
      modifies this
      ensures ok <==> MakeDirs(old(tree), denied, p).Some?
      ensures tree == if ok then MakeDirs(old(tree), denied, p).value else old(tree)
    {
      var r := MakeDirs(tree, denied, p);
      ok := r.Some?;
      if ok {
        tree := r.value;
      }
    }

    method Move(src: Path, dst: Path) returns (ok: bool)
      modifies this
      ensures ok <==> ShutilMove(old(tree), denied, src, dst).Some?
      ensures tree == if ok then ShutilMove(old(tree), denied, src, dst).value else old(tree)
    {
      var r := ShutilMove(tree, denied, src, dst);
      ok := r.Some?;
      if ok {
        tree := r.value;
      }
    }

    method RemoveDirAt(p: Path) returns (ok: bool)
      modifies this
      ensures ok <==> RemoveDir(old(tree), denied, p).Some?
      ensures tree == if ok then RemoveDir(old(tree), denied, p).value else old(tree)
    {
      var r := RemoveDir(tree, denied, p);
      ok := r.Some?;
      if ok {
        tree := r.value;
      }
    }
  }
}

/** Empty-folder pruning after an organize run: a bottom-up walk below a base
    folder that removes every directory found empty when it is visited. */
module Pruning {
  import opened Paths
  import opened FileSystem

  /** os.walk(base) lists `d` among the subdirectories of its parent: `d` is a
      directory strictly below `base`, and every directory from `base` down
      to the parent of `d` can be listed. */
  predicate Walkable(t: Tree, denied: set<Path>, base: Path, d: Path)
  {
    base < d && IsDir(t, d) && forall k :: |base| <= k < |d| ==> d[..k] !in denied
  }

  /** A directory the walk removes: it is reached, it can itself be listed,
      and everything beneath it is a directory that can be listed, so by the
      time the walk comes back up to it, it is empty. */
  predicate Prunable(t: Tree, denied: set<Path>, base: Path, d: Path)
  {
    Walkable(t, denied, base, d) && d !in denied
    && forall q :: q in t && d < q ==> IsDir(t, q) && q !in denied
  }

  /** The tree after pruning below `base`. */
  function PruneSpec(t: Tree, denied: set<Path>, base: Path): Tree
  {
    map p | p in t && !Prunable(t, denied, base, p) :: t[p]
  }

  /** The tree once the walk has visited the directories of `visited`. */
  function Partial(t: Tree, denied: set<Path>, base: Path, visited: set<Path>): Tree
  {
    map p | p in t && !(p in visited && Prunable(t, denied, base, p)) :: t[p]
  }

  /** A listable child directory of a walkable directory is walkable. */
  lemma WalkableChild(t: Tree, denied: set<Path>, base: Path, d: Path, c: Path)
    requires Walkable(t, denied, base, d) && d !in denied && IsChild(d, c) && IsDir(t, c)
    ensures Walkable(t, denied, base, c)
  {
    forall k | |base| <= k < |c| ensures c[..k] !in denied {
      if k < |d| {
        assert c[..k] == d[..k];
      } else {
        assert c[..k] == d;
      }
    }
  }

  /** Below a prunable directory everything is prunable. */
  lemma PrunableBelow(t: Tree, denied: set<Path>, base: Path, d: Path, q: Path)
    requires WellFormed(t) && Prunable(t, denied, base, d) && q in t && d < q
    ensures Prunable(t, denied, base, q)
  {
    forall k | |base| <= k < |q| ensures q[..k] !in denied {
      if k < |d| {
        assert q[..k] == d[..k];
      } else if k == |d| {
        assert q[..k] == d;
      } else {
        AncestorIsDir(t, q, k);
        assert d < q[..k];
      }
    }
  }

  /** A finite non-empty set of paths has a longest member. */
  lemma {:induction false} LongestExists(s: set<Path>)
    requires s != {}
    ensures exists d :: d in s && forall e :: e in s ==> |e| <= |d|
    decreases |s|
  {
    var x :| x in s;
    var rest := s - {x};
    if rest != {} {
      LongestExists(rest);
      var d :| d in rest && forall e :: e in rest ==> |e| <= |d|;
      if |x| > |d| {
        assert forall e :: e in s ==> |e| <= |x|;
      } else {
        assert forall e :: e in s ==> |e| <= |d|;
      }
    } else {
      forall e | e in s ensures |e| <= |x| {
        assert e !in rest;
      }
    }
  }

  /** Moving one pending directory to the visited ones keeps the two sets
      splitting the walkable directories. */
  lemma VisitOne(all: set<Path>, pending: set<Path>, visited: set<Path>, d: Path)
    requires pending <= all && visited == all - pending && d in pending
    ensures pending - {d} <= all && visited + {d} == all - (pending - {d})
  {
  }

  /** The walk visits longer paths first: when `d` is a longest path still
      pending, every walkable directory below it has been visited. */
  lemma LongestPendingFirst(t: Tree, denied: set<Path>, base: Path, all: set<Path>, pending: set<Path>, d: Path)
    requires pending <= all && d in pending
    requires forall e :: e in all <==> e in t && Walkable(t, denied, base, e)
    requires forall e :: e in pending ==> |e| <= |d|
    ensures forall e :: e in t && Walkable(t, denied, base, e) && d < e ==> e in all - pending
  {
  }

  /** At a prunable directory whose walkable descendants have all been
      visited, nothing is left inside. */
  lemma VisitPrunableIsEmpty(t: Tree, denied: set<Path>, base: Path, visited: set<Path>, d: Path)
    requires WellFormed(t) && Prunable(t, denied, base, d)
    requires forall e :: e in t && Walkable(t, denied, base, e) && d < e ==> e in visited
    ensures forall c :: c in Partial(t, denied, base, visited) ==> !IsChild(d, c)
  {
    forall c | c in Partial(t, denied, base, visited) && IsChild(d, c) ensures false {
      WalkableChild(t, denied, base, d, c);
      PrunableBelow(t, denied, base, d, c);
    }
  }

  /** A listable directory found empty was prunable: everything beneath it
      went away, so it was all listable directories. */
  lemma VisitEmptyIsPrunable(t: Tree, denied: set<Path>, base: Path, visited: set<Path>, d: Path)
    requires WellFormed(t) && Walkable(t, denied, base, d) && d !in denied
    requires forall c :: c in Partial(t, denied, base, visited) ==> !IsChild(d, c)
    ensures Prunable(t, denied, base, d)
  {
    var cur := Partial(t, denied, base, visited);
    forall q | q in t && d < q ensures IsDir(t, q) && q !in denied {
      BelowChild(t, d, q);
      var c := q[..|d| + 1];
      assert c !in cur;
      if c != q {
        assert c < q;
      }
    }
  }

  /** Visiting `d` removes it when it is prunable and changes nothing else. */
  lemma PartialVisit(t: Tree, denied: set<Path>, base: Path, visited: set<Path>, d: Path)
    ensures Partial(t, denied, base, visited + {d}) ==
      if Prunable(t, denied, base, d) then Partial(t, denied, base, visited) - {d} else Partial(t, denied, base, visited)
  {
    var cur := Partial(t, denied, base, visited);
    var next := Partial(t, denied, base, visited + {d});
    if Prunable(t, denied, base, d) {
      assert forall p :: p in next <==> p in cur - {d};
      assert next == cur - {d};
    } else {
      assert forall p :: p in next <==> p in cur;
      assert next == cur;
    }
  }

  /** One visit of the walk, at a directory `d` whose walkable descendants
      have all been visited: `d` is still there, it is a listable empty
      directory exactly when it is prunable, and removing it in that case
      gives the tree of the walk that has also visited `d`. */
  lemma PruneVisit(t: Tree, denied: set<Path>, base: Path, visited: set<Path>, d: Path)
    requires WellFormed(t)
    requires Walkable(t, denied, base, d) && d !in visited
    requires forall e :: e in t && Walkable(t, denied, base, e) && d < e ==> e in visited
    ensures var cur := Partial(t, denied, base, visited);
      && IsDir(cur, d) && d != []
      && ((d !in denied && forall c :: c in cur ==> !IsChild(d, c)) <==> Prunable(t, denied, base, d))
      && Partial(t, denied, base, visited + {d}) ==
           if Prunable(t, denied, base, d) then cur - {d} else cur
  {
    PartialVisit(t, denied, base, visited, d);
    if Prunable(t, denied, base, d) {
      VisitPrunableIsEmpty(t, denied, base, visited, d);
    } else if d !in denied && forall c :: c in Partial(t, denied, base, visited) ==> !IsChild(d, c) {
      VisitEmptyIsPrunable(t, denied, base, visited, d);
    }
  }

  /** When the walk has visited every walkable directory, the tree is the
      pruned tree. */
  lemma PruneAllVisited(t: Tree, denied: set<Path>, base: Path, visited: set<Path>)
    requires forall d :: d in t && Walkable(t, denied, base, d) ==> d in visited
    ensures Partial(t, denied, base, visited) == PruneSpec(t, denied, base)
  {
  }

  /** Pruning keeps every file, keeps `base` and everything not strictly below
      it, never adds an entry, and keeps the tree well-formed. */
  lemma PruneKeeps(t: Tree, denied: set<Path>, base: Path)
    requires WellFormed(t)
    ensures var r := PruneSpec(t, denied, base);
      && Files(r) == Files(t)
      && (forall p :: p in r ==> p in t && r[p] == t[p])
      && (forall p :: p in t && !(base < p) ==> p in r)
      && WellFormed(r)
  {
    var r := PruneSpec(t, denied, base);
    forall q | q in r && q != [] ensures IsDir(r, Dirname(q)) {
      var parent := Dirname(q);
      assert IsDir(t, parent);
      if Prunable(t, denied, base, parent) {
        PrunableBelow(t, denied, base, parent, q);
      }
    }
  }

  /** Only empty directories go: whatever is removed was a directory below
      `base`, and everything beneath it is removed too. */
  lemma PruneOnlyEmpty(t: Tree, denied: set<Path>, base: Path)
    requires WellFormed(t)
    ensures var r := PruneSpec(t, denied, base);
      forall p :: p in t && p !in r ==>
        (IsDir(t, p) && base < p && p !in denied && forall q :: q in t && p < q ==> q !in r)
  {
    var r := PruneSpec(t, denied, base);
    forall p, q | p in t && p !in r && q in t && p < q ensures q !in r {
      PrunableBelow(t, denied, base, p, q);
    }
  }

  /** Nothing empty is left behind: every directory the walk could list
      that survives still holds an entry. */
  lemma PruneComplete(t: Tree, denied: set<Path>, base: Path)
    requires WellFormed(t)
    ensures var r := PruneSpec(t, denied, base);
      forall d :: d in r && Walkable(t, denied, base, d) && d !in denied ==>
        exists c :: c in r && IsChild(d, c)
  {
    var r := PruneSpec(t, denied, base);
    forall d | d in r && Walkable(t, denied, base, d) && d !in denied
      ensures exists c :: c in r && IsChild(d, c)
    {
      var q :| q in t && d < q && !(IsDir(t, q) && q !in denied);
      BelowChild(t, d, q);
      var c := q[..|d| + 1];
      assert !Prunable(t, denied, base, c) by {
        if c != q {
          assert c < q;
        }
      }
    }
  }
}

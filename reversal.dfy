/** When an undo gives back what an organize run did. Undoing a run over one
    folder with no pruning, where the OS refuses nothing and no queued name
    is also the name of a category folder, gives back every entry of the
    disk with its contents; only category folders stay behind, and they are
    empty. Without the condition on the names, the restore of
    main.py:449-451 can misplace a file: RestoreMisplacesFile exhibits such
    a disk, and on it the corrected restore (Session.RestoreOne) leaves the
    file in its category folder instead. */
module Reversal {
  import opened Paths
  import opened Wrappers
  import opened Text
  import opened Classifier
  import opened FileSystem
  import opened Scanner
  import opened Mover
  import opened Session

  /** A record the restore handles alike on a tree and on its extension by
      `extra`: neither of its paths, nor the path inside its original path
      where shutil.move would put the file, nor any folder on the way to its
      original folder, is an extra directory. */
  predicate ClearOf(rec: MoveRecord, extra: set<Path>)
  {
    && rec.src !in extra && rec.dest !in extra && Join(rec.src, Basename(rec.dest)) !in extra
    && forall k :: 0 <= k <= |Dirname(rec.src)| ==> Dirname(rec.src)[..k] !in extra
  }

  /** Restoring a clear record keeps one tree an extension of the other. */
  lemma RestoreExtends(u: Tree, t: Tree, extra: set<Path>, denied: set<Path>, rec: MoveRecord)
    requires ExtendsWithDirs(u, t, extra) && ClearOf(rec, extra)
    ensures ExtendsWithDirs(RestoreAsWritten(u, denied, rec), RestoreAsWritten(t, denied, rec), extra)
  {
    var d := Dirname(rec.src);
    MakeDirsExtends(u, t, extra, denied, d);
    if MakeDirs(t, denied, d).Some? {
      var u1 := MakeDirs(u, denied, d).value;
      var t1 := MakeDirs(t, denied, d).value;
      assert d[..|d|] == d;
      assert IsDir(u1, d) && IsDir(t1, d);
      ShutilMoveExtends(u1, t1, extra, denied, rec.dest, rec.src);
    }
  }

  /** Undoing a ledger of clear records keeps one tree an extension of the other. */
  lemma {:induction false} UndoExtends(u: Tree, t: Tree, extra: set<Path>, denied: set<Path>, ledger: seq<MoveRecord>, p: real)
    requires ExtendsWithDirs(u, t, extra)
    requires forall r :: r in ledger ==> ClearOf(r, extra)
    ensures ExtendsWithDirs(Undo(u, denied, ledger, p).tree, Undo(t, denied, ledger, p).tree, extra)
    decreases |ledger|
  {
    if ledger != [] {
      var n := |ledger| - 1;
      var rec := ledger[n];
      assert ledger == ledger[..n] + [rec];
      assert rec in ledger && forall r :: r in ledger[..n] ==> r in ledger;
      UndoLastFirst(u, denied, ledger[..n], rec, p);
      UndoLastFirst(t, denied, ledger[..n], rec, p);
      var u1 := if rec.dest in u then RestoreAsWritten(u, denied, rec) else u;
      var t1 := if rec.dest in t then RestoreAsWritten(t, denied, rec) else t;
      if rec.dest in t {
        RestoreExtends(u, t, extra, denied, rec);
      }
      UndoExtends(u1, t1, extra, denied, ledger[..n], p);
    }
  }

  /** One file of a folder, filed away where the OS refuses nothing: the
      folder stays a directory; without a record the disk is unchanged; with
      one, restoring it gives back the disk before the move, plus at most the
      category folder. */
  lemma ProcessUndone(t: Tree, rules: map<string, string>, folder: Path, item: string)
    requires WellFormed(t) && IsDir(t, folder)
    ensures var src := Join(folder, item);
      var s := Process(t, {}, rules, src, folder, false);
      && WellFormed(s.tree) && IsDir(s.tree, folder)
      && (s.record.None? ==> s.tree == t)
      && (s.record.Some? ==>
            && s.record.value == MoveRecord(Destination(rules, src, folder), src)
            && s.record.value.dest in s.tree
            && ExtendsWithDirs(RestoreAsWritten(s.tree, {}, s.record.value), t, {DestinationDir(rules, src, folder)}))
  {
    var src := Join(folder, item);
    var destDir := DestinationDir(rules, src, folder);
    var s := Process(t, {}, rules, src, folder, false);
    JoinSplit(folder, item);
    ProcessSucceeds(t, {}, rules, src, folder, false);
    if s.record.Some? {
      ProcessMoved(t, {}, rules, folder, item);
      var rec := s.record.value;
      RestoreMovesBack(s.tree, {}, rec);
      var u := RestoreAsWritten(s.tree, {}, rec);
      forall q | q in t ensures q in u && u[q] == t[q] {
        if q != src {
          assert q != rec.dest && q in s.tree && s.tree[q] == t[q];
        }
      }
      forall q | q in u && q !in t ensures q in {destDir} && u[q] == Dir {
        assert q != src && q != rec.dest && q in s.tree && u[q] == s.tree[q];
        assert q <= destDir;
        AncestorsAreDirs(t, folder);
        PrefixesAreDirs(t, folder, q);
        PrefixOfJoin(folder, CategoryOfName(item, rules).name, q);
      }
    } else if IsFile(t, src) && Destination(rules, src, folder) !in t && Prepare(t, {}, destDir).Some? {
      PreparedMove(t, {}, rules, src, folder);
    }
  }

  /** Undoing the moves of one folder's names, where the OS refuses nothing,
      gives back every entry the disk had with its node; what stays behind
      are directories of `extra`. `extra` must hold the category folder of
      every name, contain no name's own path, and lie directly inside the
      folder. */
  lemma {:induction false} MoveItemsUndone(t: Tree, rules: map<string, string>, folder: Path, items: seq<string>, extra: set<Path>, p: real)
    requires WellFormed(t) && IsDir(t, folder)
    requires forall x :: x in items ==> Join(folder, CategoryOfName(x, rules).name) in extra
    requires forall x :: x in items ==> Join(folder, x) !in extra
    requires forall q :: q in extra ==> |q| == |folder| + 1
    ensures var s := MoveItems(t, {}, rules, folder, items, false);
      && WellFormed(s.tree) && IsDir(s.tree, folder)
      && ExtendsWithDirs(Undo(s.tree, {}, s.moves, p).tree, t, extra)
  {
    if items != [] {
      var n := |items| - 1;
      assert items[n] in items && forall y :: y in items[..n] ==> y in items;
      MoveItemsUndone(t, rules, folder, items[..n], extra, p);
      MoveItemsClear(t, rules, folder, items[..n], extra);
      MoveItemsUndoneStep(t, rules, folder, items, extra, p);
    }
  }

  /** The records of one folder's moves are clear of the category folders. */
  lemma MoveItemsClear(t: Tree, rules: map<string, string>, folder: Path, items: seq<string>, extra: set<Path>)
    requires forall x :: x in items ==> Join(folder, x) !in extra
    requires forall q :: q in extra ==> |q| == |folder| + 1
    ensures forall r :: r in MoveItems(t, {}, rules, folder, items, false).moves ==> ClearOf(r, extra)
  {
    MoveItemsRecords(t, {}, rules, folder, items, false);
    forall r | r in MoveItems(t, {}, rules, folder, items, false).moves ensures ClearOf(r, extra) {
      var y :| y in items && r.src == Join(folder, y) && r.dest == Destination(rules, r.src, folder);
      JoinSplit(folder, y);
      assert |Join(r.src, Basename(r.dest))| == |folder| + 2;
    }
  }

  /** The last name of the folder, given the undo of the names before it. */
  lemma MoveItemsUndoneStep(t: Tree, rules: map<string, string>, folder: Path, items: seq<string>, extra: set<Path>, p: real)
    requires WellFormed(t) && IsDir(t, folder) && items != []
    requires Join(folder, CategoryOfName(items[|items| - 1], rules).name) in extra
    requires Join(folder, items[|items| - 1]) !in extra
    requires var s := MoveItems(t, {}, rules, folder, items[..|items| - 1], false);
      && WellFormed(s.tree) && IsDir(s.tree, folder)
      && ExtendsWithDirs(Undo(s.tree, {}, s.moves, p).tree, t, extra)
      && forall r :: r in s.moves ==> ClearOf(r, extra)
    ensures var s := MoveItems(t, {}, rules, folder, items, false);
      && WellFormed(s.tree) && IsDir(s.tree, folder)
      && ExtendsWithDirs(Undo(s.tree, {}, s.moves, p).tree, t, extra)
  {
    var n := |items| - 1;
    var x := items[n];
    var s := MoveItems(t, {}, rules, folder, items[..n], false);
    var src := Join(folder, x);
    var step := Process(s.tree, {}, rules, src, folder, false);
    ProcessUndone(s.tree, rules, folder, x);
    if step.record.Some? {
      var rec := step.record.value;
      assert MoveItems(t, {}, rules, folder, items, false) == MoveState(step.tree, s.moves + [rec]);
      assert ExtendsWithDirs(RestoreAsWritten(step.tree, {}, rec), s.tree, extra);
      UndoOneMore(t, s.tree, step.tree, s.moves, rec, extra, p);
    } else {
      assert MoveItems(t, {}, rules, folder, items, false) == MoveState(s.tree, s.moves + []);
      assert s.moves + [] == s.moves;
    }
  }

  /** Undoing one more clear record, made on top of a disk whose undo
      already extends `t0`, still extends `t0`. */
  lemma UndoOneMore(t0: Tree, t: Tree, u: Tree, moves: seq<MoveRecord>, rec: MoveRecord, extra: set<Path>, p: real)
    requires rec.dest in u && ExtendsWithDirs(RestoreAsWritten(u, {}, rec), t, extra)
    requires ExtendsWithDirs(Undo(t, {}, moves, p).tree, t0, extra)
    requires forall r :: r in moves ==> ClearOf(r, extra)
    ensures ExtendsWithDirs(Undo(u, {}, moves + [rec], p).tree, t0, extra)
  {
    UndoLastFirst(u, {}, moves, rec, p);
    var t1 := RestoreAsWritten(u, {}, rec);
    UndoExtends(t1, t, extra, {}, moves, p);
    ExtendsTransitive(Undo(t1, {}, moves, p).tree, Undo(t, {}, moves, p).tree, t0, extra);
  }

  /** No queued name is the name of a category folder some queued name goes to. */
  predicate NoCategoryNames(rules: map<string, string>, names: seq<string>)
  {
    forall x, y :: x in names && y in names ==> CategoryOfName(x, rules).name != y
  }

  /** The category folders the names of a folder go to. */
  function CategoryDirs(rules: map<string, string>, folder: Path, names: seq<string>): set<Path>
  {
    set x | x in names :: Join(folder, CategoryOfName(x, rules).name)
  }

  /** Undo inverts an organize run over one folder, without pruning, where
      the OS refuses nothing and no queued name is the name of a category
      folder: every entry of the disk before the run is back with its node,
      the only additions are the category folders, which are empty
      directories, and the files are exactly the files before the run. */
  lemma UndoInvertsRun(t: Tree, rules: map<string, string>, protectedPaths: set<Path>, job: Job, listing: seq<string>, p: real)
    requires WellFormed(t)
    requires NoCategoryNames(rules, Queued(t, {}, protectedPaths, job, listing))
    ensures var r := Run(t, {}, rules, protectedPaths, [job], [listing], false, false);
      var u := Undo(r.tree, {}, r.ledger, p).tree;
      && ExtendsWithDirs(u, t, CategoryDirs(rules, job.folder, Queued(t, {}, protectedPaths, job, listing)))
      && Files(u) == Files(t)
      && forall c, e :: c in u && c !in t && e in u ==> !IsChild(c, e)
  {
    var q := Queued(t, {}, protectedPaths, job, listing);
    var extra := CategoryDirs(rules, job.folder, q);
    var r := Run(t, {}, rules, protectedPaths, [job], [listing], false, false);
    var u := Undo(r.tree, {}, r.ledger, p).tree;
    if q == [] {
      RunNothingQueued(t, {}, rules, protectedPaths, [job], [listing], false, false);
    } else {
      assert [job][..0] == [] && [listing][..0] == [];
      var entries := [(job.folder, q)];
      assert Scan(t, {}, protectedPaths, [job], [listing]) == ScanResult(entries, |q|);
      assert entries[..0] == [];
      var m := MoveItems(t, {}, rules, job.folder, q, false);
      assert MoveEntries(t, {}, rules, entries, false, false) == MoveState(m.tree, [] + m.moves);
      assert [] + m.moves == m.moves;
      forall y | y in q ensures Join(job.folder, y) !in extra {
        forall x | x in q ensures Join(job.folder, y) != Join(job.folder, CategoryOfName(x, rules).name) {
          assert Join(job.folder, y)[|job.folder|] == y;
        }
      }
      MoveItemsUndone(t, rules, job.folder, q, extra, p);
    }
    FilesSameUpToDirs(t, u);
    forall c, e | c in u && c !in t && e in u ensures !IsChild(c, e) {
      if e in t && c < e {
        BelowDir(t, c, e);
      }
    }
  }

  /** The shape of the clash: in `folder`, a file `a` followed by a file
      `b` whose category folder is named `a`; `a` itself goes elsewhere. */
  predicate Clash(t: Tree, rules: map<string, string>, folder: Path, a: string, b: string)
  {
    var ca := CategoryOfName(a, rules).name;
    && WellFormed(t) && IsDir(t, folder)
    && IsFile(t, Join(folder, a)) && IsFile(t, Join(folder, b))
    && CategoryOfName(b, rules).name == a && ca != a
    && !IsFile(t, Join(folder, ca)) && Join(Join(folder, ca), a) !in t
  }

  /** No file stands on the way to a child of a directory that is not a file itself. */
  lemma NoFileOnWay(t: Tree, folder: Path, name: string)
    requires WellFormed(t) && IsDir(t, folder) && !IsFile(t, Join(folder, name))
    ensures forall k :: 0 <= k <= |Join(folder, name)| ==> !IsFile(t, Join(folder, name)[..k])
  {
    var p := Join(folder, name);
    AncestorsAreDirs(t, folder);
    forall k | 0 <= k <= |p| ensures !IsFile(t, p[..k]) {
      PrefixesAreDirs(t, folder, p[..k]);
      PrefixOfJoin(folder, name, p[..k]);
    }
  }

  /** The first move of a clash: `a` goes to its category folder. */
  lemma ClashFirstMove(t: Tree, rules: map<string, string>, folder: Path, a: string, b: string)
    requires Clash(t, rules, folder, a, b)
    ensures var src := Join(folder, a);
      var dest := Join(Join(folder, CategoryOfName(a, rules).name), a);
      var s := Process(t, {}, rules, src, folder, false);
      && s.record == Some(MoveRecord(dest, src))
      && WellFormed(s.tree) && IsDir(s.tree, folder) && src !in s.tree
      && dest in s.tree && s.tree[dest] == t[src] && IsFile(s.tree, Join(folder, b)) && s.tree[Join(folder, b)] == t[Join(folder, b)]
      && Join(src, b) !in s.tree && Join(src, a) !in s.tree
  {
    var src := Join(folder, a);
    JoinSplit(folder, a);
    NoFileOnWay(t, folder, CategoryOfName(a, rules).name);
    ProcessSucceeds(t, {}, rules, src, folder, false);
    ProcessMoved(t, {}, rules, folder, a);
    var s := Process(t, {}, rules, src, folder, false);
    NoChildOutsideDir(s.tree, src, a);
    NoChildOutsideDir(s.tree, src, b);
    assert Join(folder, b) != src;
  }

  /** A well-formed tree has nothing below a path that is not a directory. */
  lemma NoChildOutsideDir(t: Tree, p: Path, name: string)
    requires WellFormed(t) && !IsDir(t, p)
    ensures Join(p, name) !in t
  {
    JoinSplit(p, name);
  }

  /** The second move of a clash: `b` goes into a new folder named `a`,
      made where the file `a` was. */
  lemma ClashSecondMove(t: Tree, rules: map<string, string>, folder: Path, a: string, b: string)
    requires Clash(t, rules, folder, a, b)
    ensures var src0 := Join(folder, a);
      var dest0 := Join(Join(folder, CategoryOfName(a, rules).name), a);
      var t1 := Process(t, {}, rules, src0, folder, false).tree;
      var src1 := Join(folder, b);
      var s := Process(t1, {}, rules, src1, folder, false);
      && s.record == Some(MoveRecord(Join(src0, b), src1))
      && WellFormed(s.tree) && IsDir(s.tree, src0) && src1 !in s.tree
      && IsFile(s.tree, Join(src0, b)) && s.tree[Join(src0, b)] == t[src1]
      && dest0 in s.tree && s.tree[dest0] == t[src0] && Join(src0, a) !in s.tree
  {
    var src0 := Join(folder, a);
    ClashFirstMove(t, rules, folder, a, b);
    var t1 := Process(t, {}, rules, src0, folder, false).tree;
    var src1 := Join(folder, b);
    JoinSplit(folder, b);
    NoFileOnWay(t1, folder, a);
    ProcessSucceeds(t1, {}, rules, src1, folder, false);
    ProcessMoved(t1, {}, rules, folder, b);
    var s := Process(t1, {}, rules, src1, folder, false);
    JoinSplit(src0, b);
    assert Join(src0, a) != Join(src0, b);
    var dest0 := Join(Join(folder, CategoryOfName(a, rules).name), a);
    assert dest0 in t1 && dest0 != src1 && |dest0| == |folder| + 2;
  }

  /** The run over a clash moves `a`, then `b`, and leaves `b` inside a
      directory where `a` was. */
  lemma ClashRun(t: Tree, rules: map<string, string>, folder: Path, a: string, b: string)
    requires Clash(t, rules, folder, a, b)
    ensures var src0 := Join(folder, a);
      var dest0 := Join(Join(folder, CategoryOfName(a, rules).name), a);
      var src1 := Join(folder, b);
      var s := MoveItems(t, {}, rules, folder, [a, b], false);
      && s.moves == [MoveRecord(dest0, src0), MoveRecord(Join(src0, b), src1)]
      && WellFormed(s.tree) && IsDir(s.tree, src0) && src1 !in s.tree
      && IsFile(s.tree, Join(src0, b)) && s.tree[Join(src0, b)] == t[src1]
      && dest0 in s.tree && s.tree[dest0] == t[src0] && Join(src0, a) !in s.tree
  {
    ClashFirstMove(t, rules, folder, a, b);
    ClashSecondMove(t, rules, folder, a, b);
    MoveItemsTwo(t, rules, folder, a, b);
  }

  /** A real run over two names is the two steps in order, keeping each record. */
  lemma MoveItemsTwo(t: Tree, rules: map<string, string>, folder: Path, a: string, b: string)
    ensures var s0 := Process(t, {}, rules, Join(folder, a), folder, false);
      var s1 := Process(s0.tree, {}, rules, Join(folder, b), folder, false);
      var m := MoveItems(t, {}, rules, folder, [a, b], false);
      && m.tree == s1.tree
      && m.moves == (if s0.record.Some? then [s0.record.value] else []) + (if s1.record.Some? then [s1.record.value] else [])
  {
    MoveItemsOne(t, rules, folder, a);
    assert [a, b][..1] == [a];
  }

  /** The inner loop over a single name is that name's move. */
  lemma MoveItemsOne(t: Tree, rules: map<string, string>, folder: Path, a: string)
    ensures var s0 := Process(t, {}, rules, Join(folder, a), folder, false);
      MoveItems(t, {}, rules, folder, [a], false)
        == MoveState(s0.tree, if s0.record.Some? then [s0.record.value] else [])
  {
    assert [a][..0] == [];
  }

  /** The restore of the clash's second record, on the disk the run leaves:
      the file `b` goes back, and as written and corrected agree. */
  lemma ClashRestoreSecond(t2: Tree, folder: Path, a: string, b: string, ca: string)
    requires ca != a && a != b
    requires var src0 := Join(folder, a);
      && WellFormed(t2) && IsDir(t2, src0) && Join(folder, b) !in t2
      && IsFile(t2, Join(src0, b)) && IsFile(t2, Join(Join(folder, ca), a)) && Join(src0, a) !in t2
    ensures var src0 := Join(folder, a);
      var dest0 := Join(Join(folder, ca), a);
      var rec1 := MoveRecord(Join(src0, b), Join(folder, b));
      var t3 := RestoreOne(t2, {}, rec1);
      && RestoreAsWritten(t2, {}, rec1) == t3
      && WellFormed(t3) && IsDir(t3, src0) && Join(src0, a) !in t3
      && IsFile(t3, dest0) && t3[dest0] == t2[dest0]
      && rec1.src in t3 && t3[rec1.src] == t2[rec1.dest]
  {
    var src0 := Join(folder, a);
    var dest0 := Join(Join(folder, ca), a);
    var rec1 := MoveRecord(Join(src0, b), Join(folder, b));
    JoinSplit(folder, a);
    JoinSplit(folder, b);
    JoinSplit(src0, b);
    assert Restorable(rec1) by { assert rec1.dest[..|folder|] == folder; }
    assert IsDir(t2, folder) by { BelowDir(t2, folder, src0); }
    RestoreFolderExists(t2, {}, rec1);
    ShutilMoveSpec(t2, {}, rec1.dest, rec1.src);
    assert dest0 != rec1.dest && dest0 != rec1.src by {
      assert dest0[|folder|] == ca && rec1.dest[|folder|] == a;
    }
    assert Join(src0, a) != rec1.src && Join(src0, a) != rec1.dest;
  }

  /** The restore of the clash's first record once the second is back: as
      written it drops the file inside the directory `folder/a`; corrected
      it leaves the disk alone. */
  lemma ClashRestoreFirst(t3: Tree, folder: Path, a: string, ca: string)
    requires ca != a
    requires var src0 := Join(folder, a);
      && WellFormed(t3) && IsDir(t3, src0) && Join(src0, a) !in t3 && IsFile(t3, Join(Join(folder, ca), a))
    ensures var src0 := Join(folder, a);
      var rec0 := MoveRecord(Join(Join(folder, ca), a), src0);
      var u := RestoreAsWritten(t3, {}, rec0);
      && Join(src0, a) in u && u[Join(src0, a)] == t3[rec0.dest] && IsDir(u, src0)
      && RestoreOne(t3, {}, rec0) == t3
  {
    var src0 := Join(folder, a);
    var rec0 := MoveRecord(Join(Join(folder, ca), a), src0);
    JoinSplit(folder, a);
    JoinSplit(src0, a);
    JoinSplit(Join(folder, ca), a);
    assert Restorable(rec0) by { assert rec0.dest[..|folder|] == folder; }
    RestoreFolderExists(t3, {}, rec0);
    assert MoveTarget(t3, rec0.dest, rec0.src) == Join(src0, a);
    assert rec0.dest != rec0.src by { assert rec0.dest[|folder|] == ca; }
    ShutilMoveSpec(t3, {}, rec0.dest, rec0.src);
  }

  /** The undo of the clash run's ledger, on the disk the run leaves. */
  lemma ClashUndo(t2: Tree, folder: Path, a: string, b: string, ca: string, p: real)
    requires ca != a && a != b
    requires var src0 := Join(folder, a);
      && WellFormed(t2) && IsDir(t2, src0) && Join(folder, b) !in t2
      && IsFile(t2, Join(src0, b)) && IsFile(t2, Join(Join(folder, ca), a)) && Join(src0, a) !in t2
    ensures var src0 := Join(folder, a);
      var rec0 := MoveRecord(Join(Join(folder, ca), a), src0);
      var rec1 := MoveRecord(Join(src0, b), Join(folder, b));
      var t3 := RestoreAsWritten(t2, {}, rec1);
      var u := RestoreAsWritten(t3, {}, rec0);
      && Undo(t2, {}, [rec0, rec1], p).tree == u
      && Join(src0, a) in u && u[Join(src0, a)] == t2[rec0.dest] && IsDir(u, src0)
      && IsFile(t3, rec0.dest) && t3[rec0.dest] == t2[rec0.dest] && RestoreOne(t3, {}, rec0) == t3
      && rec1.src in t3 && t3[rec1.src] == t2[rec1.dest]
  {
    var src0 := Join(folder, a);
    var rec0 := MoveRecord(Join(Join(folder, ca), a), src0);
    var rec1 := MoveRecord(Join(src0, b), Join(folder, b));
    ClashRestoreSecond(t2, folder, a, b, ca);
    var t3 := RestoreAsWritten(t2, {}, rec1);
    ClashRestoreFirst(t3, folder, a, ca);
    assert [rec0, rec1] == [rec0] + [rec1];
    assert rec1.dest in t2;
    UndoLastFirst(t2, {}, [rec0], rec1, p);
    UndoSingle(t3, {}, rec0, p);
  }

  /** The undo of main.py:449-451 misplaces a file. A run over a clash files
      `a` away, then makes a folder `a` for `b`. Its undo restores `b` first;
      then shutil.move finds a directory where `a` was and drops the file
      inside it, at `folder/a/a`, where it never was. The restore with the
      original path checked leaves `a` in its category folder instead, like
      a failed move. */
  lemma RestoreMisplacesFile(t: Tree, rules: map<string, string>, folder: Path, a: string, b: string, p: real)
    requires Clash(t, rules, folder, a, b)
    ensures var src0 := Join(folder, a);
      var rec0 := MoveRecord(Join(Join(folder, CategoryOfName(a, rules).name), a), src0);
      var rec1 := MoveRecord(Join(src0, b), Join(folder, b));
      var s := MoveItems(t, {}, rules, folder, [a, b], false);
      var t3 := RestoreAsWritten(s.tree, {}, rec1);
      var u := RestoreAsWritten(t3, {}, rec0);
      && s.moves == [rec0, rec1]
      && Undo(s.tree, {}, s.moves, p).tree == u
      && Join(src0, a) in u && u[Join(src0, a)] == t[src0] && IsDir(u, src0)
      && IsFile(t3, rec0.dest) && t3[rec0.dest] == t[src0] && RestoreOne(t3, {}, rec0) == t3
      && rec1.src in t3 && t3[rec1.src] == t[rec1.src]
  {
    ClashRun(t, rules, folder, a, b);
    var s := MoveItems(t, {}, rules, folder, [a, b], false);
    ClashUndo(s.tree, folder, a, b, CategoryOfName(a, rules).name, p);
  }

  /** A folder `d` holding a file named Documents, without an extension, and
      the document a.pdf, listed in that order. */
  function ClashTree(): Tree
  {
    map[[] := Dir, ["d"] := Dir, ["d", "Documents"] := File("x"), ["d", "a.pdf"] := File("y")]
  }

  lemma ClashTreeWellFormed()
    ensures WellFormed(ClashTree())
  {
    var t := ClashTree();
    forall q | q in t && q != [] ensures IsDir(t, Dirname(q)) {
      assert q == ["d"] || q == ["d", "Documents"] || q == ["d", "a.pdf"];
      assert Dirname(["d"]) == [] && Dirname(["d", "Documents"]) == ["d"] && Dirname(["d", "a.pdf"]) == ["d"];
    }
  }

  /** The clash on a concrete disk: Documents goes to No_Extension_Files, and
      a.pdf to a new Documents folder. */
  lemma ClashExample(t: Tree)
    requires t == ClashTree()
    ensures Clash(t, map[], ["d"], "Documents", "a.pdf")
  {
    ClashTreeWellFormed();
    ClashPaths();
    DocumentExample();
    assert Join(["d"], "No_Extension_Files") == ["d", "No_Extension_Files"];
    assert ["d", "No_Extension_Files"] !in t && ["d", "No_Extension_Files", "Documents"] !in t;
  }

  /** The paths of the clash on the concrete disk. */
  lemma ClashPaths()
    ensures CategoryOfName("Documents", map[]).name == "No_Extension_Files"
    ensures Join(Join(["d"], CategoryOfName("Documents", map[]).name), "Documents") == ["d", "No_Extension_Files", "Documents"]
    ensures Join(["d"], "Documents") == ["d", "Documents"] && Join(["d"], "a.pdf") == ["d", "a.pdf"]
    ensures Join(Join(["d"], "Documents"), "a.pdf") == ["d", "Documents", "a.pdf"]
    ensures Join(Join(["d"], "Documents"), "Documents") == ["d", "Documents", "Documents"]
  {
    NoExtensionExample();
  }

  /** The misplaced file on the concrete disk: the run records
      d/Documents -> d/No_Extension_Files/Documents, then d/a.pdf ->
      d/Documents/a.pdf; the undo replays them last first and puts the file
      Documents at d/Documents/Documents. */
  lemma MisplacedDocuments(t: Tree, p: real)
    requires t == ClashTree()
    ensures var s := MoveItems(t, {}, map[], ["d"], ["Documents", "a.pdf"], false);
      && s.moves == [MoveRecord(["d", "No_Extension_Files", "Documents"], ["d", "Documents"]),
                     MoveRecord(["d", "Documents", "a.pdf"], ["d", "a.pdf"])]
      && var u := Undo(s.tree, {}, s.moves, p).tree;
      && ["d", "Documents", "Documents"] in u && u[["d", "Documents", "Documents"]] == File("x")
      && IsDir(u, ["d", "Documents"])
  {
    ClashExample(t);
    ClashPaths();
    RestoreMisplacesFile(t, map[], ["d"], "Documents", "a.pdf", p);
  }
}

/** What one organize run and one undo do, as functions of the disk they
    start from: the move loop over the scanned folders, the ledger of real
    moves it leaves behind, the progress value, and the undo replay. */
module Session {
  import opened Paths
  import opened Wrappers
  import opened FileSystem
  import opened Scanner
  import opened Mover
  import opened Pruning

  /** The disk and the records of real moves so far. */
  datatype MoveState = MoveState(tree: Tree, moves: seq<MoveRecord>)

  /** The inner move loop over one folder's queued names, in order; a record
      is kept only for a real (not dry-run) move. */
  function MoveItems(t: Tree, denied: set<Path>, rules: map<string, string>, folder: Path, items: seq<string>, dryRun: bool): MoveState
  {
    if items == [] then MoveState(t, [])
    else
      var n := |items| - 1;
      var s := MoveItems(t, denied, rules, folder, items[..n], dryRun);
      var step := Process(s.tree, denied, rules, Join(folder, items[n]), folder, dryRun);
      MoveState(step.tree, s.moves + if step.record.Some? && !dryRun then [step.record.value] else [])
  }

  /** One more name of the inner loop. */
  lemma MoveItemsNext(t: Tree, denied: set<Path>, rules: map<string, string>, folder: Path, items: seq<string>, k: nat, dryRun: bool)
    requires k < |items|
    ensures var s := MoveItems(t, denied, rules, folder, items[..k], dryRun);
      var step := Process(s.tree, denied, rules, Join(folder, items[k]), folder, dryRun);
      MoveItems(t, denied, rules, folder, items[..k + 1], dryRun)
        == MoveState(step.tree, s.moves + if step.record.Some? && !dryRun then [step.record.value] else [])
  {
    assert items[..k + 1][..k] == items[..k];
  }

  /** After a folder's moves: prune below it when asked to and not a dry run. */
  function AfterFolder(t: Tree, denied: set<Path>, folder: Path, deleteEmpty: bool, dryRun: bool): Tree
  {
    if deleteEmpty && !dryRun then PruneSpec(t, denied, folder) else t
  }

  /** The outer move loop over the folder table, in insertion order. */
  function MoveEntries(t: Tree, denied: set<Path>, rules: map<string, string>, entries: Entries, dryRun: bool, deleteEmpty: bool): MoveState
  {
    if entries == [] then MoveState(t, [])
    else
      var n := |entries| - 1;
      var s := MoveEntries(t, denied, rules, entries[..n], dryRun, deleteEmpty);
      var m := MoveItems(s.tree, denied, rules, entries[n].0, entries[n].1, dryRun);
      MoveState(AfterFolder(m.tree, denied, entries[n].0, deleteEmpty, dryRun), s.moves + m.moves)
  }

  /** One more folder of the outer loop. */
  lemma MoveEntriesNext(t: Tree, denied: set<Path>, rules: map<string, string>, entries: Entries, i: nat, dryRun: bool, deleteEmpty: bool)
    requires i < |entries|
    ensures var s := MoveEntries(t, denied, rules, entries[..i], dryRun, deleteEmpty);
      var m := MoveItems(s.tree, denied, rules, entries[i].0, entries[i].1, dryRun);
      && MoveEntries(t, denied, rules, entries[..i + 1], dryRun, deleteEmpty)
           == MoveState(AfterFolder(m.tree, denied, entries[i].0, deleteEmpty, dryRun), s.moves + m.moves)
      && Size(entries[..i + 1]) == Size(entries[..i]) + |entries[i].1|
  {
    assert entries[..i + 1][..i] == entries[..i];
  }

  /** The progress bar's clamp, max(0, min(1, x)). */
  function Clamp(x: real): (r: real)
    ensures 0.0 <= r <= 1.0
    ensures 0.0 <= x <= 1.0 ==> r == x
  {
    if x < 0.0 then 0.0 else if x > 1.0 then 1.0 else x
  }

  /** The value shown after `done` of `total` steps. */
  function Progress(done: nat, total: nat): real
    requires total > 0
  {
    Clamp(done as real / total as real)
  }

  /** The fraction shown is the done share of the total, and reaches exactly 1
      when every step is done. */
  lemma ProgressSpec(done: nat, total: nat)
    requires total > 0
    ensures 0.0 <= Progress(done, total) <= 1.0
    ensures done <= total ==> Progress(done, total) * total as real == done as real
    ensures Progress(total, total) == 1.0
  {
  }

  /** Progress rises with every step. */
  lemma ProgressMonotone(a: nat, b: nat, total: nat)
    requires total > 0 && a <= b
    ensures Progress(a, total) <= Progress(b, total)
  {
    assert a as real / total as real <= b as real / total as real;
  }

  /** What an organize run leaves: the disk, the undo ledger, the progress value. */
  datatype RunOutcome = RunOutcome(tree: Tree, ledger: seq<MoveRecord>, progress: real)

  /** _run_operation: the ledger is cleared first and progress reset; a scan
      that queues nothing ends the run there; otherwise every queued name is
      handled and counted, and the ledger becomes the real move records, or
      stays empty in a dry run. */
  function Run(t: Tree, denied: set<Path>, rules: map<string, string>, protectedPaths: set<Path>,
               jobs: seq<Job>, listings: seq<seq<string>>, dryRun: bool, deleteEmpty: bool): RunOutcome
    requires |listings| == |jobs|
  {
    var s := Scan(t, denied, protectedPaths, jobs, listings);
    if s.total == 0 then RunOutcome(t, [], 0.0)
    else
      var m := MoveEntries(t, denied, rules, s.entries, dryRun, deleteEmpty);
      RunOutcome(m.tree, if dryRun then [] else m.moves, Progress(Size(s.entries), s.total))
  }

  /** A run that queued something ends with the moves of the whole table. */
  lemma RunMoved(t: Tree, denied: set<Path>, rules: map<string, string>, protectedPaths: set<Path>,
                 jobs: seq<Job>, listings: seq<seq<string>>, dryRun: bool, deleteEmpty: bool)
    requires |listings| == |jobs| && Scan(t, denied, protectedPaths, jobs, listings).total > 0
    ensures var s := Scan(t, denied, protectedPaths, jobs, listings);
      var m := MoveEntries(t, denied, rules, s.entries, dryRun, deleteEmpty);
      Run(t, denied, rules, protectedPaths, jobs, listings, dryRun, deleteEmpty)
        == RunOutcome(m.tree, if dryRun then [] else m.moves, Progress(Size(s.entries), s.total))
  {
  }

  /** A dry run of one folder moves nothing and records nothing. */
  lemma {:induction false} MoveItemsDryRun(t: Tree, denied: set<Path>, rules: map<string, string>, folder: Path, items: seq<string>)
    ensures MoveItems(t, denied, rules, folder, items, true) == MoveState(t, [])
  {
    if items != [] {
      var n := |items| - 1;
      MoveItemsDryRun(t, denied, rules, folder, items[..n]);
      ProcessSkips(t, denied, rules, Join(folder, items[n]), folder, true);
    }
  }

  /** A dry run of the whole table moves nothing, prunes nothing and records nothing. */
  lemma {:induction false} MoveEntriesDryRun(t: Tree, denied: set<Path>, rules: map<string, string>, entries: Entries, deleteEmpty: bool)
    ensures MoveEntries(t, denied, rules, entries, true, deleteEmpty) == MoveState(t, [])
  {
    if entries != [] {
      var n := |entries| - 1;
      MoveEntriesDryRun(t, denied, rules, entries[..n], deleteEmpty);
      MoveItemsDryRun(t, denied, rules, entries[n].0, entries[n].1);
    }
  }

  /** Dry-run purity: a dry run leaves the disk as it was and the ledger
      empty, whatever the ledger held before. */
  lemma RunDryRun(t: Tree, denied: set<Path>, rules: map<string, string>, protectedPaths: set<Path>,
                  jobs: seq<Job>, listings: seq<seq<string>>, deleteEmpty: bool)
    requires |listings| == |jobs|
    ensures var r := Run(t, denied, rules, protectedPaths, jobs, listings, true, deleteEmpty);
      r.tree == t && r.ledger == []
  {
    var s := Scan(t, denied, protectedPaths, jobs, listings);
    MoveEntriesDryRun(t, denied, rules, s.entries, deleteEmpty);
  }

  /** A run that queues nothing changes nothing on disk and still empties the ledger. */
  lemma {:induction false} RunNothingQueued(t: Tree, denied: set<Path>, rules: map<string, string>, protectedPaths: set<Path>,
                         jobs: seq<Job>, listings: seq<seq<string>>, dryRun: bool, deleteEmpty: bool)
    requires |listings| == |jobs|
    requires forall j :: 0 <= j < |jobs| ==> Queued(t, denied, protectedPaths, jobs[j], listings[j]) == []
    ensures Scan(t, denied, protectedPaths, jobs, listings) == ScanResult([], 0)
    ensures Run(t, denied, rules, protectedPaths, jobs, listings, dryRun, deleteEmpty) == RunOutcome(t, [], 0.0)
  {
    if jobs != [] {
      var n := |jobs| - 1;
      assert Queued(t, denied, protectedPaths, jobs[n], listings[n]) == [];
      RunNothingQueued(t, denied, rules, protectedPaths, jobs[..n], listings[..n], dryRun, deleteEmpty);
    }
  }

  /** Moves that went through one folder: each record takes a queued name of
      the folder to its destination, and there are never more records than
      names. */
  lemma {:induction false} MoveItemsRecords(t: Tree, denied: set<Path>, rules: map<string, string>, folder: Path, items: seq<string>, dryRun: bool)
    ensures var s := MoveItems(t, denied, rules, folder, items, dryRun);
      && |s.moves| <= |items|
      && forall m :: m in s.moves ==>
           exists x :: x in items && m.src == Join(folder, x) && m.dest == Destination(rules, m.src, folder)
  {
    if items != [] {
      var n := |items| - 1;
      MoveItemsRecords(t, denied, rules, folder, items[..n], dryRun);
      var s := MoveItems(t, denied, rules, folder, items[..n], dryRun);
      var src := Join(folder, items[n]);
      var step := Process(s.tree, denied, rules, src, folder, dryRun);
      assert step.record.Some? ==> step.record.value == MoveRecord(Destination(rules, src, folder), src);
      forall m | m in MoveItems(t, denied, rules, folder, items, dryRun).moves
        ensures exists x :: x in items && m.src == Join(folder, x) && m.dest == Destination(rules, m.src, folder)
      {
        if m in s.moves {
          var x :| x in items[..n] && m.src == Join(folder, x) && m.dest == Destination(rules, m.src, folder);
          assert x in items;
        } else {
          assert items[n] in items;
        }
      }
    }
  }

  /** A record of a real move out of the folder table: it takes a queued name
      of some folder to that name's destination. */
  predicate RecordOfTable(rules: map<string, string>, entries: Entries, m: MoveRecord)
  {
    exists i, x :: 0 <= i < |entries| && x in entries[i].1
      && m.src == Join(entries[i].0, x) && m.dest == Destination(rules, m.src, entries[i].0)
  }

  /** The moves of the folder table: each record takes a queued name of its
      folder to its destination, and there are never more records than
      queued names. */
  lemma {:induction false} MoveEntriesRecords(t: Tree, denied: set<Path>, rules: map<string, string>, entries: Entries, dryRun: bool, deleteEmpty: bool)
    ensures var m := MoveEntries(t, denied, rules, entries, dryRun, deleteEmpty);
      && |m.moves| <= Size(entries)
      && forall r :: r in m.moves ==> RecordOfTable(rules, entries, r)
  {
    if entries != [] {
      var n := |entries| - 1;
      MoveEntriesRecords(t, denied, rules, entries[..n], dryRun, deleteEmpty);
      var s := MoveEntries(t, denied, rules, entries[..n], dryRun, deleteEmpty);
      var (folder, items) := entries[n];
      MoveItemsRecords(s.tree, denied, rules, folder, items, dryRun);
      var m := MoveItems(s.tree, denied, rules, folder, items, dryRun);
      forall r | r in MoveEntries(t, denied, rules, entries, dryRun, deleteEmpty).moves
        ensures RecordOfTable(rules, entries, r)
      {
        if r in s.moves {
          var i, x :| 0 <= i < n && x in entries[..n][i].1
            && r.src == Join(entries[..n][i].0, x) && r.dest == Destination(rules, r.src, entries[..n][i].0);
          assert entries[..n][i] == entries[i];
        } else {
          assert r in m.moves;
          var x :| x in items && r.src == Join(folder, x) && r.dest == Destination(rules, r.src, folder);
          assert 0 <= n < |entries| && x in entries[n].1;
        }
      }
    }
  }

  /** The ledger of a real run: every record takes a name the scan queued in
      some folder to `folder/category/name`, and there are never more records
      than queued names; a dry run leaves no record. */
  lemma RunLedgerRecords(t: Tree, denied: set<Path>, rules: map<string, string>, protectedPaths: set<Path>,
                         jobs: seq<Job>, listings: seq<seq<string>>, dryRun: bool, deleteEmpty: bool)
    requires |listings| == |jobs|
    ensures var s := Scan(t, denied, protectedPaths, jobs, listings);
      var r := Run(t, denied, rules, protectedPaths, jobs, listings, dryRun, deleteEmpty);
      && |r.ledger| <= Size(s.entries)
      && (dryRun ==> r.ledger == [])
      && forall m :: m in r.ledger ==> RecordOfTable(rules, s.entries, m)
  {
    var s := Scan(t, denied, protectedPaths, jobs, listings);
    MoveEntriesRecords(t, denied, rules, s.entries, dryRun, deleteEmpty);
  }

  /** A run over distinct job folders that queued something ends with the
      progress bar at exactly 1. */
  lemma RunProgressEnds(t: Tree, denied: set<Path>, rules: map<string, string>, protectedPaths: set<Path>,
                        jobs: seq<Job>, listings: seq<seq<string>>, dryRun: bool, deleteEmpty: bool)
    requires |listings| == |jobs| && JobFoldersDistinct(jobs)
    requires Scan(t, denied, protectedPaths, jobs, listings).total > 0
    ensures Run(t, denied, rules, protectedPaths, jobs, listings, dryRun, deleteEmpty).progress == 1.0
  {
    ScanDistinctJobs(t, denied, protectedPaths, jobs, listings);
    var s := Scan(t, denied, protectedPaths, jobs, listings);
    assert Size(s.entries) == s.total;
    ProgressSpec(s.total, s.total);
  }

  /** The restore of one ledger record as main.py:449-451 writes it:
      recreate the original folder, then shutil.move the file back. When
      something now stands at the original path the move does not land
      there: onto a directory it puts the file inside it, onto a file it
      replaces it. A failure leaves what makedirs created. */
  function RestoreAsWritten(t: Tree, denied: set<Path>, rec: MoveRecord): Tree
  {
    match MakeDirs(t, denied, Dirname(rec.src))
    case None => t
    case Some(t1) =>
      match ShutilMove(t1, denied, rec.dest, rec.src)
      case None => t1
      case Some(t2) => t2
  }

  /** The restore of one ledger record with the original path checked first,
      as _process_file checks its destination: the file is moved back only
      when nothing stands at its original path; otherwise it stays where it
      is, like a failed move. This is the corrected restore of the findings
      of the README; the undo itself replays RestoreAsWritten. */
  function RestoreOne(t: Tree, denied: set<Path>, rec: MoveRecord): Tree
  {
    match MakeDirs(t, denied, Dirname(rec.src))
    case None => t
    case Some(t1) =>
      if rec.src in t1 then t1
      else
        match ShutilMove(t1, denied, rec.dest, rec.src)
        case None => t1
        case Some(t2) => t2
  }

  /** A restore never misplaces a file: it either moves no file at all, or it
      moves the file at the record's current path to exactly its original
      path, which was free, with its contents. */
  lemma RestoreLandsAtOrigin(t: Tree, denied: set<Path>, rec: MoveRecord)
    ensures var u := RestoreOne(t, denied, rec);
      || Files(u) == Files(t)
      || (IsFile(t, rec.dest) && rec.src !in t && Files(u) == (Files(t) - {rec.dest})[rec.src := t[rec.dest]])
  {
    var d := Dirname(rec.src);
    if MakeDirs(t, denied, d).Some? {
      var t1 := MakeDirs(t, denied, d).value;
      FilesSameUpToDirs(t, t1);
      if rec.src !in t1 && ShutilMove(t1, denied, rec.dest, rec.src).Some? {
        var t2 := ShutilMove(t1, denied, rec.dest, rec.src).value;
        assert !IsDir(t1, rec.src) && t2 == (t1 - {rec.dest})[rec.src := t1[rec.dest]];
        FilesAfterMove(t1, rec.dest, rec.src, t2);
      }
    }
  }

  /** A record whose original folder lies above its current path, as the
      records of a run do: the file went from `folder` into a category
      folder inside it. */
  predicate Restorable(rec: MoveRecord)
  {
    Dirname(rec.src) < rec.dest
  }

  /** For a restorable record whose file is still there, the makedirs of the
      undo finds the original folder in place and changes nothing, so it
      cannot fail. */
  lemma RestoreFolderExists(t: Tree, denied: set<Path>, rec: MoveRecord)
    requires WellFormed(t) && rec.dest in t && Restorable(rec)
    ensures MakeDirs(t, denied, Dirname(rec.src)) == Some(t)
  {
    var d := Dirname(rec.src);
    forall k | 0 <= k <= |d| ensures IsDir(t, d[..k]) {
      assert d[..k] == rec.dest[..k];
      AncestorIsDir(t, rec.dest, k);
    }
    var r := MakeDirs(t, denied, d).value;
    forall q | q in r && q <= d ensures q in t {
      assert q == d[..|q|];
    }
    assert r.Keys == t.Keys;
    assert forall q :: q in t ==> r[q] == t[q];
    assert r == t;
  }

  /** Every record one folder's moves leave is restorable. */
  lemma MoveItemsRestorable(t: Tree, denied: set<Path>, rules: map<string, string>, folder: Path, items: seq<string>, dryRun: bool)
    ensures forall m :: m in MoveItems(t, denied, rules, folder, items, dryRun).moves ==> Restorable(m)
  {
    MoveItemsRecords(t, denied, rules, folder, items, dryRun);
    forall m | m in MoveItems(t, denied, rules, folder, items, dryRun).moves ensures Restorable(m) {
      var x :| x in items && m.src == Join(folder, x) && m.dest == Destination(rules, m.src, folder);
      JoinSplit(folder, x);
      var dir := DestinationDir(rules, m.src, folder);
      assert folder < dir && dir < m.dest;
      assert m.dest[..|folder|] == folder;
    }
  }

  /** Every record a table of folders leaves is restorable. */
  lemma {:induction false} MoveEntriesRestorable(t: Tree, denied: set<Path>, rules: map<string, string>, entries: Entries, dryRun: bool, deleteEmpty: bool)
    ensures forall m :: m in MoveEntries(t, denied, rules, entries, dryRun, deleteEmpty).moves ==> Restorable(m)
  {
    if entries != [] {
      var n := |entries| - 1;
      MoveEntriesRestorable(t, denied, rules, entries[..n], dryRun, deleteEmpty);
      var s := MoveEntries(t, denied, rules, entries[..n], dryRun, deleteEmpty);
      MoveItemsRestorable(s.tree, denied, rules, entries[n].0, entries[n].1, dryRun);
    }
  }

  /** Every record of the ledger a run leaves is restorable, so the undo's
      unguarded makedirs never fails on it. */
  lemma RunLedgerRestorable(t: Tree, denied: set<Path>, rules: map<string, string>, protectedPaths: set<Path>,
                            jobs: seq<Job>, listings: seq<seq<string>>, dryRun: bool, deleteEmpty: bool)
    requires |listings| == |jobs|
    ensures forall m :: m in Run(t, denied, rules, protectedPaths, jobs, listings, dryRun, deleteEmpty).ledger ==> Restorable(m)
  {
    var s := Scan(t, denied, protectedPaths, jobs, listings);
    MoveEntriesRestorable(t, denied, rules, s.entries, dryRun, deleteEmpty);
  }

  /** The disk and the progress value during an undo. */
  datatype UndoState = UndoState(tree: Tree, progress: real)

  /** The undo loop over the first records of the reversed ledger. A record
      whose current path is gone is skipped without touching the progress
      value; any other is restored (or fails) and sets the progress to its
      position over the total. */
  function UndoSteps(t: Tree, denied: set<Path>, recs: seq<MoveRecord>, total: nat, p: real): UndoState
    requires |recs| <= total
  {
    if recs == [] then UndoState(t, p)
    else
      var n := |recs| - 1;
      var s := UndoSteps(t, denied, recs[..n], total, p);
      if recs[n].dest !in s.tree then s
      else UndoState(RestoreAsWritten(s.tree, denied, recs[n]), Progress(n + 1, total))
  }

  /** One more record of the undo loop. */
  lemma UndoStepsNext(t: Tree, denied: set<Path>, recs: seq<MoveRecord>, k: nat, total: nat, p: real)
    requires k < |recs| <= total
    ensures var s := UndoSteps(t, denied, recs[..k], total, p);
      UndoSteps(t, denied, recs[..k + 1], total, p)
        == if recs[k].dest !in s.tree then s else UndoState(RestoreAsWritten(s.tree, denied, recs[k]), Progress(k + 1, total))
  {
    assert recs[..k + 1][..k] == recs[..k];
  }

  function Reverse<T>(s: seq<T>): (r: seq<T>)
    ensures |r| == |s|
    ensures forall i :: 0 <= i < |s| ==> r[i] == s[|s| - 1 - i]
  {
    if s == [] then [] else Reverse(s[1..]) + [s[0]]
  }

  /** _run_undo: an empty ledger changes nothing; otherwise the records are
      replayed last first. */
  function Undo(t: Tree, denied: set<Path>, ledger: seq<MoveRecord>, p: real): UndoState
  {
    if ledger == [] then UndoState(t, p)
    else UndoSteps(t, denied, Reverse(ledger), |ledger|, p)
  }

  /** The last record is restored first: undoing a ledger with one more record
      at the end is restoring that record, then undoing the rest. */
  lemma UndoLastFirst(t: Tree, denied: set<Path>, ledger: seq<MoveRecord>, rec: MoveRecord, p: real)
    ensures Undo(t, denied, ledger + [rec], p).tree ==
      var t1 := if rec.dest in t then RestoreAsWritten(t, denied, rec) else t;
      Undo(t1, denied, ledger, p).tree
  {
    var total := |ledger| + 1;
    var recs := Reverse(ledger + [rec]);
    assert recs == [rec] + Reverse(ledger);
    var t1 := if rec.dest in t then RestoreAsWritten(t, denied, rec) else t;
    var q := if rec.dest in t then Progress(1, total) else p;
    UndoStepsFirst(t, denied, rec, Reverse(ledger), total, p);
    UndoStepsProgressFree(t1, denied, Reverse(ledger), total, q, |ledger|, p);
  }

  /** Taking the first record off the front of the replay. */
  lemma {:induction false} UndoStepsFirst(t: Tree, denied: set<Path>, rec: MoveRecord, rest: seq<MoveRecord>, total: nat, p: real)
    requires 1 + |rest| <= total
    ensures UndoSteps(t, denied, [rec] + rest, total, p).tree ==
      var t1 := if rec.dest in t then RestoreAsWritten(t, denied, rec) else t;
      UndoStepsFrom(t1, denied, rest, total, if rec.dest in t then Progress(1, total) else p, 1).tree
    decreases |rest|
  {
    if rest == [] {
      assert ([rec] + rest)[..0] == [];
    } else {
      var n := |rest| - 1;
      assert ([rec] + rest)[..|rest|] == [rec] + rest[..n];
      UndoStepsFirst(t, denied, rec, rest[..n], total, p);
    }
  }

  /** The replay of `recs` counted from position `offset`. */
  function UndoStepsFrom(t: Tree, denied: set<Path>, recs: seq<MoveRecord>, total: nat, p: real, offset: nat): UndoState
    requires offset + |recs| <= total
  {
    if recs == [] then UndoState(t, p)
    else
      var n := |recs| - 1;
      var s := UndoStepsFrom(t, denied, recs[..n], total, p, offset);
      if recs[n].dest !in s.tree then s
      else UndoState(RestoreAsWritten(s.tree, denied, recs[n]), Progress(offset + n + 1, total))
  }

  /** The disk after the replay does not depend on the progress bookkeeping. */
  lemma {:induction false} UndoStepsProgressFree(t: Tree, denied: set<Path>, recs: seq<MoveRecord>, total: nat, p: real, total2: nat, p2: real)
    requires 1 + |recs| <= total && |recs| <= total2
    ensures UndoStepsFrom(t, denied, recs, total, p, 1).tree == UndoSteps(t, denied, recs, total2, p2).tree
  {
    if recs != [] {
      var n := |recs| - 1;
      UndoStepsProgressFree(t, denied, recs[..n], total, p, total2, p2);
    }
  }

  /** What a real move of `folder/item` leaves: the record names the
      destination and the source, the file sits at the destination and is
      gone from the source, the folder is still a directory, every other old
      entry keeps its node, and anything new besides the file is a
      directory. */
  lemma ProcessMoved(t: Tree, denied: set<Path>, rules: map<string, string>, folder: Path, item: string)
    requires WellFormed(t)
    requires Process(t, denied, rules, Join(folder, item), folder, false).record.Some?
    ensures var src := Join(folder, item);
      var dest := Destination(rules, src, folder);
      var s := Process(t, denied, rules, src, folder, false);
      && s.record.value == MoveRecord(dest, src) && Restorable(s.record.value)
      && WellFormed(s.tree) && IsFile(t, src) && dest !in t
      && IsFile(s.tree, dest) && s.tree[dest] == t[src] && src !in s.tree
      && src != [] && IsDir(s.tree, Dirname(src))
      && (forall q :: q in t && q != src ==> q in s.tree && s.tree[q] == t[q])
      && (forall q :: q in s.tree && q !in t && q != dest ==> q <= DestinationDir(rules, src, folder) && s.tree[q] == Dir)
  {
    var src := Join(folder, item);
    var destDir := DestinationDir(rules, src, folder);
    var dest := Destination(rules, src, folder);
    ProcessSucceeds(t, denied, rules, src, folder, false);
    PrepareSpec(t, denied, destDir);
    PreparedMove(t, denied, rules, src, folder);
    var m := Prepare(t, denied, destDir).value;
    ShutilMoveSpec(m, denied, src, dest);
    JoinSplit(folder, item);
    assert folder < destDir && destDir < dest;
    assert dest[..|folder|] == folder;
    assert IsDir(t, folder) by {
      AncestorIsDir(t, src, |folder|);
      assert src[..|folder|] == folder;
    }
    forall q | q in m && q !in t ensures m[q] == Dir {
      assert q !in Files(m);
    }
  }

  /** Undoing a one-record ledger whose file is present restores that record. */
  lemma UndoSingle(t: Tree, denied: set<Path>, rec: MoveRecord, p: real)
    requires rec.dest in t
    ensures Undo(t, denied, [rec], p).tree == RestoreAsWritten(t, denied, rec)
  {
    assert Reverse([rec]) == [rec];
    assert [rec][..0] == [];
    assert UndoSteps(t, denied, [rec][..0], 1, p) == UndoState(t, p);
    assert Undo(t, denied, [rec], p) == UndoSteps(t, denied, [rec], 1, p);
  }

  /** Restoring a restorable record whose original place is free and whose
      original folder is a directory moves the file straight back. */
  lemma RestoreMovesBack(t: Tree, denied: set<Path>, rec: MoveRecord)
    requires WellFormed(t) && Restorable(rec) && IsFile(t, rec.dest) && rec.dest !in denied
    requires rec.src !in t && IsDir(t, Dirname(rec.src)) && rec.src != []
    ensures var u := RestoreAsWritten(t, denied, rec);
      && RestoreOne(t, denied, rec) == u
      && rec.src in u && u[rec.src] == t[rec.dest] && rec.dest !in u
      && forall q :: q != rec.src && q != rec.dest ==> (q in u <==> q in t) && (q in t ==> u[q] == t[q])
  {
    RestoreFolderExists(t, denied, rec);
    ShutilMoveSpec(t, denied, rec.dest, rec.src);
  }

  /** The undo of a record whose original path holds a file again (made
      after the run) replaces that file: the moved file takes its place and
      what stood there is gone from that path. The corrected restore leaves
      the disk alone. */
  lemma RestoreOverwrites(t: Tree, denied: set<Path>, rec: MoveRecord, p: real)
    requires WellFormed(t) && Restorable(rec) && IsFile(t, rec.dest) && rec.dest !in denied
    requires IsFile(t, rec.src) && rec.src != rec.dest
    ensures var u := RestoreAsWritten(t, denied, rec);
      && Undo(t, denied, [rec], p).tree == u
      && rec.src in u && u[rec.src] == t[rec.dest] && rec.dest !in u
      && RestoreOne(t, denied, rec) == t
  {
    UndoSingle(t, denied, rec, p);
    RestoreFolderExists(t, denied, rec);
    assert rec.src != [];
    ShutilMoveSpec(t, denied, rec.dest, rec.src);
  }

  /** Where nothing stands at the original path, the two restores agree. */
  lemma RestoreAgrees(t: Tree, denied: set<Path>, rec: MoveRecord)
    requires rec.src != [] && rec.src !in t
    ensures RestoreAsWritten(t, denied, rec) == RestoreOne(t, denied, rec)
  {
    if MakeDirs(t, denied, Dirname(rec.src)).Some? {
      var t1 := MakeDirs(t, denied, Dirname(rec.src)).value;
      assert !(rec.src <= Dirname(rec.src));
      assert rec.src !in t1;
    }
  }

  /** Undo reverses a single move: after `folder/item` was filed away, undoing
      the one-record ledger puts it back, so every entry of the original
      disk is there again with its old node, the only additions are
      directories (the category folder stays), and the files are exactly
      the original ones. The OS must let the file leave its new place. */
  lemma UndoReversesProcess(t: Tree, denied: set<Path>, rules: map<string, string>, folder: Path, item: string, p: real)
    requires WellFormed(t)
    requires Process(t, denied, rules, Join(folder, item), folder, false).record.Some?
    requires Destination(rules, Join(folder, item), folder) !in denied
    ensures var s := Process(t, denied, rules, Join(folder, item), folder, false);
      var u := Undo(s.tree, denied, [s.record.value], p).tree;
      && (forall q :: q in t ==> q in u && u[q] == t[q])
      && (forall q :: q in u && q !in t ==> u[q] == Dir)
      && Files(u) == Files(t)
  {
    var src := Join(folder, item);
    var s := Process(t, denied, rules, src, folder, false);
    ProcessMoved(t, denied, rules, folder, item);
    var rec := s.record.value;
    var t2 := s.tree;
    UndoSingle(t2, denied, rec, p);
    RestoreMovesBack(t2, denied, rec);
    var u := Undo(t2, denied, [rec], p).tree;
    forall q | q in t ensures q in u && u[q] == t[q] {
      if q != src {
        assert q != rec.dest && q in t2 && t2[q] == t[q];
      }
    }
    forall q | q in u && q !in t ensures u[q] == Dir {
      assert q != src && q != rec.dest && q in t2 && u[q] == t2[q];
    }
    FilesSameUpToDirs(t, u);
  }
}

/** The organizer object: its settings, custom rules, undo ledger, progress
    value and phase, and the operations that change them and the disk step
    by step. */
module Engine {
  import opened Paths
  import opened Wrappers
  import opened Text
  import opened Classifier
  import opened FileSystem
  import opened Scanner
  import opened Mover
  import opened Pruning
  import opened Session

  /** The phase indicator of the window. */
  datatype Phase = Idle | Scanning | Moving | Done

  /** Why a custom rule was refused. */
  datatype RuleError = InvalidExtension | EmptyFolderName

  /** The checks of _add_custom_rule on the two text fields: the extension is
      stripped and lowered and must start with a dot and have at least two
      characters; the stripped folder name must not be empty. The extension
      is checked first. */
  function ValidateRule(extInput: string, folderInput: string): Result<(string, string), RuleError>
  {
    var ext := Lower(Strip(extInput));
    var folder := Strip(folderInput);
    if |ext| < 2 || ext[0] != '.' then Err(InvalidExtension)
    else if folder == "" then Err(EmptyFolderName)
    else Ok((ext, folder))
  }

  /** A rule is accepted exactly when both fields pass; an accepted rule's key
      is a lower-case dotted extension with no surrounding whitespace and its
      folder is a non-empty name with none either. */
  lemma ValidateRuleSpec(extInput: string, folderInput: string)
    ensures var r := ValidateRule(extInput, folderInput);
      var ext := Lower(Strip(extInput));
      && (r.Ok? <==> |ext| >= 2 && ext[0] == '.' && Strip(folderInput) != "")
      && (r == Err(InvalidExtension) <==> !(|ext| >= 2 && ext[0] == '.'))
    ensures var r := ValidateRule(extInput, folderInput);
      r.Ok? ==>
        && IsExtensionKey(r.value.0) && |r.value.0| >= 2
        && !IsSpace(r.value.0[0]) && !IsSpace(r.value.0[|r.value.0| - 1])
        && r.value.1 != "" && !IsSpace(r.value.1[0]) && !IsSpace(r.value.1[|r.value.1| - 1])
  {
    var s := Strip(extInput);
    StripSpec(extInput);
    StripSpec(folderInput);
    LowerIsLowerCase(s);
    var ext := Lower(s);
    if |ext| >= 2 {
      assert ext[|ext| - 1] == LowerChar(s[|s| - 1]);
    }
  }

  /** Surrounding blanks and capitals in the form are forgiven. */
  lemma RuleExampleAccepted()
    ensures ValidateRule(" .MKV ", " Films ") == Ok((".mkv", "Films"))
  {
    StripExtensionExample();
    StripFolderExample();
    LowerExample();
  }

  /** An extension without its dot is refused. */
  lemma RuleExampleNoDot()
    ensures ValidateRule("mkv", "Films") == Err(InvalidExtension)
  {
    StripUnchanged("mkv");
    LowerExample();
  }

  /** A lone dot is refused. */
  lemma RuleExampleLoneDot()
    ensures ValidateRule(".", "Films") == Err(InvalidExtension)
  {
    StripUnchanged(".");
  }

  /** A blank folder name is refused. */
  lemma RuleExampleBlankFolder()
    ensures ValidateRule(".mkv", "   ") == Err(EmptyFolderName)
  {
    StripUnchanged(".mkv");
    StripBlankExample();
    LowerExample();
  }

  /** An accepted rule takes over the classification of its extension. */
  lemma AcceptedRuleClassifies(rules: map<string, string>, extInput: string, folderInput: string)
    requires ValidateRule(extInput, folderInput).Ok?
    ensures var rule := ValidateRule(extInput, folderInput).value;
      CategoryFor(rule.0, rules[rule.0 := rule.1]) == Category(rule.1, false)
  {
  }

  /** The restore of one ledger record in _run_undo: recreate the original
      folder, then move the file back with shutil.move. */
  method RestoreRecord(disk: Disk, record: MoveRecord)
    modifies disk
    ensures disk.tree == RestoreAsWritten(old(disk.tree), disk.denied, record)
  {
    var made := disk.MakeDirsAt(Dirname(record.src));
    if made {
      var moved := disk.Move(record.dest, record.src);
    }
  }

  class Organizer {
    var customRules: map<string, string>
    var dryRun: bool
    var deleteEmpty: bool
    var undoLog: seq<MoveRecord>
    var progress: real
    var phase: Phase

    /** A fresh window with the settings loaded from disk. */
    constructor (rules: map<string, string>, dryRun: bool, deleteEmpty: bool)
      ensures customRules == rules && this.dryRun == dryRun && this.deleteEmpty == deleteEmpty
      ensures undoLog == [] && progress == 0.0 && phase == Idle
    {
      customRules := rules;
      this.dryRun := dryRun;
      this.deleteEmpty := deleteEmpty;
      undoLog := [];
      progress := 0.0;
      phase := Idle;
    }

    /** _add_custom_rule: an accepted rule inserts or overwrites its own key
        and no other; a refused one changes nothing. */
    method AddCustomRule(extInput: string, folderInput: string) returns (r: Result<(string, string), RuleError>)
      modifies this
      ensures r == ValidateRule(extInput, folderInput)
      ensures customRules == if r.Ok? then old(customRules)[r.value.0 := r.value.1] else old(customRules)
      ensures r.Ok? ==> forall e :: e != r.value.0 ==> (e in customRules <==> e in old(customRules))
      ensures dryRun == old(dryRun) && deleteEmpty == old(deleteEmpty) && undoLog == old(undoLog)
      ensures progress == old(progress) && phase == old(phase)
    {
      r := ValidateRule(extInput, folderInput);
      if r.Ok? {
        customRules := customRules[r.value.0 := r.value.1];
      }
    }

    /** _process_file against the disk, with this organizer's custom rules. */
    method ProcessFile(disk: Disk, source: Path, folder: Path, dry: bool) returns (record: Option<MoveRecord>)
      modifies disk
      ensures Step(disk.tree, record) == Process(old(disk.tree), disk.denied, customRules, source, folder, dry)
    {
      var isFile := disk.IsFileAt(source);
      if !isFile {
        return None;
      }
      var filename := Basename(source);
      var extension := Lower(Extension(filename));
      var category := CategoryFor(extension, customRules);
      var destinationDir := Join(folder, category.name);
      var destination := Join(destinationDir, filename);
      var taken := disk.Exists(destination);
      if taken || dry {
        return None;
      }
      var isDir := disk.IsDirAt(destinationDir);
      if !isDir {
        var made := disk.MakeDirsAt(destinationDir);
        if !made {
          return None;
        }
      }
      var moved := disk.Move(source, destination);
      record := if moved then Some(MoveRecord(destination, source)) else None;
    }

    /** _delete_empty_dirs: the walk below `base` visits each directory after
        everything beneath it and removes it when it lists as empty. */
    method DeleteEmptyDirs(disk: Disk, base: Path)
      requires WellFormed(disk.tree)
      modifies disk
      ensures disk.tree == PruneSpec(old(disk.tree), disk.denied, base)
    {
      ghost var t := disk.tree;
      var pending := set d | d in disk.tree && Walkable(disk.tree, disk.denied, base, d);
      ghost var all := pending;
      ghost var visited: set<Path> := {};
      while pending != {}
        invariant pending <= all && visited == all - pending
        invariant forall d :: d in all <==> d in t && Walkable(t, disk.denied, base, d)
        invariant disk.tree == Partial(t, disk.denied, base, visited)
        decreases |pending|
      {
        LongestExists(pending);
        var d :| d in pending && forall e :: e in pending ==> |e| <= |d|;
        LongestPendingFirst(t, disk.denied, base, all, pending, d);
        PruneVisit(t, disk.denied, base, visited, d);
        ghost var cur := disk.tree;
        var empty := disk.ListsEmpty(d);
        if empty == Some(true) {
          assert Prunable(t, disk.denied, base, d);
          var removed := disk.RemoveDirAt(d);
          assert disk.tree == cur - {d};
        } else {
          assert !Prunable(t, disk.denied, base, d);
        }
        VisitOne(all, pending, visited, d);
        pending := pending - {d};
        visited := visited + {d};
      }
      PruneAllVisited(t, disk.denied, base, visited);
    }

    /** The inner loop of _run_operation over one folder's queued names:
        every name is handled and counted, whatever the outcome, and the
        progress value follows the count. */
    method MoveFolder(disk: Disk, folder: Path, items: seq<string>, dry: bool, total: nat, processed0: nat)
      returns (records: seq<MoveRecord>, processed: nat)
      requires WellFormed(disk.tree) && total > 0
      requires progress == Progress(processed0, total)
      modifies disk, this`progress
      ensures var m := MoveItems(old(disk.tree), disk.denied, customRules, folder, items, dry);
        disk.tree == m.tree && records == m.moves
      ensures processed == processed0 + |items|
      ensures progress == Progress(processed, total)
      ensures WellFormed(disk.tree)
    {
      ghost var t := disk.tree;
      records := [];
      processed := processed0;
      var k := 0;
      while k < |items|
        invariant 0 <= k <= |items|
        invariant disk.tree == MoveItems(t, disk.denied, customRules, folder, items[..k], dry).tree
        invariant records == MoveItems(t, disk.denied, customRules, folder, items[..k], dry).moves
        invariant processed == processed0 + k
        invariant progress == Progress(processed, total)
        invariant WellFormed(disk.tree)
      {
        ProcessFiles(disk.tree, disk.denied, customRules, Join(folder, items[k]), folder, dry);
        MoveItemsNext(t, disk.denied, customRules, folder, items, k, dry);
        var result := ProcessFile(disk, Join(folder, items[k]), folder, dry);
        if result.Some? && !dry {
          records := records + [result.value];
        }
        processed := processed + 1;
        progress := Clamp(processed as real / total as real);
        k := k + 1;
      }
      assert items[..k] == items;
    }

    /** The end of one folder in _run_operation: its empty directories are
        pruned when asked to and not a dry run. */
    method FinishFolder(disk: Disk, folder: Path, dry: bool, prune: bool)
      requires WellFormed(disk.tree)
      modifies disk
      ensures disk.tree == AfterFolder(old(disk.tree), disk.denied, folder, prune, dry)
      ensures WellFormed(disk.tree)
    {
      if prune && !dry {
        PruneKeeps(disk.tree, disk.denied, folder);
        DeleteEmptyDirs(disk, folder);
      }
    }

    /** The move loop of _run_operation over the folder table, pruning
        after each folder when asked to and not a dry run. */
    method MoveAll(disk: Disk, entries: Entries, dry: bool, prune: bool, total: nat)
      returns (moves: seq<MoveRecord>, processed: nat)
      requires WellFormed(disk.tree) && total > 0 && progress == 0.0
      modifies disk, this`progress
      ensures var m := MoveEntries(old(disk.tree), disk.denied, customRules, entries, dry, prune);
        disk.tree == m.tree && moves == m.moves
      ensures processed == Size(entries)
      ensures progress == Progress(processed, total)
    {
      assert 0 as real / total as real == 0.0;
      ghost var t := disk.tree;
      ghost var rules := customRules;
      moves := [];
      processed := 0;
      var i := 0;
      while i < |entries|
        invariant 0 <= i <= |entries|
        invariant customRules == rules
        invariant MoveState(disk.tree, moves) == MoveEntries(t, disk.denied, rules, entries[..i], dry, prune)
        invariant processed == Size(entries[..i])
        invariant progress == Progress(processed, total)
        invariant WellFormed(disk.tree)
      {
        MoveEntriesNext(t, disk.denied, rules, entries, i, dry, prune);
        ghost var m := MoveItems(disk.tree, disk.denied, rules, entries[i].0, entries[i].1, dry);
        var folderMoves;
        folderMoves, processed := MoveFolder(disk, entries[i].0, entries[i].1, dry, total, processed);
        assert disk.tree == m.tree && folderMoves == m.moves;
        moves := moves + folderMoves;
        FinishFolder(disk, entries[i].0, dry, prune);
        i := i + 1;
      }
      assert entries[..i] == entries;
    }

    /** _run_operation: scan the jobs' folders, then handle every queued name
        folder by folder, pruning after each folder when asked to, and keep
        the real moves as the new undo ledger. `listings[i]` is what
        os.listdir returns for the folder of `jobs[i]`. */
    method RunOperation(disk: Disk, protectedPaths: set<Path>, jobs: seq<Job>, listings: seq<seq<string>>)
      requires |listings| == |jobs| && WellFormed(disk.tree)
      modifies this, disk
      ensures var r := Run(old(disk.tree), disk.denied, old(customRules), protectedPaths, jobs, listings, old(dryRun), old(deleteEmpty));
        disk.tree == r.tree && undoLog == r.ledger && progress == r.progress
      ensures phase == Done
      ensures customRules == old(customRules) && dryRun == old(dryRun) && deleteEmpty == old(deleteEmpty)
    {
      ghost var expected := Run(disk.tree, disk.denied, customRules, protectedPaths, jobs, listings, dryRun, deleteEmpty);
      ghost var t := disk.tree;
      progress := 0.0;
      undoLog := [];
      var dry := dryRun;
      var prune := deleteEmpty;
      phase := Scanning;
      var entries, total := ScanFolders(disk, protectedPaths, jobs, listings);
      if total == 0 {
        phase := Done;
        assert expected == RunOutcome(t, [], 0.0);
        return;
      }
      phase := Moving;
      RunMoved(t, disk.denied, customRules, protectedPaths, jobs, listings, dry, prune);
      var moves, processed := MoveAll(disk, entries, dry, prune, total);
      undoLog := if dry then [] else moves;
      phase := Done;
      assert expected == RunOutcome(disk.tree, undoLog, progress);
    }

    /** _run_undo, with a failed makedirs handled like a failed move: nothing
        happens for an empty ledger; otherwise the records are restored last
        first, a record whose file is gone is skipped without a progress
        update, and the ledger ends empty. */
    method RunUndo(disk: Disk)
      modifies this, disk
      ensures var u := Undo(old(disk.tree), disk.denied, old(undoLog), old(progress));
        disk.tree == u.tree && progress == u.progress
      ensures undoLog == []
      ensures phase == if old(undoLog) == [] then old(phase) else Done
      ensures customRules == old(customRules) && dryRun == old(dryRun) && deleteEmpty == old(deleteEmpty)
    {
      if undoLog == [] {
        return;
      }
      phase := Moving;
      var toRestore := Reverse(undoLog);
      var total := |toRestore|;
      ghost var t := disk.tree;
      ghost var p := progress;
      var idx := 0;
      while idx < total
        invariant 0 <= idx <= total
        invariant UndoState(disk.tree, progress) == UndoSteps(t, disk.denied, toRestore[..idx], total, p)
        invariant customRules == old(customRules) && dryRun == old(dryRun) && deleteEmpty == old(deleteEmpty)
        invariant phase == Moving
      {
        var record := toRestore[idx];
        UndoStepsNext(t, disk.denied, toRestore, idx, total, p);
        var present := disk.Exists(record.dest);
        if present {
          RestoreRecord(disk, record);
          progress := Clamp((idx + 1) as real / total as real);
        }
        idx := idx + 1;
      }
      assert toRestore[..idx] == toRestore;
      undoLog := [];
      phase := Done;
    }
  }
}

/** The per-file step of an organize run: classify one file by its extension
    and move it into the category folder beside it, never overwriting. */
module Mover {
  import opened Paths
  import opened Wrappers
  import opened Text
  import opened Classifier
  import opened FileSystem

  /** A ledger record: where the file now is, and where it came from. */
  datatype MoveRecord = MoveRecord(dest: Path, src: Path)

  /** The tree after one file was handled, and the record of a real move. */
  datatype Step = Step(tree: Tree, record: Option<MoveRecord>)

  /** The category folder a file goes to: `folder/<category>`. */
  function DestinationDir(rules: map<string, string>, source: Path, folder: Path): Path
  {
    Join(folder, CategoryOfName(Basename(source), rules).name)
  }

  /** Where the file goes: `folder/<category>/<basename>`. */
  function Destination(rules: map<string, string>, source: Path, folder: Path): Path
  {
    Join(DestinationDir(rules, source, folder), Basename(source))
  }

  /** The category folder made ready for the move: left alone when it is a
      directory already, otherwise created with os.makedirs. */
  function Prepare(t: Tree, denied: set<Path>, destDir: Path): Option<Tree>
  {
    if IsDir(t, destDir) then Some(t) else MakeDirs(t, denied, destDir)
  }

  /** A prepared tree has the category folder as a directory, keeps every
      entry of the old tree, adds directories only on the way to the folder,
      so it keeps the same files and stays well-formed. */
  lemma PrepareSpec(t: Tree, denied: set<Path>, destDir: Path)
    requires WellFormed(t) && Prepare(t, denied, destDir).Some?
    ensures var m := Prepare(t, denied, destDir).value;
      && IsDir(m, destDir) && WellFormed(m) && Files(m) == Files(t)
      && (forall q :: q in t ==> q in m && m[q] == t[q])
      && (forall q :: q in m && q !in t ==> q <= destDir)
  {
    if !IsDir(t, destDir) {
      var m := MakeDirs(t, denied, destDir).value;
      assert destDir[..|destDir|] == destDir;
      MakeDirsWellFormed(t, denied, destDir);
      assert forall q :: q in m && q !in t ==> m[q] == Dir;
      assert Files(m) == Files(t);
    }
  }

  /** _process_file. A source that is not a regular file and a destination
      that already exists are skipped; a dry run stops there; otherwise the
      category folder is created when it is not a directory yet and the file
      is moved. A failed makedirs or move is logged and yields no record,
      but directories makedirs did create stay. */
  function Process(t: Tree, denied: set<Path>, rules: map<string, string>, source: Path, folder: Path, dryRun: bool): Step
  {
    var destDir := DestinationDir(rules, source, folder);
    var dest := Destination(rules, source, folder);
    if !IsFile(t, source) || dest in t || dryRun then Step(t, None)
    else
      match Prepare(t, denied, destDir)
      case None => Step(t, None)
      case Some(m) =>
        match ShutilMove(m, denied, source, dest)
        case None => Step(m, None)
        case Some(t2) => Step(t2, Some(MoveRecord(dest, source)))
  }

  /** Never overwrite: an existing destination, a dry run or a source that is
      not a file leave the tree exactly as it was and yield no record. */
  lemma ProcessSkips(t: Tree, denied: set<Path>, rules: map<string, string>, source: Path, folder: Path, dryRun: bool)
    ensures var r := Process(t, denied, rules, source, folder, dryRun);
      (Destination(rules, source, folder) in t || dryRun || !IsFile(t, source)) ==> r == Step(t, None)
  {
  }

  /** The move of a prepared tree: the destination is still free, its
      directory exists, and source and destination differ. */
  lemma PreparedMove(t: Tree, denied: set<Path>, rules: map<string, string>, source: Path, folder: Path)
    requires WellFormed(t) && IsFile(t, source)
    requires Destination(rules, source, folder) !in t
    requires Prepare(t, denied, DestinationDir(rules, source, folder)).Some?
    ensures var m := Prepare(t, denied, DestinationDir(rules, source, folder)).value;
      var dest := Destination(rules, source, folder);
      && dest !in m && source != dest && IsFile(m, source)
      && MoveTarget(m, source, dest) == dest
      && (ShutilMove(m, denied, source, dest).Some? <==> source !in denied)
  {
    var destDir := DestinationDir(rules, source, folder);
    var dest := Destination(rules, source, folder);
    PrepareSpec(t, denied, destDir);
    var m := Prepare(t, denied, destDir).value;
    assert |dest| > |destDir| && Dirname(dest) == destDir;
  }

  /** A move happens exactly when the source is a file, the destination is
      free, it is not a dry run, the category folder is or can be made a
      directory, and the OS lets the file go; the record is then
      (destination, source). */
  lemma ProcessSucceeds(t: Tree, denied: set<Path>, rules: map<string, string>, source: Path, folder: Path, dryRun: bool)
    requires WellFormed(t)
    ensures var r := Process(t, denied, rules, source, folder, dryRun);
      r.record.Some? <==>
        && IsFile(t, source) && Destination(rules, source, folder) !in t && !dryRun
        && source !in denied
        && Prepare(t, denied, DestinationDir(rules, source, folder)).Some?
    ensures var r := Process(t, denied, rules, source, folder, dryRun);
      r.record.Some? ==> r.record.value == MoveRecord(Destination(rules, source, folder), source)
  {
    var destDir := DestinationDir(rules, source, folder);
    if IsFile(t, source) && Destination(rules, source, folder) !in t && !dryRun && Prepare(t, denied, destDir).Some? {
      PreparedMove(t, denied, rules, source, folder);
    }
  }

  /** A successful move leaves the file, with its contents, at the
      destination, takes it away from the source, adds no file and changes no
      other file; a step without a record changes no file at all. Either way
      the tree stays well-formed and every other entry keeps its node. */
  lemma ProcessFiles(t: Tree, denied: set<Path>, rules: map<string, string>, source: Path, folder: Path, dryRun: bool)
    requires WellFormed(t)
    ensures var r := Process(t, denied, rules, source, folder, dryRun);
      var dest := Destination(rules, source, folder);
      && WellFormed(r.tree)
      && (r.record.None? ==> Files(r.tree) == Files(t))
      && (r.record.Some? ==> IsFile(t, source) && dest !in t && Files(r.tree) == (Files(t) - {source})[dest := t[source]])
    ensures var r := Process(t, denied, rules, source, folder, dryRun);
      forall p :: p in t && p != source ==> p in r.tree && r.tree[p] == t[p]
  {
    var destDir := DestinationDir(rules, source, folder);
    var dest := Destination(rules, source, folder);
    if IsFile(t, source) && dest !in t && !dryRun && Prepare(t, denied, destDir).Some? {
      PrepareSpec(t, denied, destDir);
      PreparedMove(t, denied, rules, source, folder);
      var m := Prepare(t, denied, destDir).value;
      var moved := ShutilMove(m, denied, source, dest);
      if moved.Some? {
        ShutilMoveSpec(m, denied, source, dest);
        FilesAfterMove(m, source, dest, moved.value);
      }
    }
  }

  /** The files of a tree after one file went from `src` to the free `dest`. */
  lemma FilesAfterMove(m: Tree, src: Path, dest: Path, t2: Tree)
    requires IsFile(m, src) && dest !in m && src != dest
    requires dest in t2 && t2[dest] == m[src] && src !in t2
    requires forall q :: q != src && q != dest ==> (q in t2 <==> q in m) && (q in m ==> t2[q] == m[q])
    ensures Files(t2) == (Files(m) - {src})[dest := m[src]]
  {
  }

  /** A folder `d` holding the single file a.pdf. */
  function ExampleTree(): Tree
  {
    map[[] := Dir, ["d"] := Dir, ["d", "a.pdf"] := File("x")]
  }

  lemma ExampleTreeWellFormed()
    ensures WellFormed(ExampleTree())
  {
    var t := ExampleTree();
    forall p | p in t && p != [] ensures IsDir(t, Dirname(p)) {
      assert p == ["d"] || p == ["d", "a.pdf"];
      assert Dirname(["d"]) == [] && Dirname(["d", "a.pdf"]) == ["d"];
    }
  }

  lemma ExampleFiles()
    ensures Files(ExampleTree()) == map[["d", "a.pdf"] := File("x")]
  {
    var t := ExampleTree();
    assert forall p :: p in t && t[p].File? ==> p == ["d", "a.pdf"];
  }

  lemma ExamplePrepare()
    ensures Prepare(ExampleTree(), {}, ["d", "Documents"]).Some?
  {
    var destDir: Path := ["d", "Documents"];
    assert destDir[..0] == [] && destDir[..1] == ["d"] && destDir[..2] == destDir;
    assert forall k :: 0 <= k <= 2 ==> destDir[..k] == [] || destDir[..k] == ["d"] || destDir[..k] == destDir;
  }

  /** The worked case: with no custom rules, moving a.pdf out of a folder that
      has no Documents directory creates it and files the document there. */
  lemma ProcessExample()
    ensures var r := Process(ExampleTree(), {}, map[], ["d", "a.pdf"], ["d"], false);
      && r.record == Some(MoveRecord(["d", "Documents", "a.pdf"], ["d", "a.pdf"]))
      && Files(r.tree) == map[["d", "Documents", "a.pdf"] := File("x")]
  {
    DocumentExample();
    ExampleTreeWellFormed();
    var t := ExampleTree();
    var destDir: Path := ["d", "Documents"];
    assert DestinationDir(map[], ["d", "a.pdf"], ["d"]) == destDir;
    assert Destination(map[], ["d", "a.pdf"], ["d"]) == ["d", "Documents", "a.pdf"];
    ExamplePrepare();
    ExampleFiles();
    var src: Path := ["d", "a.pdf"];
    var dest: Path := ["d", "Documents", "a.pdf"];
    assert IsFile(t, src) && dest !in t && src !in {};
    ProcessSucceeds(t, {}, map[], src, ["d"], false);
    ProcessFiles(t, {}, map[], src, ["d"], false);
    var r := Process(t, {}, map[], src, ["d"], false);
    assert r.record.Some?;
    var f := Files(r.tree);
    assert f == (Files(t) - {src})[dest := t[src]];
    assert Files(t) - {src} == map[];
  }
}

# FileOrganizer engine in Dafny

FileOrganizer is a desktop tool that tidies folders. It moves every regular file into a category sub-folder chosen by the file's extension, using a built-in table, the user's custom rules, or a synthesized `<EXT>_Files` name. Dry runs leave the disk alone. Empty folders can be pruned afterwards. The last session can be undone from a ledger of the moves it made.

This project models that engine over an abstract filesystem and proves its contracts:

- **Paths, Text** (`paths.dfy`, `text.dfy`): paths are sequences of components. The module gives `os.path.join`, `basename`, `dirname` and `splitext`, and `str.lower`, `str.upper` and `str.strip`.
- **Classifier** (`classifier.dfy`): the built-in category table, the extension map derived from it, and the lookup chain of `_category_for_extension`.
- **FileSystem** (`filesystem.dfy`): a disk is a finite map from path to `File(data) | Dir`. It has `os.makedirs`, `shutil.move` and `os.rmdir` as functions, and a `Disk` object whose methods apply them in place. `denied` holds the paths the OS refuses to touch.
- **Scanner** (`scanner.dfy`): the scan phase of `_run_operation`, as a function and as the loop that computes it.
- **Mover** (`mover.dfy`): `_process_file`.
- **Pruning** (`prune.dfy`): what `_delete_empty_dirs` leaves behind.
- **Session** (`session.dfy`): the move loop, the ledger, the progress value and the undo replay, as functions of the starting disk.
- **Reversal** (`reversal.dfy`): when an undo gives back what a run did, and the disk on which the undo as written misplaces a file.
- **Engine** (`engine.dfy`): the `Organizer` class. Its fields are the custom rules, the two toggles, the undo ledger, the progress value and the phase. Its methods `AddCustomRule`, `ProcessFile`, `DeleteEmptyDirs`, `RunOperation` and `RunUndo` change those fields and the disk step by step. Each method is proved equal to the function that specifies it. The undo replays the restore as the source writes it. The restore corrected under "## Findings" is modelled beside it as Session.RestoreOne.

## Model

| member | source | states |
|---|---|---|
| Text.Strip | FileOrganizer/main.py:279-280 | `str.strip()`: drop leading and trailing whitespace; its contract is stated by Text.StripSpec |
| Text.Upper | FileOrganizer/main.py:517 | `str.upper()` on ASCII; its contract is stated by Text.UpperIsUpperCase |
| Text.UpperIsUpperCase | FileOrganizer/main.py:517 | the result has no lower-case letter; each lower-case letter becomes the capital that lowers back to it, and every other character is kept; upper-casing is idempotent, and lowering the result equals lowering the input |
| Text.SplitExt | FileOrganizer/main.py:385 | `os.path.splitext` on a name: the last dot that a non-dot precedes starts the extension; its contract is stated by Text.SplitExtSpec |
| Text.Lower | FileOrganizer/main.py:385 | `str.lower` keeps the length and lowers every ASCII capital, character by character |
| Text.LowerIsLowerCase | FileOrganizer/main.py:22-26 | the lowered string has no capital, lowering leaves a lower-case string alone, and it is idempotent |
| Text.StripSpec | FileOrganizer/main.py:279-280 | `str.strip` returns a slice of its input with non-blank ends and only whitespace cut off; it is empty exactly when the input is all whitespace |
| Text.TrimStartSpec | FileOrganizer/main.py:279-280 | the leading-blank trim keeps a suffix that starts with a non-blank and drops only whitespace |
| Text.TrimEndSpec | FileOrganizer/main.py:279-280 | the trailing-blank trim keeps a prefix that ends with a non-blank and drops only whitespace |
| Text.StripBetween | FileOrganizer/main.py:279-280 | the stripped string is the slice between the leading and trailing whitespace runs |
| Text.SplitExtSpec | FileOrganizer/main.py:385 | `splitext` cuts the name in two; a non-empty extension starts with its only dot; for a bare name the extension is non-empty exactly when a dot is preceded by a non-dot |
| Text.SplitExtExamples | FileOrganizer/main.py:466 | `a.tar.gz` gives `.gz`, `.bashrc` and `README` give `""`, `file.` gives `.`, `..hidden.txt` gives `.txt` |
| Classifier.AddCategory | FileOrganizer/main.py:22-26 | one category of the comprehension: each of its extensions, lowered, maps to it, a later duplicate winning; its contract is stated by Classifier.MasterLookup and Classifier.ListedOnlyUnder |
| Classifier.BuildExtensionMap | FileOrganizer/main.py:22-26 | the comprehension over the category table, in table order; its contract is stated by Classifier.MasterKeysWellFormed and Classifier.ListedNowhere |
| Classifier.MasterKeysWellFormed | FileOrganizer/main.py:13-26 | every key of the built-in map is lower case, starts with `.` and has another character, and it names a category of the table that lists it |
| Classifier.MasterTableWellFormed | FileOrganizer/main.py:13-21 | every extension written in the table is lower case, starts with `.` and has another character |
| Classifier.MasterTableLowerCase | FileOrganizer/main.py:13-21 | the table's extensions are written in lower case, so the derived keys are exactly the table's strings |
| Classifier.MasterLookup | FileOrganizer/main.py:22-26 | an extension listed under exactly one category maps to that category |
| Classifier.ListedOnlyUnder | FileOrganizer/main.py:22-26 | an extension listed under one category and no other is a key of the map and names that category |
| Classifier.ListedNowhere | FileOrganizer/main.py:22-26 | an extension no category lists is not a key of the map |
| Classifier.PdfIsDocument | FileOrganizer/main.py:15 | `.pdf` maps to Documents |
| Classifier.Mp4IsVideo | FileOrganizer/main.py:18 | `.mp4` maps to Videos |
| Classifier.XyzIsUnknown | FileOrganizer/main.py:13-26 | `.xyz` is not in the built-in map |
| Classifier.CategoryFor | FileOrganizer/main.py:508-518 | `_category_for_extension`: custom rule, then a truthy built-in category, then `<EXT>_Files`, then `No_Extension_Files`; its contract is stated by the next four lemmas |
| Classifier.CategoryOfName | FileOrganizer/main.py:465-467 | the category of a file name: splitext, lower, then the classifier |
| Classifier.CustomRuleWins | FileOrganizer/main.py:509-510 | a custom rule's folder is used, not dynamic, even when the built-in map lists the extension |
| Classifier.MasterCategoryApplies | FileOrganizer/main.py:512-514 | without a rule, a built-in extension gets a category of the table that lists it, not dynamic |
| Classifier.DynamicCategory | FileOrganizer/main.py:516-518 | a decision is dynamic iff neither the rules nor the map know the extension; then it is the upper-cased letters after the dot plus `_Files`, or `No_Extension_Files` for `""` |
| Classifier.CategoryNonEmpty | FileOrganizer/main.py:508-518 | the classifier is total and names a non-empty folder whenever every custom folder is non-empty |
| Classifier.DocumentExample | FileOrganizer/main.py:465-467 | `a.pdf` is classified as Documents |
| Classifier.VideoExample | FileOrganizer/main.py:18 | `b.mp4` is classified as Videos, not dynamic |
| Classifier.SynthesizedExample | FileOrganizer/main.py:516-517 | `c.xyz` is classified as `XYZ_Files`, dynamic |
| Classifier.CustomRuleExample | FileOrganizer/main.py:509-510 | the rule `.mp4 -> My_Movies` overrides Videos |
| Classifier.DotEdgeCases | FileOrganizer/main.py:516-518 | `file.` goes to `_Files` and `.bashrc` to `No_Extension_Files` |
| FileSystem.Disk.Exists | FileOrganizer/main.py:471 | `os.path.exists` holds exactly for a path present in the tree |
| FileSystem.Disk.IsFileAt | FileOrganizer/main.py:378 | `os.path.isfile` holds exactly for a regular file of the tree |
| FileSystem.Disk.IsDirAt | FileOrganizer/main.py:365 | `os.path.isdir` holds exactly for a directory of the tree |
| FileSystem.Disk.ListsEmpty | FileOrganizer/main.py:499 | `not os.listdir(path)`: raises for a missing, non-directory or refused path; otherwise true iff nothing lies directly inside |
| FileSystem.Disk.MakeDirsAt | FileOrganizer/main.py:481 | the disk after `os.makedirs` is the MakeDirs tree on success and unchanged on failure |
| FileSystem.Disk.Move | FileOrganizer/main.py:485 | the disk after `shutil.move` is the ShutilMove tree on success and unchanged on failure |
| FileSystem.Disk.RemoveDirAt | FileOrganizer/main.py:500 | the disk after `os.rmdir` is the RemoveDir tree on success and unchanged on failure |
| FileSystem.MakeDirs | FileOrganizer/main.py:481 | `os.makedirs` succeeds iff no prefix is a file and every missing prefix may be created; then every prefix is a directory, old entries stay, and only prefixes are added, as directories |
| FileSystem.MakeDirsWellFormed | FileOrganizer/main.py:481 | makedirs keeps the tree well-formed |
| FileSystem.ShutilMove | FileOrganizer/main.py:485 | `shutil.move` of a file: into a directory target under its own name, otherwise renamed; fails when refused, when the source is no file or the target folder is missing; its contract is stated by FileSystem.ShutilMoveSpec |
| FileSystem.ShutilMoveSpec | FileOrganizer/main.py:485 | a successful move puts the file, with its contents, at its target, removes the source, changes nothing else and keeps the tree well-formed |
| FileSystem.RemoveDir | FileOrganizer/main.py:500 | `os.rmdir` removes an empty, non-root directory the OS does not refuse; its contract is stated by FileSystem.RemoveDirWellFormed |
| FileSystem.RemoveDirWellFormed | FileOrganizer/main.py:500 | `os.rmdir` keeps the tree well-formed |
| FileSystem.FilesSameUpToDirs | FileOrganizer/main.py:481 | keeping every entry and adding only directories keeps the files |
| Scanner.Eligible | FileOrganizer/main.py:375-390 | a listed name is queued when it is a regular file, not a protected path, and its lowered extension is not skipped |
| Scanner.Queued | FileOrganizer/main.py:365-390 | a missing or unlistable folder contributes nothing; otherwise the eligible names of its listing |
| Scanner.Filter | FileOrganizer/main.py:375-390 | a listed name is queued iff it is a regular file whose path is not protected and whose lowered extension is not in the lowered skip set |
| Scanner.Put | FileOrganizer/main.py:393 | `folder_entries[folder] = items`: a present folder keeps its place and takes the new names, a new folder goes last, and no folder appears twice |
| Scanner.PutMembers | FileOrganizer/main.py:393 | after the assignment every entry is the new one or an old one |
| Scanner.PutNew | FileOrganizer/main.py:393 | assigning a folder the table does not hold appends it at the end |
| Scanner.Scan | FileOrganizer/main.py:363-396 | the folder table has distinct folders and only non-empty name lists |
| Scanner.ScanTotal | FileOrganizer/main.py:392-394 | `total_files` is the sum of every job's queued count, and is zero iff no job queued anything |
| Scanner.ScanSound | FileOrganizer/main.py:363-396 | every table entry is a job's folder holding exactly that job's queued names |
| Scanner.ScanDistinctJobs | FileOrganizer/main.py:363-396 | with distinct job folders the table lists, in job order, each job that queued something, and the total is the number of names in it |
| Scanner.QueuedComplete | FileOrganizer/main.py:370-390 | read through its true listing, a folder queues each of its eligible files exactly once and nothing else |
| Scanner.ScanComplete | FileOrganizer/main.py:363-396 | with true listings and distinct job folders, every eligible file of a listable job folder is queued under that folder |
| Scanner.ListEligible | FileOrganizer/main.py:375-390 | the loop over one listing keeps exactly the eligible names, in listing order |
| Scanner.ScanFolders | FileOrganizer/main.py:363-396 | the scan loop returns exactly the scanned table and total |
| Mover.Destination | FileOrganizer/main.py:465-469 | the destination is `folder/category/basename` |
| Mover.Prepare | FileOrganizer/main.py:480-481 | the category folder is left alone when it is a directory, otherwise made with makedirs; its contract is stated by Mover.PrepareSpec |
| Mover.Process | FileOrganizer/main.py:461-492 | `_process_file` on the tree; its contract is stated by Mover.ProcessSkips, Mover.ProcessSucceeds and Mover.ProcessFiles |
| Mover.PrepareSpec | FileOrganizer/main.py:480-481 | after preparation the category folder is a directory, no entry changes, only prefixes of the folder are added, and the files stay the same |
| Mover.ProcessSkips | FileOrganizer/main.py:462-477 | never overwrite: an existing destination, a dry run or a source that is not a file leaves the disk unchanged and yields no record |
| Mover.PreparedMove | FileOrganizer/main.py:479-485 | on the prepared disk the destination is free, its directory exists, and the move succeeds iff the OS lets the source go |
| Mover.ProcessSucceeds | FileOrganizer/main.py:461-492 | a record is returned iff the source is a file, the destination is free, it is not a dry run, the folder can be prepared and the source may be moved; the record is `(destination, source)` with destination `folder/category/basename` |
| Mover.ProcessFiles | FileOrganizer/main.py:479-492 | a move relocates exactly that file with its contents; a failed or skipped step changes no file; the tree stays well-formed and every other entry keeps its node |
| Mover.FilesAfterMove | FileOrganizer/main.py:485 | the files after a single-file move are the old files with that one relocated |
| Mover.ProcessExample | FileOrganizer/main.py:461-487 | `d/a.pdf` is moved to a newly created `d/Documents/a.pdf`, with record `(d/Documents/a.pdf, d/a.pdf)` |
| Pruning.Walkable | FileOrganizer/main.py:495 | `os.walk` reaches a directory strictly below the base when every directory on the way can be listed |
| Pruning.Prunable | FileOrganizer/main.py:496-500 | a reached directory is removed when it and everything under it are listable directories |
| Pruning.PruneSpec | FileOrganizer/main.py:494-503 | the tree after pruning; its contract is stated by Pruning.PruneKeeps, Pruning.PruneOnlyEmpty and Pruning.PruneComplete |
| Pruning.PruneVisit | FileOrganizer/main.py:495-503 | at each directory of the bottom-up walk, the directory is still there, it lists as empty iff it is prunable, and removing it gives the next state of the walk |
| Pruning.PruneKeeps | FileOrganizer/main.py:494-503 | pruning keeps every file, the base folder and everything not strictly below it, never adds or changes an entry, and keeps the tree well-formed |
| Pruning.PruneOnlyEmpty | FileOrganizer/main.py:499-500 | whatever is removed was a listable directory strictly below the base, and everything beneath it went too |
| Pruning.PruneComplete | FileOrganizer/main.py:494-503 | every listable directory that survives still holds an entry |
| Pruning.LongestExists | FileOrganizer/main.py:495 | a non-empty set of paths has a longest one, so a deepest-first visit order exists |
| Pruning.LongestPendingFirst | FileOrganizer/main.py:495 | when a longest pending directory is visited, every walkable directory below it has been visited |
| Session.MoveItems | FileOrganizer/main.py:410-420 | the inner move loop over one folder's names, keeping only a real move's record; its contract is stated by Session.MoveItemsRecords and Session.MoveItemsDryRun |
| Session.AfterFolder | FileOrganizer/main.py:422-423 | a folder is pruned after its moves exactly when pruning is on and it is not a dry run |
| Session.MoveEntries | FileOrganizer/main.py:409-423 | the outer move loop over the folder table; its contract is stated by Session.MoveEntriesRecords and Session.MoveEntriesDryRun |
| Session.Clamp | FileOrganizer/main.py:564-566 | the bar value lies in [0,1] and equals its input when the input already does |
| Session.Progress | FileOrganizer/main.py:419-420 | the bar value after `done` of `total` files; its contract is stated by Session.ProgressSpec |
| Session.ProgressSpec | FileOrganizer/main.py:419-420 | progress is `processed/total_files` clamped to [0,1], and is exactly 1 when every file was processed |
| Session.ProgressMonotone | FileOrganizer/main.py:419-420 | progress never goes down as files are processed |
| Session.Run | FileOrganizer/main.py:352-431 | `_run_operation` on the tree: ledger cleared, scan, early stop, moves, ledger; its contract is stated by Session.RunDryRun, Session.RunNothingQueued, Session.RunLedgerRecords and Session.RunProgressEnds |
| Session.MoveItemsDryRun | FileOrganizer/main.py:475-477 | a dry run of one folder moves nothing and records nothing |
| Session.MoveEntriesDryRun | FileOrganizer/main.py:422 | a dry run of the whole table moves and prunes nothing and records nothing |
| Session.RunDryRun | FileOrganizer/main.py:354-429 | dry-run purity: the disk is unchanged and the ledger empty, whatever it held before |
| Session.RunNothingQueued | FileOrganizer/main.py:354-402 | a run that queues nothing changes nothing and still leaves the ledger empty and the progress at 0 |
| Session.MoveItemsRecords | FileOrganizer/main.py:417-418 | every record of a folder takes one of its queued names to that name's destination, and there are never more records than names |
| Session.MoveEntriesRecords | FileOrganizer/main.py:409-418 | every record of the table's moves takes a queued name of its folder to that name's destination, and there are never more records than queued names |
| Session.RunLedgerRecords | FileOrganizer/main.py:417-431 | every record of a run's ledger takes a queued name to `folder/category/name`; there are never more records than queued names; a dry run leaves none |
| Session.RunProgressEnds | FileOrganizer/main.py:419-420 | with distinct job folders, a run that queued files ends with the progress at exactly 1 |
| Session.RestoreAsWritten | FileOrganizer/main.py:449-451 | the restore the undo replays: makedirs of the original folder, then `shutil.move` back, which lands inside a directory standing at the original path and replaces a file standing there; its contract is stated by Session.RestoreMovesBack, Session.RestoreOverwrites and Reversal.ClashRestoreFirst |
| Session.RestoreOne | FileOrganizer/main.py:449-454 | the corrected restore of the finding: as written, but the file moves back only when its original path is free; its contract is stated by Session.RestoreLandsAtOrigin and Session.RestoreAgrees |
| Session.RestoreAgrees | FileOrganizer/main.py:449-451 | where nothing stands at the original path, the restore as written and the corrected restore give the same disk |
| Session.RestoreOverwrites | FileOrganizer/main.py:449-451 | undoing a record whose original path holds a file again replaces that file with the moved one, and the moved file leaves its current path; the corrected restore leaves the disk alone |
| Session.RestoreLandsAtOrigin | FileOrganizer/main.py:449-454 | the corrected restore either changes no file or moves the file at the current path to exactly its free original path, with its contents |
| Session.RestoreFolderExists | FileOrganizer/main.py:449 | for a record whose file is still present and whose original folder lies above it, the undo's makedirs finds the folder in place and changes nothing |
| Session.MoveItemsRestorable | FileOrganizer/main.py:468-487 | every record of a folder's moves has its original folder above its current path |
| Session.MoveEntriesRestorable | FileOrganizer/main.py:409-418 | so does every record of the whole table |
| Session.RunLedgerRestorable | FileOrganizer/main.py:427-431 | so does every record of the ledger a run leaves |
| Session.Reverse | FileOrganizer/main.py:443 | `reversed` keeps the length and puts the last record first |
| Session.UndoSteps | FileOrganizer/main.py:445-455 | the undo loop: a missing file is skipped with no progress update; any other record is restored and sets progress to its position over the total |
| Session.Undo | FileOrganizer/main.py:438-455 | `_run_undo` on the tree: an empty ledger changes nothing, otherwise the reversed ledger is replayed; its contract is stated by Session.UndoLastFirst |
| Session.UndoLastFirst | FileOrganizer/main.py:443-455 | undo restores the last record first: undoing `ledger + [r]` restores `r` if its file is present, otherwise skips it, then undoes `ledger` |
| Session.UndoStepsFirst | FileOrganizer/main.py:445-455 | the replay takes its first record, then continues at position 1 |
| Session.UndoStepsProgressFree | FileOrganizer/main.py:445-455 | the disk after the replay does not depend on the progress bookkeeping |
| Session.ProcessMoved | FileOrganizer/main.py:461-492 | a real move of `folder/item` records (destination, source), puts the file at the destination, frees the source, keeps every other old entry and adds only directories besides the file |
| Session.UndoSingle | FileOrganizer/main.py:439-455 | undoing a one-record ledger whose file is present is restoring that record |
| Session.RestoreMovesBack | FileOrganizer/main.py:447-453 | restoring a record whose original place is free moves the file straight back and changes nothing else; the corrected restore gives the same disk |
| Session.UndoReversesProcess | FileOrganizer/main.py:438-492 | undo is the inverse of a single move: every original entry comes back with its node, only directories are added, and the files are the original ones |
| Reversal.RestoreExtends | FileOrganizer/main.py:449-451 | the restore as written, of a record clear of the extra directories, keeps one tree an extension of the other |
| Reversal.UndoExtends | FileOrganizer/main.py:443-455 | undoing a ledger of such records keeps one tree an extension of the other |
| Reversal.MoveItemsClear | FileOrganizer/main.py:410-420 | no record of a folder's moves touches a category folder of the run on its way back |
| Reversal.ProcessUndone | FileOrganizer/main.py:461-492 | one file filed away and restored gives back the old disk plus at most its category folder |
| Reversal.MoveItemsUndone | FileOrganizer/main.py:410-420 | undoing the moves of one folder's names gives back every old entry with its node; only category folders are added |
| Reversal.UndoInvertsRun | FileOrganizer/main.py:352-455 | undo inverts a real run over one folder without pruning, with nothing refused and no queued name equal to a category folder name: every old entry is back with its node, the files are the old files, and the only additions are empty category folders |
| Reversal.ClashFirstMove | FileOrganizer/main.py:461-492 | in a clash, the first file goes to its category folder |
| Reversal.ClashSecondMove | FileOrganizer/main.py:461-492 | in a clash, the second file goes into a new folder made where the first file was |
| Reversal.MoveItemsTwo | FileOrganizer/main.py:410-420 | a real run over two names is the two steps in order, keeping each record |
| Reversal.ClashRun | FileOrganizer/main.py:410-420 | the run over a clash records both moves and leaves the second file inside a directory where the first was |
| Reversal.ClashRestoreSecond | FileOrganizer/main.py:449-454 | restoring the clash's second record puts `b` back, and the restore as written does the same |
| Reversal.ClashRestoreFirst | FileOrganizer/main.py:449-454 | then the first record as written lands inside the new directory, while the corrected restore leaves the disk alone |
| Reversal.ClashUndo | FileOrganizer/main.py:443-455 | the undo of the clash restores the second file and drops the first inside the directory at its original path; the corrected restore would leave the first in its category folder |
| Reversal.RestoreMisplacesFile | FileOrganizer/main.py:449-451 | after a run over a clash, the undo drops the first file inside the new directory, at a path it never had |
| Reversal.ClashExample | FileOrganizer/main.py:461-492 | `d` holding the file `Documents` then `a.pdf` is a clash |
| Reversal.MisplacedDocuments | FileOrganizer/main.py:449-451 | on that disk the undo leaves the file Documents at `d/Documents/Documents` |
| Engine.ValidateRule | FileOrganizer/main.py:278-287 | the checks of `_add_custom_rule`; its contract is stated by Engine.ValidateRuleSpec |
| Engine.ValidateRuleSpec | FileOrganizer/main.py:278-287 | a rule is accepted iff the stripped, lowered extension starts with `.` and has at least two characters and the stripped folder is non-empty; the extension is checked first; the accepted key is an extension key without blanks and the folder is a non-blank name |
| Engine.RuleExampleAccepted | FileOrganizer/main.py:279-287 | `" .MKV "` and `" Films "` give the rule `.mkv -> Films` |
| Engine.RuleExampleNoDot | FileOrganizer/main.py:281-283 | `mkv` is refused as an invalid extension |
| Engine.RuleExampleLoneDot | FileOrganizer/main.py:281-283 | `.` is refused as an invalid extension |
| Engine.RuleExampleBlankFolder | FileOrganizer/main.py:284-286 | a blank folder name is refused |
| Engine.AcceptedRuleClassifies | FileOrganizer/main.py:509-510 | once accepted (main.py:287), a rule decides its extension's category |
| Engine.RestoreRecord | FileOrganizer/main.py:449-454 | one restore of the undo loop changes the disk exactly as Session.RestoreAsWritten |
| Engine.Organizer.constructor | FileOrganizer/main.py:46-60 | a new organizer has the given rules and toggles, an empty ledger, progress 0 and the idle phase |
| Engine.Organizer.AddCustomRule | FileOrganizer/main.py:278-290 | an accepted rule inserts or overwrites its own key and no other; a refused one changes nothing; no other field changes |
| Engine.Organizer.ProcessFile | FileOrganizer/main.py:461-492 | the disk and record are exactly those of `Process` |
| Engine.Organizer.DeleteEmptyDirs | FileOrganizer/main.py:494-503 | the walk leaves exactly the pruned tree |
| Engine.Organizer.FinishFolder | FileOrganizer/main.py:422-423 | after a folder, the disk is pruned below it exactly when pruning is on and it is not a dry run, and stays well-formed |
| Engine.Organizer.MoveFolder | FileOrganizer/main.py:410-420 | the inner loop leaves the disk and records of `MoveItems`, counts every name, and keeps the progress at count over total |
| Engine.Organizer.MoveAll | FileOrganizer/main.py:409-423 | the outer loop leaves the disk and records of `MoveEntries` and counts every queued name |
| Engine.Organizer.RunOperation | FileOrganizer/main.py:352-436 | the disk, ledger and progress are exactly those of `Run`; the phase ends Done; the rules and toggles do not change |
| Engine.Organizer.RunUndo | FileOrganizer/main.py:438-457 | the disk and progress are exactly those of `Undo`; the ledger is empty afterwards; an empty ledger changes nothing else; the rules and toggles do not change |

## Left out

- Case mapping covers ASCII letters only. Python's `str.lower`/`str.upper` also map other Unicode letters.
- Paths are absolute sequences of components, compared exactly. `os.path.abspath`, relative paths, symbolic links and case-insensitive filesystems are not modelled. A folder name is always one new component: `_add_custom_rule` (main.py:279-287) accepts a folder name `.` or `..`, and a loaded rule may hold `""` (main.py:45-47). In Python `.` and `""` make the destination the source itself, so the file is skipped, and `..` files it one level up. In the model each such name is an ordinary sub-folder, and a name containing `/` is one component rather than nested folders.
- `_protected_paths` and `_default_downloads` resolve `__file__` and the home folder; the protected set is a parameter.
- Each `os.listdir` result is a parameter, one listing per job, in the order the OS returns it.
- OS faults are modelled by a fixed set of paths the OS refuses. Transient, cross-device or permission faults that depend on more than the path are not modelled.
- `os.walk` is modelled by its outcome. The walk visits deepest directories first, which gives the same result as `topdown=False`. It does not model the walk's own listing order.
- Session.RestoreAsWritten: a failed `os.makedirs` during undo (main.py:449, outside the `try`) is modelled like a failed move, so the replay goes on and the ledger is cleared. In the source such a failure would raise out of `_run_undo`. Session.RunLedgerRestorable and Session.RestoreFolderExists show it cannot happen for the ledger a run leaves, because each record's original folder is an ancestor of its current path.
- Session.RestoreOne: the corrected restore is not wired into Session.Undo or Engine.Organizer.RunUndo, which replay the restore as written, so that the undo behaves as the source does.
- `shutil.move` of a directory is not modelled: ledger paths point at files. Moving back onto a directory puts the file inside it, and moving back onto a file replaces it, as `shutil.move` does.
- Engine.Organizer.RunOperation: progress is a real number, not a float.
- Reversal.UndoInvertsRun: the inverse of a whole run is proved for one job folder, without pruning, with nothing refused by the OS and no queued name equal to the name of a category folder of the same run. With several folders, pruning, refusals or such a name the statement needs further side conditions that are not stated. Session.UndoReversesProcess states the inverse of one move under weaker conditions.
- Session.RunProgressEnds: with duplicate job folders the table keeps only the last listing while `total_files` counts both, so the progress ends below 1. The lemma assumes distinct job folders.
- The Tk window, log text box, status text, phase colours and message boxes are left out. `_log`, `_set_status_text` and `_show_message` have no effect here.
- Threads, `is_running` and `_thread_wrapper` are left out. A run is modelled as one sequential call.
- Engine.Organizer.constructor takes the custom rules as loaded. The lowering of their keys while loading (main.py:45-47) belongs to the settings load. With two keys that lower alike, which one wins depends on the JSON order.
- The settings JSON, the two toggle handlers, `_save_settings` and `_refresh_rule_list` are left out. The toggles are plain fields.
- The mode selection of `_start_operation` (one folder, or the six standard user folders) is left out. Jobs are a parameter of RunOperation.


## Findings

| source | as written | input that shows it | evidently intended | confidence | as-written member | corrected member |
|---|---|---|---|---|---|---|
| FileOrganizer/main.py:449-451 | undo calls `shutil.move(current, original)` without checking the original path; when a directory now stands there the file is moved inside it | folder `d` holding a file `Documents` (no extension) listed before `a.pdf`: the run moves `Documents` to `d/No_Extension_Files/Documents`, then creates `d/Documents/` for `a.pdf`; undo restores `a.pdf`, then puts the file at `d/Documents/Documents` | undo puts each file back at exactly its original path, or leaves it where it is when that path is taken | medium, not executed | Reversal.MisplacedDocuments | Session.RestoreLandsAtOrigin |
| FileOrganizer/main.py:449-451 | the same unchecked `shutil.move`; when a file now stands at the original path it is replaced | a run files `d/a.pdf` to `d/Documents/a.pdf`; a new `d/a.pdf` is created; undo renames `d/Documents/a.pdf` onto it and the new file is lost | undo never destroys a file it did not move; a taken original path leaves the moved file where it is | medium, not executed | Session.RestoreOverwrites | Session.RestoreLandsAtOrigin |

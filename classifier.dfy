/** The extension classifier: the built-in category table, the extension map
    derived from it, and the lookup chain custom rule -> built-in map ->
    synthesized "<EXT>_Files" -> "No_Extension_Files". */
module Classifier {
  import opened Text

  /** The extensions each built-in category collects, as the table writes them. */
  const SystemAppsExtensions: seq<string> := [".exe", ".msi", ".bat", ".apk", ".jar", ".dmg", ".bin", ".iso"]
  const DocumentsExtensions: seq<string> := [".txt", ".doc", ".docx", ".pdf", ".xls", ".xlsx", ".ppt", ".pptx", ".rtf", ".csv"]
  const ImagesExtensions: seq<string> := [".jpg", ".jpeg", ".png", ".gif", ".svg", ".bmp", ".psd", ".webp", ".ico"]
  const AudioExtensions: seq<string> := [".mp3", ".wav", ".flac", ".mid", ".midi", ".ogg"]
  const VideosExtensions: seq<string> := [".mp4", ".avi", ".mkv", ".mov", ".wmv", ".flv"]
  const ArchivesExtensions: seq<string> := [".zip", ".rar", ".7z", ".tar", ".gz"]
  const DeveloperFilesExtensions: seq<string> := [".html", ".css", ".js", ".py", ".php", ".json", ".xml", ".sql"]

  /** The built-in categories with the extensions each one collects, in table order. */
  const MasterCategories: seq<(string, seq<string>)> := [
    ("System_Apps", SystemAppsExtensions),
    ("Documents", DocumentsExtensions),
    ("Images", ImagesExtensions),
    ("Audio", AudioExtensions),
    ("Videos", VideosExtensions),
    ("Archives", ArchivesExtensions),
    ("Developer_Files", DeveloperFilesExtensions)
  ]

  /** The category used for files without an extension. */
  const NoExtensionCategory := "No_Extension_Files"

  /** Enter every extension of one category, lowered, into `m`; as in a dict
      comprehension, a later entry for the same key wins. */
  function AddCategory(m: map<string, string>, category: string, exts: seq<string>): map<string, string>
  {
    if exts == [] then m
    else AddCategory(m, category, exts[..|exts| - 1])[Lower(exts[|exts| - 1]) := category]
  }

  /** The extension -> category map built from a category table, in table order. */
  function BuildExtensionMap(cats: seq<(string, seq<string>)>): map<string, string>
  {
    if cats == [] then map[]
    else
      var last := cats[|cats| - 1];
      AddCategory(BuildExtensionMap(cats[..|cats| - 1]), last.0, last.1)
  }

  /** The built-in extension map. */
  function MasterExtensionMap(): map<string, string>
  {
    BuildExtensionMap(MasterCategories)
  }

  /** `key` is the lowered form of an extension listed for `category` in `cats`. */
  predicate ListedIn(cats: seq<(string, seq<string>)>, key: string, category: string)
  {
    exists i, j :: 0 <= i < |cats| && 0 <= j < |cats[i].1| && cats[i].0 == category && Lower(cats[i].1[j]) == key
  }

  lemma {:induction false} AddCategoryEntries(m: map<string, string>, category: string, exts: seq<string>, key: string)
    ensures key in AddCategory(m, category, exts) <==>
      key in m || exists j :: 0 <= j < |exts| && Lower(exts[j]) == key
    ensures key in AddCategory(m, category, exts) ==>
      AddCategory(m, category, exts)[key] == (if exists j :: 0 <= j < |exts| && Lower(exts[j]) == key then category else m[key])
  {
    if exts != [] {
      var init := exts[..|exts| - 1];
      AddCategoryEntries(m, category, init, key);
      if key != Lower(exts[|exts| - 1]) {
        assert (exists j :: 0 <= j < |exts| && Lower(exts[j]) == key) <==>
               (exists j :: 0 <= j < |init| && Lower(init[j]) == key) by {
          if exists j :: 0 <= j < |exts| && Lower(exts[j]) == key {
            var j :| 0 <= j < |exts| && Lower(exts[j]) == key;
            assert j < |init| && init[j] == exts[j];
          }
          if exists j :: 0 <= j < |init| && Lower(init[j]) == key {
            var j :| 0 <= j < |init| && Lower(init[j]) == key;
            assert exts[j] == init[j];
          }
        }
      }
    }
  }

  /** The derived map holds exactly the lowered listed extensions, and maps each
      one to a category that lists it. */
  lemma {:induction false} BuildExtensionMapEntries(cats: seq<(string, seq<string>)>, key: string)
    ensures key in BuildExtensionMap(cats) <==> exists c :: ListedIn(cats, key, c)
    ensures key in BuildExtensionMap(cats) ==> ListedIn(cats, key, BuildExtensionMap(cats)[key])
  {
    if cats != [] {
      var init := cats[..|cats| - 1];
      var last := cats[|cats| - 1];
      var m := BuildExtensionMap(init);
      BuildExtensionMapEntries(init, key);
      AddCategoryEntries(m, last.0, last.1, key);
      forall c | ListedIn(init, key, c) ensures ListedIn(cats, key, c) {
        var i, j :| 0 <= i < |init| && 0 <= j < |init[i].1| && init[i].0 == c && Lower(init[i].1[j]) == key;
        assert cats[i] == init[i];
      }
      if exists j :: 0 <= j < |last.1| && Lower(last.1[j]) == key {
        var j :| 0 <= j < |last.1| && Lower(last.1[j]) == key;
        assert ListedIn(cats, key, last.0) by {
          assert cats[|cats| - 1] == last;
        }
      } else {
        forall c | ListedIn(cats, key, c) ensures ListedIn(init, key, c) {
          var i, j :| 0 <= i < |cats| && 0 <= j < |cats[i].1| && cats[i].0 == c && Lower(cats[i].1[j]) == key;
          assert i < |init| && init[i] == cats[i];
        }
      }
    }
  }

  /** A key of the extension map: lower-case, a leading dot, at least one more character. */
  predicate IsExtensionKey(key: string)
  {
    |key| >= 2 && key[0] == '.' && IsLowerCase(key)
  }

  /** Every extension of a list is written as a key of the extension map. */
  predicate KeyList(exts: seq<string>)
  {
    forall j :: 0 <= j < |exts| ==> IsExtensionKey(exts[j])
  }

  /** Every extension of a category table is written as a key of the extension map. */
  predicate WellFormedTable(cats: seq<(string, seq<string>)>)
  {
    forall i :: 0 <= i < |cats| ==> KeyList(cats[i].1)
  }

  lemma SystemAppsKeys() ensures KeyList(SystemAppsExtensions) {}
  lemma DocumentsKeys() ensures KeyList(DocumentsExtensions) {}
  lemma ImagesKeys() ensures KeyList(ImagesExtensions) {}
  lemma AudioKeys() ensures KeyList(AudioExtensions) {}
  lemma VideosKeys() ensures KeyList(VideosExtensions) {}
  lemma ArchivesKeys() ensures KeyList(ArchivesExtensions) {}
  lemma DeveloperFilesKeys() ensures KeyList(DeveloperFilesExtensions) {}

  /** Every extension the built-in table lists is written in lower case with
      its leading dot, so lowering it changes nothing. */
  lemma MasterTableWellFormed()
    ensures WellFormedTable(MasterCategories)
    ensures forall i, j :: 0 <= i < |MasterCategories| && 0 <= j < |MasterCategories[i].1| ==>
      Lower(MasterCategories[i].1[j]) == MasterCategories[i].1[j]
  {
    SystemAppsKeys();
    DocumentsKeys();
    ImagesKeys();
    AudioKeys();
    VideosKeys();
    ArchivesKeys();
    DeveloperFilesKeys();
    forall i, j | 0 <= i < |MasterCategories| && 0 <= j < |MasterCategories[i].1|
      ensures Lower(MasterCategories[i].1[j]) == MasterCategories[i].1[j]
    {
      LowerIsLowerCase(MasterCategories[i].1[j]);
    }
  }

  /** Every key of the built-in map is a lower-case extension with its leading
      dot, and names one of the built-in categories. */
  lemma MasterKeysWellFormed()
    ensures forall key :: key in MasterExtensionMap() ==> IsExtensionKey(key)
    ensures forall key :: key in MasterExtensionMap() ==> ListedIn(MasterCategories, key, MasterExtensionMap()[key])
  {
    MasterTableWellFormed();
    forall key | key in MasterExtensionMap()
      ensures IsExtensionKey(key) && ListedIn(MasterCategories, key, MasterExtensionMap()[key])
    {
      BuildExtensionMapEntries(MasterCategories, key);
      var c := MasterExtensionMap()[key];
      var i, j :| 0 <= i < |MasterCategories| && 0 <= j < |MasterCategories[i].1|
        && MasterCategories[i].0 == c && Lower(MasterCategories[i].1[j]) == key;
      assert KeyList(MasterCategories[i].1);
    }
  }

  /** A category decision: the folder name and whether it was synthesized. */
  datatype Category = Category(name: string, dynamic: bool)

  /** The lookup chain of the classifier for an (already lowered) extension. */
  function CategoryFor(ext: string, rules: map<string, string>): Category
  {
    if ext in rules then Category(rules[ext], false)
    else if ext in MasterExtensionMap() && MasterExtensionMap()[ext] != "" then Category(MasterExtensionMap()[ext], false)
    else if ext != "" then Category(Upper(ext[1..]) + "_Files", true)
    else Category(NoExtensionCategory, true)
  }

  /** A custom rule wins over the built-in map, even for an extension the map lists. */
  lemma CustomRuleWins(ext: string, rules: map<string, string>)
    requires ext in rules
    ensures CategoryFor(ext, rules) == Category(rules[ext], false)
  {
  }

  /** Without a custom rule, a built-in extension gets its built-in category,
      which is a category of the built-in table that lists it. */
  lemma MasterCategoryApplies(ext: string, rules: map<string, string>)
    requires ext !in rules && ext in MasterExtensionMap()
    ensures !CategoryFor(ext, rules).dynamic
    ensures ListedIn(MasterCategories, ext, CategoryFor(ext, rules).name)
  {
    MasterKeysWellFormed();
    var i, j :| 0 <= i < |MasterCategories| && 0 <= j < |MasterCategories[i].1|
      && MasterCategories[i].0 == MasterExtensionMap()[ext] && Lower(MasterCategories[i].1[j]) == ext;
    assert MasterCategories[i].0 != "";
  }

  /** A decision is synthesized exactly when neither table knows the extension;
      then a non-empty extension gives its upper-cased letters after the dot
      followed by "_Files", and the empty one gives the fixed fallback. */
  lemma DynamicCategory(ext: string, rules: map<string, string>)
    ensures CategoryFor(ext, rules).dynamic <==> ext !in rules && ext !in MasterExtensionMap()
    ensures CategoryFor(ext, rules).dynamic && ext != "" ==>
      var n := CategoryFor(ext, rules).name;
      |n| == |ext| + 5 && n[..|ext| - 1] == Upper(ext[1..]) && n[|ext| - 1..] == "_Files"
    ensures CategoryFor(ext, rules).dynamic && ext == "" ==> CategoryFor(ext, rules).name == NoExtensionCategory
  {
    if ext !in rules && ext in MasterExtensionMap() {
      MasterCategoryApplies(ext, rules);
    }
  }

  /** Every decision names a non-empty folder when every custom rule does. */
  lemma CategoryNonEmpty(ext: string, rules: map<string, string>)
    requires forall e :: e in rules ==> rules[e] != ""
    ensures CategoryFor(ext, rules).name != ""
  {
  }

  /** The classifier applied to the extension splitext reports for a file name;
      the lowering matches the organizer's. */
  function CategoryOfName(name: string, rules: map<string, string>): Category
  {
    CategoryFor(Lower(Extension(name)), rules)
  }

  /** Every extension of the built-in table is written in lower case, so the
      derived map's keys are the table's own strings. */
  lemma MasterTableLowerCase(key: string, c: string)
    ensures ListedIn(MasterCategories, key, c) <==>
      exists i, j :: 0 <= i < |MasterCategories| && 0 <= j < |MasterCategories[i].1|
        && MasterCategories[i].0 == c && MasterCategories[i].1[j] == key
  {
    MasterTableWellFormed();
  }

  /** The built-in map sends `key` to `c` when `c` is the only category that lists it. */
  lemma MasterLookup(key: string, c: string)
    requires ListedIn(MasterCategories, key, c)
    requires forall c' :: ListedIn(MasterCategories, key, c') ==> c' == c
    ensures key in MasterExtensionMap() && MasterExtensionMap()[key] == c
  {
    BuildExtensionMapEntries(MasterCategories, key);
  }

  /** An extension written in exactly one category's list maps to that category. */
  lemma ListedOnlyUnder(key: string, k: nat)
    requires k < |MasterCategories| && key in MasterCategories[k].1
    requires forall i :: 0 <= i < |MasterCategories| && i != k ==> key !in MasterCategories[i].1
    ensures key in MasterExtensionMap() && MasterExtensionMap()[key] == MasterCategories[k].0
  {
    var c := MasterCategories[k].0;
    MasterTableLowerCase(key, c);
    var j :| 0 <= j < |MasterCategories[k].1| && MasterCategories[k].1[j] == key;
    forall c' | ListedIn(MasterCategories, key, c') ensures c' == c {
      MasterTableLowerCase(key, c');
      var i, j' :| 0 <= i < |MasterCategories| && 0 <= j' < |MasterCategories[i].1|
        && MasterCategories[i].0 == c' && MasterCategories[i].1[j'] == key;
      assert key in MasterCategories[i].1;
    }
    MasterLookup(key, c);
  }

  /** An extension written in no category's list is not a key of the built-in map. */
  lemma ListedNowhere(key: string)
    requires forall i :: 0 <= i < |MasterCategories| ==> key !in MasterCategories[i].1
    ensures key !in MasterExtensionMap()
  {
    BuildExtensionMapEntries(MasterCategories, key);
    forall c ensures !ListedIn(MasterCategories, key, c) {
      MasterTableLowerCase(key, c);
    }
  }

  /** ".pdf" is a built-in document extension. */
  lemma PdfIsDocument()
    ensures ".pdf" in MasterExtensionMap() && MasterExtensionMap()[".pdf"] == "Documents"
  {
    assert DocumentsExtensions[3] == ".pdf";
    assert ".pdf" !in SystemAppsExtensions && ".pdf" !in ImagesExtensions && ".pdf" !in AudioExtensions;
    assert ".pdf" !in VideosExtensions && ".pdf" !in ArchivesExtensions && ".pdf" !in DeveloperFilesExtensions;
    ListedOnlyUnder(".pdf", 1);
  }

  /** ".mp4" is a built-in video extension. */
  lemma Mp4IsVideo()
    ensures ".mp4" in MasterExtensionMap() && MasterExtensionMap()[".mp4"] == "Videos"
  {
    assert VideosExtensions[0] == ".mp4";
    assert ".mp4" !in SystemAppsExtensions && ".mp4" !in DocumentsExtensions && ".mp4" !in ImagesExtensions;
    assert ".mp4" !in AudioExtensions && ".mp4" !in ArchivesExtensions && ".mp4" !in DeveloperFilesExtensions;
    ListedOnlyUnder(".mp4", 4);
  }

  /** ".xyz" is not a built-in extension. */
  lemma XyzIsUnknown()
    ensures ".xyz" !in MasterExtensionMap()
  {
    assert ".xyz" !in SystemAppsExtensions && ".xyz" !in DocumentsExtensions && ".xyz" !in ImagesExtensions;
    assert ".xyz" !in AudioExtensions && ".xyz" !in VideosExtensions;
    assert ".xyz" !in ArchivesExtensions && ".xyz" !in DeveloperFilesExtensions;
    ListedNowhere(".xyz");
  }

  /** The worked case of a built-in extension: "a.pdf" goes to Documents. */
  lemma DocumentExample()
    ensures CategoryOfName("a.pdf", map[]) == Category("Documents", false)
  {
    PdfExtension();
    PdfIsDocument();
  }

  /** The worked case of a built-in extension: "b.mp4" goes to Videos. */
  lemma VideoExample()
    ensures CategoryOfName("b.mp4", map[]) == Category("Videos", false)
  {
    Mp4Extension();
    Mp4IsVideo();
  }

  /** The worked case of an unknown extension: "c.xyz" goes to XYZ_Files. */
  lemma SynthesizedExample()
    ensures CategoryOfName("c.xyz", map[]) == Category("XYZ_Files", true)
  {
    XyzExtension();
    XyzIsUnknown();
  }

  /** The worked case of a custom rule: ".mp4 -> My_Movies" overrides Videos. */
  lemma CustomRuleExample()
    ensures CategoryOfName("b.mp4", map[".mp4" := "My_Movies"]) == Category("My_Movies", false)
  {
    Mp4Extension();
  }

  /** A name without a dot has no extension: "Documents" goes to
      No_Extension_Files. */
  lemma NoExtensionExample()
    ensures CategoryOfName("Documents", map[]) == Category("No_Extension_Files", true)
  {
    SplitExtSpec("Documents");
    assert !HasDottedSuffix("Documents");
    assert Lower("") == "";
    MasterKeysWellFormed();
  }

  /** A trailing dot is an extension of its own and yields "_Files"; a
      leading-dot name has no extension. */
  lemma DotEdgeCases()
    ensures CategoryOfName("file.", map[]) == Category("_Files", true)
    ensures CategoryOfName(".bashrc", map[]) == Category("No_Extension_Files", true)
  {
    SplitExtExamples();
    assert Lower(".") == ".";
    assert Lower("") == "";
    MasterKeysWellFormed();
  }
}

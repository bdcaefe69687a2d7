/** The scan phase of an organize run: for every job, the regular files of its
    folder listing that are neither protected paths nor of a skipped
    extension, gathered per folder, with a running total. */
module Scanner {
  import opened Paths
  import opened Text
  import opened FileSystem

  /** One folder to organize: a name for messages, the folder, and the
      extensions that must never be moved from it. */
  datatype Job = Job(name: string, folder: Path, skip: set<string>)

  /** The folder -> queued names table, in insertion order. */
  type Entries = seq<(Path, seq<string>)>

  /** The job's skip set, lowered. */
  function SkipSet(skip: set<string>): set<string>
  {
    set e | e in skip :: Lower(e)
  }

  /** A listed name is queued: it is a regular file, its absolute path is not
      protected and its lowered extension is not skipped. */
  predicate Eligible(t: Tree, protectedPaths: set<Path>, skip: set<string>, folder: Path, item: string)
  {
    IsFile(t, Join(folder, item)) && Join(folder, item) !in protectedPaths && Lower(Extension(item)) !in SkipSet(skip)
  }

  /** The eligible names of a listing, in listing order. */
  function Filter(t: Tree, protectedPaths: set<Path>, skip: set<string>, folder: Path, items: seq<string>): (r: seq<string>)
    ensures |r| <= |items|
    ensures forall x :: x in r <==> x in items && Eligible(t, protectedPaths, skip, folder, x)
  {
    if items == [] then []
    else
      var init := Filter(t, protectedPaths, skip, folder, items[..|items| - 1]);
      var x := items[|items| - 1];
      assert forall y :: y in items <==> y in items[..|items| - 1] || y == x;
      if Eligible(t, protectedPaths, skip, folder, x) then init + [x] else init
  }

  /** What a job contributes: nothing when its folder is missing or cannot be
      listed, otherwise the eligible names of the listing. */
  function Queued(t: Tree, denied: set<Path>, protectedPaths: set<Path>, job: Job, listing: seq<string>): seq<string>
  {
    if IsDir(t, job.folder) && job.folder !in denied then Filter(t, protectedPaths, job.skip, job.folder, listing)
    else []
  }

  /** No folder appears twice in a table (it models a dict). */
  predicate FoldersDistinct(entries: Entries)
  {
    forall i, j :: 0 <= i < j < |entries| ==> entries[i].0 != entries[j].0
  }

  /** folder_entries[folder] = items: a present key keeps its place and takes
      the new value, a new key goes last. */
  function Put(entries: Entries, folder: Path, items: seq<string>): (r: Entries)
    requires FoldersDistinct(entries)
    ensures FoldersDistinct(r)
    ensures |r| == |entries| || |r| == |entries| + 1
    ensures forall i :: 0 <= i < |entries| ==> r[i].0 == entries[i].0
    ensures forall i :: 0 <= i < |entries| && entries[i].0 != folder ==> r[i] == entries[i]
    ensures |r| == |entries| + 1 <==> forall i :: 0 <= i < |entries| ==> entries[i].0 != folder
    ensures |r| == |entries| + 1 ==> r[|entries|] == (folder, items)
    ensures forall i :: 0 <= i < |entries| && entries[i].0 == folder ==> r[i] == (folder, items)
  {
    if entries == [] then [(folder, items)]
    else if entries[0].0 == folder then [(folder, items)] + entries[1..]
    else [entries[0]] + Put(entries[1..], folder, items)
  }

  /** The outcome of the scan: the per-folder table and the running total. */
  datatype ScanResult = ScanResult(entries: Entries, total: nat)

  /** The scan over the jobs in order; `listings[i]` is what os.listdir
      returns for the folder of `jobs[i]`. */
  function Scan(t: Tree, denied: set<Path>, protectedPaths: set<Path>, jobs: seq<Job>, listings: seq<seq<string>>): (r: ScanResult)
    requires |listings| == |jobs|
    ensures FoldersDistinct(r.entries)
    ensures forall i :: 0 <= i < |r.entries| ==> r.entries[i].1 != []
  {
    if jobs == [] then ScanResult([], 0)
    else
      var n := |jobs| - 1;
      var before := Scan(t, denied, protectedPaths, jobs[..n], listings[..n]);
      var q := Queued(t, denied, protectedPaths, jobs[n], listings[n]);
      if q != [] then ScanResult(Put(before.entries, jobs[n].folder, q), before.total + |q|)
      else before
  }

  /** The number of names queued over all jobs, counted job by job. */
  function QueuedCount(t: Tree, denied: set<Path>, protectedPaths: set<Path>, jobs: seq<Job>, listings: seq<seq<string>>): nat
    requires |listings| == |jobs|
  {
    if jobs == [] then 0
    else
      var n := |jobs| - 1;
      QueuedCount(t, denied, protectedPaths, jobs[..n], listings[..n]) + |Queued(t, denied, protectedPaths, jobs[n], listings[n])|
  }

  /** total_files counts every queued name of every job, job by job, even
      when two jobs name the same folder; it is zero exactly when no job
      queued anything. */
  lemma {:induction false} ScanTotal(t: Tree, denied: set<Path>, protectedPaths: set<Path>, jobs: seq<Job>, listings: seq<seq<string>>)
    requires |listings| == |jobs|
    ensures Scan(t, denied, protectedPaths, jobs, listings).total == QueuedCount(t, denied, protectedPaths, jobs, listings)
    ensures Scan(t, denied, protectedPaths, jobs, listings).total == 0 <==>
      forall j :: 0 <= j < |jobs| ==> Queued(t, denied, protectedPaths, jobs[j], listings[j]) == []
  {
    if jobs != [] {
      var n := |jobs| - 1;
      ScanTotal(t, denied, protectedPaths, jobs[..n], listings[..n]);
      assert forall j :: 0 <= j < n ==> jobs[..n][j] == jobs[j] && listings[..n][j] == listings[j];
    }
  }

  /** The number of names in a folder table. */
  function Size(entries: Entries): nat
  {
    if entries == [] then 0 else Size(entries[..|entries| - 1]) + |entries[|entries| - 1].1|
  }

  lemma {:induction false} SizeAppend(entries: Entries, e: (Path, seq<string>))
    ensures Size(entries + [e]) == Size(entries) + |e.1|
  {
    assert (entries + [e])[..|entries|] == entries;
  }

  lemma {:induction false} SizeConcat(a: Entries, b: Entries)
    ensures Size(a + b) == Size(a) + Size(b)
    decreases |b|
  {
    if b == [] {
      assert a + b == a;
    } else {
      var n := |b| - 1;
      SizeConcat(a, b[..n]);
      var ab := a + b;
      assert ab[..|ab| - 1] == a + b[..n];
      assert ab[|ab| - 1] == b[n];
    }
  }

  predicate JobFoldersDistinct(jobs: seq<Job>)
  {
    forall i, j :: 0 <= i < j < |jobs| ==> jobs[i].folder != jobs[j].folder
  }

  /** A table entry is the folder of one of the jobs with that job's queued names. */
  predicate FromSomeJob(t: Tree, denied: set<Path>, protectedPaths: set<Path>, jobs: seq<Job>, listings: seq<seq<string>>, e: (Path, seq<string>))
    requires |listings| == |jobs|
  {
    exists j :: 0 <= j < |jobs| && jobs[j].folder == e.0 && e.1 == Queued(t, denied, protectedPaths, jobs[j], listings[j])
  }

  lemma FromSomeJobPrefix(t: Tree, denied: set<Path>, protectedPaths: set<Path>, jobs: seq<Job>, listings: seq<seq<string>>, n: nat, e: (Path, seq<string>))
    requires |listings| == |jobs| && n <= |jobs|
    requires FromSomeJob(t, denied, protectedPaths, jobs[..n], listings[..n], e)
    ensures FromSomeJob(t, denied, protectedPaths, jobs, listings, e)
  {
    var j :| 0 <= j < n && jobs[..n][j].folder == e.0 && e.1 == Queued(t, denied, protectedPaths, jobs[..n][j], listings[..n][j]);
    assert jobs[j] == jobs[..n][j] && listings[j] == listings[..n][j];
  }

  /** With distinct job folders, nothing the earlier jobs put in the table
      carries the last job's folder. */
  lemma NotFromLastJob(t: Tree, denied: set<Path>, protectedPaths: set<Path>, jobs: seq<Job>, listings: seq<seq<string>>, e: (Path, seq<string>))
    requires |listings| == |jobs| && jobs != [] && JobFoldersDistinct(jobs)
    requires FromSomeJob(t, denied, protectedPaths, jobs[..|jobs| - 1], listings[..|jobs| - 1], e)
    ensures e.0 != jobs[|jobs| - 1].folder
  {
    var n := |jobs| - 1;
    var j :| 0 <= j < n && jobs[..n][j].folder == e.0 && e.1 == Queued(t, denied, protectedPaths, jobs[..n][j], listings[..n][j]);
    assert jobs[j] == jobs[..n][j];
  }

  /** Every entry after an insert is the inserted one or was there before. */
  lemma {:induction false} PutMembers(entries: Entries, folder: Path, items: seq<string>)
    requires FoldersDistinct(entries)
    ensures forall e :: e in Put(entries, folder, items) ==> e == (folder, items) || e in entries
  {
    if entries != [] && entries[0].0 != folder {
      PutMembers(entries[1..], folder, items);
    }
  }

  /** Inserting a folder the table does not hold appends it. */
  lemma {:induction false} PutNew(entries: Entries, folder: Path, items: seq<string>)
    requires FoldersDistinct(entries)
    requires forall i :: 0 <= i < |entries| ==> entries[i].0 != folder
    ensures Put(entries, folder, items) == entries + [(folder, items)]
  {
    if entries != [] {
      PutNew(entries[1..], folder, items);
      assert entries == [entries[0]] + entries[1..];
    }
  }

  /** Every table entry is a folder of some job holding exactly that job's
      queued names. */
  lemma {:induction false} ScanSound(t: Tree, denied: set<Path>, protectedPaths: set<Path>, jobs: seq<Job>, listings: seq<seq<string>>)
    requires |listings| == |jobs|
    ensures forall e :: e in Scan(t, denied, protectedPaths, jobs, listings).entries ==> FromSomeJob(t, denied, protectedPaths, jobs, listings, e)
  {
    if jobs != [] {
      var n := |jobs| - 1;
      ScanSound(t, denied, protectedPaths, jobs[..n], listings[..n]);
      var before := Scan(t, denied, protectedPaths, jobs[..n], listings[..n]);
      var r := Scan(t, denied, protectedPaths, jobs, listings);
      var q := Queued(t, denied, protectedPaths, jobs[n], listings[n]);
      var last := (jobs[n].folder, q);
      if q != [] {
        PutMembers(before.entries, jobs[n].folder, q);
      }
      forall e | e in r.entries ensures FromSomeJob(t, denied, protectedPaths, jobs, listings, e) {
        if q != [] && e == last {
          assert jobs[n].folder == e.0 && e.1 == Queued(t, denied, protectedPaths, jobs[n], listings[n]);
        } else {
          assert e in before.entries;
          FromSomeJobPrefix(t, denied, protectedPaths, jobs, listings, n, e);
        }
      }
    }
  }

  /** The (folder, queued names) pairs of the jobs that queued something, in job order. */
  function NonEmptyQueues(t: Tree, denied: set<Path>, protectedPaths: set<Path>, jobs: seq<Job>, listings: seq<seq<string>>): Entries
    requires |listings| == |jobs|
  {
    if jobs == [] then []
    else
      var n := |jobs| - 1;
      var q := Queued(t, denied, protectedPaths, jobs[n], listings[n]);
      NonEmptyQueues(t, denied, protectedPaths, jobs[..n], listings[..n]) + (if q != [] then [(jobs[n].folder, q)] else [])
  }

  /** When no two jobs name the same folder, the table lists, in job order, each
      job that queued something with exactly its queued names, and the total is
      the number of names in the table. */
  lemma {:induction false} ScanDistinctJobs(t: Tree, denied: set<Path>, protectedPaths: set<Path>, jobs: seq<Job>, listings: seq<seq<string>>)
    requires |listings| == |jobs| && JobFoldersDistinct(jobs)
    ensures var r := Scan(t, denied, protectedPaths, jobs, listings);
      && r.entries == NonEmptyQueues(t, denied, protectedPaths, jobs, listings)
      && r.total == Size(r.entries)
  {
    if jobs != [] {
      var n := |jobs| - 1;
      assert JobFoldersDistinct(jobs[..n]);
      ScanDistinctJobs(t, denied, protectedPaths, jobs[..n], listings[..n]);
      var before := Scan(t, denied, protectedPaths, jobs[..n], listings[..n]);
      var q := Queued(t, denied, protectedPaths, jobs[n], listings[n]);
      if q != [] {
        ScanSound(t, denied, protectedPaths, jobs[..n], listings[..n]);
        forall i | 0 <= i < |before.entries| ensures before.entries[i].0 != jobs[n].folder {
          assert before.entries[i] in before.entries;
          NotFromLastJob(t, denied, protectedPaths, jobs, listings, before.entries[i]);
        }
        PutNew(before.entries, jobs[n].folder, q);
        SizeAppend(before.entries, (jobs[n].folder, q));
      }
    }
  }

  /** No name appears twice. */
  predicate Distinct(names: seq<string>)
  {
    forall i, j :: 0 <= i < j < |names| ==> names[i] != names[j]
  }

  /** `names` is what os.listdir returns for `folder`: every child of the
      folder exactly once, in some order. */
  ghost predicate ListingOf(t: Tree, folder: Path, names: seq<string>)
  {
    Distinct(names) && forall x :: x in names <==> Join(folder, x) in t
  }

  /** The eligible names of a listing without repeats have no repeats. */
  lemma {:induction false} FilterDistinct(t: Tree, protectedPaths: set<Path>, skip: set<string>, folder: Path, items: seq<string>)
    requires Distinct(items)
    ensures Distinct(Filter(t, protectedPaths, skip, folder, items))
  {
    if items != [] {
      var n := |items| - 1;
      var pre := items[..n];
      assert Distinct(pre) by {
        forall i, j | 0 <= i < j < |pre| ensures pre[i] != pre[j] {
          assert pre[i] == items[i] && pre[j] == items[j];
        }
      }
      FilterDistinct(t, protectedPaths, skip, folder, items[..n]);
      var init := Filter(t, protectedPaths, skip, folder, items[..n]);
      assert items[n] !in items[..n] by {
        forall i | 0 <= i < n ensures items[..n][i] != items[n] {
          assert items[..n][i] == items[i];
        }
      }
      assert items[n] !in init;
      var r := Filter(t, protectedPaths, skip, folder, items);
      if Eligible(t, protectedPaths, skip, folder, items[n]) {
        assert r == init + [items[n]];
        forall i, j | 0 <= i < j < |r| ensures r[i] != r[j] {
          if j == |init| {
            assert r[i] == init[i] && r[i] in init && r[j] == items[n];
          } else {
            assert r[i] == init[i] && r[j] == init[j];
          }
        }
      } else {
        assert r == init;
      }
    }
  }

  /** Reading a folder through its true listing queues each eligible file of
      the folder exactly once, and nothing else. */
  lemma QueuedComplete(t: Tree, denied: set<Path>, protectedPaths: set<Path>, job: Job, listing: seq<string>)
    requires ListingOf(t, job.folder, listing) && IsDir(t, job.folder) && job.folder !in denied
    ensures var q := Queued(t, denied, protectedPaths, job, listing);
      && (forall x :: x in q <==> Eligible(t, protectedPaths, job.skip, job.folder, x))
      && Distinct(q)
  {
    assert Queued(t, denied, protectedPaths, job, listing) == Filter(t, protectedPaths, job.skip, job.folder, listing);
    FilterDistinct(t, protectedPaths, job.skip, job.folder, listing);
  }

  /** Every job that queued something has its entry in the job-ordered table. */
  lemma {:induction false} NonEmptyQueuesHas(t: Tree, denied: set<Path>, protectedPaths: set<Path>, jobs: seq<Job>, listings: seq<seq<string>>, j: nat)
    requires |listings| == |jobs| && j < |jobs|
    requires Queued(t, denied, protectedPaths, jobs[j], listings[j]) != []
    ensures (jobs[j].folder, Queued(t, denied, protectedPaths, jobs[j], listings[j])) in NonEmptyQueues(t, denied, protectedPaths, jobs, listings)
  {
    var n := |jobs| - 1;
    if j < n {
      assert jobs[..n][j] == jobs[j] && listings[..n][j] == listings[j];
      NonEmptyQueuesHas(t, denied, protectedPaths, jobs[..n], listings[..n], j);
    }
  }

  /** Scan completeness: when every listing is its folder's true listing and
      no two jobs share a folder, every eligible file of a job folder that
      exists and may be listed is queued under that folder. */
  lemma ScanComplete(t: Tree, denied: set<Path>, protectedPaths: set<Path>, jobs: seq<Job>, listings: seq<seq<string>>)
    requires |listings| == |jobs| && JobFoldersDistinct(jobs)
    requires forall j :: 0 <= j < |jobs| ==> ListingOf(t, jobs[j].folder, listings[j])
    ensures forall j, x ::
      (0 <= j < |jobs| && IsDir(t, jobs[j].folder) && jobs[j].folder !in denied
       && Eligible(t, protectedPaths, jobs[j].skip, jobs[j].folder, x)) ==>
      exists e :: e in Scan(t, denied, protectedPaths, jobs, listings).entries && e.0 == jobs[j].folder && x in e.1
  {
    ScanDistinctJobs(t, denied, protectedPaths, jobs, listings);
    forall j, x | 0 <= j < |jobs| && IsDir(t, jobs[j].folder) && jobs[j].folder !in denied
        && Eligible(t, protectedPaths, jobs[j].skip, jobs[j].folder, x)
      ensures exists e :: e in Scan(t, denied, protectedPaths, jobs, listings).entries && e.0 == jobs[j].folder && x in e.1
    {
      QueuedComplete(t, denied, protectedPaths, jobs[j], listings[j]);
      var q := Queued(t, denied, protectedPaths, jobs[j], listings[j]);
      assert x in q;
      NonEmptyQueuesHas(t, denied, protectedPaths, jobs, listings, j);
      assert (jobs[j].folder, q).0 == jobs[j].folder && x in (jobs[j].folder, q).1;
    }
  }

  /** One more name of the inner scan loop. */
  lemma FilterNext(t: Tree, protectedPaths: set<Path>, skip: set<string>, folder: Path, items: seq<string>, k: nat)
    requires k < |items|
    ensures var init := Filter(t, protectedPaths, skip, folder, items[..k]);
      Filter(t, protectedPaths, skip, folder, items[..k + 1])
        == if Eligible(t, protectedPaths, skip, folder, items[k]) then init + [items[k]] else init
  {
    assert items[..k + 1][..k] == items[..k];
  }

  /** The inner scan loop over one folder's listing: the eligible names, in
      listing order. */
  method ListEligible(disk: Disk, protectedPaths: set<Path>, job: Job, items: seq<string>) returns (found: seq<string>)
    ensures found == Filter(disk.tree, protectedPaths, job.skip, job.folder, items)
  {
    found := [];
    var k := 0;
    while k < |items|
      invariant 0 <= k <= |items|
      invariant found == Filter(disk.tree, protectedPaths, job.skip, job.folder, items[..k])
    {
      var item := items[k];
      var source := Join(job.folder, item);
      var isFile := disk.IsFileAt(source);
      FilterNext(disk.tree, protectedPaths, job.skip, job.folder, items, k);
      if isFile && source !in protectedPaths && Lower(Extension(item)) !in SkipSet(job.skip) {
        found := found + [item];
      }
      k := k + 1;
    }
    assert items[..k] == items;
  }

  /** One more job of the scan loop. */
  lemma ScanNext(t: Tree, denied: set<Path>, protectedPaths: set<Path>, jobs: seq<Job>, listings: seq<seq<string>>, i: nat)
    requires |listings| == |jobs| && i < |jobs|
    ensures var before := Scan(t, denied, protectedPaths, jobs[..i], listings[..i]);
      var q := Queued(t, denied, protectedPaths, jobs[i], listings[i]);
      Scan(t, denied, protectedPaths, jobs[..i + 1], listings[..i + 1])
        == if q != [] then ScanResult(Put(before.entries, jobs[i].folder, q), before.total + |q|) else before
  {
    assert jobs[..i + 1][..i] == jobs[..i] && listings[..i + 1][..i] == listings[..i];
    assert jobs[..i + 1][i] == jobs[i] && listings[..i + 1][i] == listings[i];
  }

  /** The scan loop of an organize run: it reads the disk and changes nothing. */
  method ScanFolders(disk: Disk, protectedPaths: set<Path>, jobs: seq<Job>, listings: seq<seq<string>>)
    returns (entries: Entries, total: nat)
    requires |listings| == |jobs|
    ensures entries == Scan(disk.tree, disk.denied, protectedPaths, jobs, listings).entries
    ensures total == Scan(disk.tree, disk.denied, protectedPaths, jobs, listings).total
  {
    entries, total := [], 0;
    var i := 0;
    while i < |jobs|
      invariant 0 <= i <= |jobs|
      invariant ScanResult(entries, total) == Scan(disk.tree, disk.denied, protectedPaths, jobs[..i], listings[..i])
    {
      var job := jobs[i];
      var isDir := disk.IsDirAt(job.folder);
      var found: seq<string> := [];
      if isDir && job.folder !in disk.denied {
        found := ListEligible(disk, protectedPaths, job, listings[i]);
      }
      assert found == Queued(disk.tree, disk.denied, protectedPaths, job, listings[i]);
      ScanNext(disk.tree, disk.denied, protectedPaths, jobs, listings, i);
      if found != [] {
        entries := Put(entries, job.folder, found);
        total := total + |found|;
      }
      i := i + 1;
    }
    assert jobs[..i] == jobs && listings[..i] == listings;
  }
}

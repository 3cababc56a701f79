/**
 The scan of rm_older.py: walk a directory tree, report every file older than
 a threshold in days and, when deletion is enabled, delete it while counting
 the files seen, the files deleted and the bytes reclaimed.

 The file system is replaced by its content: the walk is the sequence of file
 lists that the directory walk yields, one per directory, and each file is a
 record of its age (the local wall-clock time now minus the local wall-clock
 time of its last modification, in microseconds, the resolution of a time
 difference in the source) and its size in bytes. The files reported and the
 files deleted are kept in ghost sequences.
 */
module Scan {
  import SizeFormat

  /** Microseconds in one day: the threshold is `n` days as a time difference. */
  const MicrosPerDay: nat := 86400 * 1000000

  /** One file met during the walk. */
  datatype FileRecord = FileRecord(age: int, size: nat)

  /** The directory to scan: either not a directory, or the file lists the
      walk yields for it and for each of its subdirectories. */
  datatype Root = NotADirectory | Tree(walk: seq<seq<FileRecord>>)

  /** The summary the run ends with. */
  datatype Report = Report(found: nat, deleted: nat, reclaimed: SizeFormat.HumanSize)

  /** What a run does: stop at once on a missing directory; fail while
      formatting the reclaimed space, after the scan and its deletions, when
      the size lookup raises; or finish with a report. */
  datatype RunOutcome =
    | DirectoryNotFound
    | SummaryFailed(found: nat, deleted: nat)
    | Finished(report: Report)

  /** A file qualifies when its age is strictly greater than `days` days. */
  predicate Qualifies(f: FileRecord, days: int)
  {
    f.age > days * MicrosPerDay
  }

  /** All files of the walk, in the order they are visited. */
  function Flatten(walk: seq<seq<FileRecord>>): seq<FileRecord>
  {
    if walk == [] then [] else Flatten(walk[..|walk| - 1]) + walk[|walk| - 1]
  }

  /** The qualifying files among `files`, in order. */
  function Qualifying(files: seq<FileRecord>, days: int): seq<FileRecord>
  {
    if files == [] then []
    else
      var last := files[|files| - 1];
      Qualifying(files[..|files| - 1], days) + (if Qualifies(last, days) then [last] else [])
  }

  /** The sum of the sizes of `files`. */
  function TotalSize(files: seq<FileRecord>): nat
  {
    if files == [] then 0 else TotalSize(files[..|files| - 1]) + files[|files| - 1].size
  }

  /** The files a run deletes: the qualifying ones when deletion is enabled, none otherwise. */
  function Deleted(files: seq<FileRecord>, days: int, delete: bool): seq<FileRecord>
  {
    if delete then Qualifying(files, days) else []
  }

  // ---------------------------------------------------------------------
  // The scan loop (rm_older.py:56-75)
  // ---------------------------------------------------------------------

  /** The nested loop over the walk. `reported` holds the files the source
      logs as old, `deleted` the files it removes, each in visiting order. */
  method ScanTree(walk: seq<seq<FileRecord>>, days: int, delete: bool)
    returns (filenum: nat, removed: nat, savedSpace: nat,
             ghost reported: seq<FileRecord>, ghost deleted: seq<FileRecord>)
    ensures filenum == |Flatten(walk)|
    ensures reported == Qualifying(Flatten(walk), days)
    ensures deleted == Deleted(Flatten(walk), days, delete)
    ensures removed == |deleted| && savedSpace == TotalSize(deleted)
    ensures removed <= filenum
    ensures !delete ==> removed == 0 && savedSpace == 0 && deleted == []
    ensures removed == 0 ==> savedSpace == 0
  {
    filenum, removed, savedSpace := 0, 0, 0;
    reported, deleted := [], [];
    ghost var visited: seq<FileRecord> := [];
    for d := 0 to |walk|
      invariant visited == Flatten(walk[..d])
      invariant filenum == |visited|
      invariant reported == Qualifying(visited, days)
      invariant deleted == Deleted(visited, days, delete)
      invariant removed == |deleted| && savedSpace == TotalSize(deleted)
      invariant |reported| <= |visited| && removed <= filenum
    {
      var files := walk[d];
      for i := 0 to |files|
        invariant visited == Flatten(walk[..d]) + files[..i]
        invariant filenum == |visited|
        invariant reported == Qualifying(visited, days)
        invariant deleted == Deleted(visited, days, delete)
        invariant removed == |deleted| && savedSpace == TotalSize(deleted)
        invariant |reported| <= |visited| && removed <= filenum
      {
        var f := files[i];
        filenum := filenum + 1;
        QualifyingSnoc(visited, f, days);
        TotalSizeSnoc(deleted, f);
        assert files[..i + 1] == files[..i] + [f];
        visited := visited + [f];
        if Qualifies(f, days) {
          reported := reported + [f];
          if delete {
            removed := removed + 1;
            savedSpace := savedSpace + f.size;
            deleted := deleted + [f];
          }
        }
      }
      assert walk[..d + 1][..d] == walk[..d];
      assert files[..|files|] == files;
    }
    assert walk[..|walk|] == walk;
    if !delete {
      assert deleted == [];
    }
  }

  /** The whole run: check the directory, scan it, and summarise with
      `convert_size` as written. `deleted` holds the files the run removes:
      none for a missing directory, the qualifying ones (with deletion on)
      otherwise, also when the summary's size lookup then fails because the
      reclaimed total is 1024^6 bytes or more. */
  method RmOlder(root: Root, days: int, delete: bool)
    returns (out: RunOutcome, ghost deleted: seq<FileRecord>)
    ensures root.NotADirectory? <==> out.DirectoryNotFound?
    ensures root.NotADirectory? ==> deleted == []
    ensures root.Tree? ==> deleted == Deleted(Flatten(root.walk), days, delete)
    ensures root.Tree? ==>
      var files := Flatten(root.walk);
      var gone := Deleted(files, days, delete);
      (out.SummaryFailed? <==> TotalSize(gone) >= SizeFormat.Pow1024(|SizeFormat.Suffixes|))
      && (out.SummaryFailed? ==> out == SummaryFailed(|files|, |gone|))
      && (out.Finished? ==> out == Finished(Report(|files|, |gone|, SizeFormat.Convert(TotalSize(gone)))))
  {
    if root.NotADirectory? {
      return DirectoryNotFound, [];
    }
    var filenum, removed, savedSpace;
    ghost var reported;
    filenum, removed, savedSpace, reported, deleted := ScanTree(root.walk, days, delete);
    var reclaimed := SizeFormat.ConvertSizeAsWritten(savedSpace);
    SizeFormat.CorrectedAgreesWithAsWritten(savedSpace);
    match reclaimed
    case IndexError(_) =>
      out := SummaryFailed(filenum, removed);
    case Converted(shown) =>
      out := Finished(Report(filenum, removed, shown));
  }

  // ---------------------------------------------------------------------
  // Facts about the specification
  // ---------------------------------------------------------------------

  /** Visiting one more file extends the qualifying list by that file if it qualifies. */
  lemma QualifyingSnoc(files: seq<FileRecord>, f: FileRecord, days: int)
    ensures Qualifying(files + [f], days) == Qualifying(files, days) + (if Qualifies(f, days) then [f] else [])
  {
    assert (files + [f])[..|files|] == files;
  }

  /** Adding one more file adds its size. */
  lemma TotalSizeSnoc(files: seq<FileRecord>, f: FileRecord)
    ensures TotalSize(files + [f]) == TotalSize(files) + f.size
  {
    assert (files + [f])[..|files|] == files;
  }

  /** A file is reported exactly when it is among the files visited and is
      strictly older than the threshold: no other file is reported or deleted,
      and every such file is. */
  lemma {:induction false} QualifyingExactly(files: seq<FileRecord>, days: int, f: FileRecord)
    ensures f in Qualifying(files, days) <==> f in files && Qualifies(f, days)
  {
    if files != [] {
      var init := files[..|files| - 1];
      var last := files[|files| - 1];
      QualifyingExactly(init, days, f);
      assert files == init + [last];
    }
  }

  /** Scanning in two parts: the qualifying files of the whole are those of
      the first part followed by those of the second, so the counters only grow. */
  lemma {:induction false} QualifyingConcat(a: seq<FileRecord>, b: seq<FileRecord>, days: int)
    ensures Qualifying(a + b, days) == Qualifying(a, days) + Qualifying(b, days)
    decreases |b|
  {
    if b == [] {
      assert a + b == a;
    } else {
      var init := b[..|b| - 1];
      var last := b[|b| - 1];
      assert a + b == (a + init) + [last];
      assert b == init + [last];
      QualifyingConcat(a, init, days);
      QualifyingSnoc(a + init, last, days);
      QualifyingSnoc(init, last, days);
    }
  }

  /** The bytes of two parts add up. */
  lemma {:induction false} TotalSizeConcat(a: seq<FileRecord>, b: seq<FileRecord>)
    ensures TotalSize(a + b) == TotalSize(a) + TotalSize(b)
    decreases |b|
  {
    if b == [] {
      assert a + b == a;
    } else {
      var init := b[..|b| - 1];
      var last := b[|b| - 1];
      assert a + b == (a + init) + [last];
      assert b == init + [last];
      TotalSizeConcat(a, init);
      TotalSizeSnoc(a + init, last);
      TotalSizeSnoc(init, last);
    }
  }

  /** The reported files are no more than the files seen, and the reclaimed
      space is no more than the size of all files seen. */
  lemma {:induction false} QualifyingBounded(files: seq<FileRecord>, days: int)
    ensures |Qualifying(files, days)| <= |files|
    ensures TotalSize(Qualifying(files, days)) <= TotalSize(files)
  {
    if files != [] {
      var init := files[..|files| - 1];
      var last := files[|files| - 1];
      QualifyingBounded(init, days);
      assert files == init + [last];
      QualifyingSnoc(init, last, days);
      TotalSizeSnoc(init, last);
      if Qualifies(last, days) {
        TotalSizeSnoc(Qualifying(init, days), last);
      } else {
        assert Qualifying(files, days) == Qualifying(init, days);
      }
    }
  }

  /** The reported files, counted with multiplicity, are the qualifying files
      of the walk whatever order the walk visits them in. */
  lemma {:induction false} QualifyingMultiset(files: seq<FileRecord>, days: int, f: FileRecord)
    ensures multiset(Qualifying(files, days))[f] == if Qualifies(f, days) then multiset(files)[f] else 0
  {
    if files != [] {
      var init := files[..|files| - 1];
      var last := files[|files| - 1];
      QualifyingMultiset(init, days, f);
      assert files == init + [last];
    }
  }

  /** The total size depends only on which files there are, not on their order. */
  lemma {:induction false} TotalSizePermutation(a: seq<FileRecord>, b: seq<FileRecord>)
    requires multiset(a) == multiset(b)
    ensures TotalSize(a) == TotalSize(b)
    decreases |a|
  {
    if a != [] {
      var init := a[..|a| - 1];
      var last := a[|a| - 1];
      assert a == init + [last];
      assert last in multiset(b);
      var j :| 0 <= j < |b| && b[j] == last;
      var rest := b[..j] + b[j + 1..];
      assert b == b[..j] + [last] + b[j + 1..];
      assert multiset(b) == multiset(rest) + multiset{last};
      assert multiset(a) == multiset(init) + multiset{last};
      forall x | true ensures multiset(init)[x] == multiset(rest)[x] {
        assert multiset(a)[x] == multiset(init)[x] + multiset{last}[x];
        assert multiset(b)[x] == multiset(rest)[x] + multiset{last}[x];
      }
      assert multiset(init) == multiset(rest);
      TotalSizePermutation(init, rest);
      TotalSizeConcat(b[..j] + [last], b[j + 1..]);
      TotalSizeConcat(b[..j], b[j + 1..]);
      TotalSizeSnoc(b[..j], last);
    }
  }

  /** The order the walk visits the files in does not change the counters. */
  lemma CountersIgnoreOrder(a: seq<FileRecord>, b: seq<FileRecord>, days: int)
    requires multiset(a) == multiset(b)
    ensures multiset(Qualifying(a, days)) == multiset(Qualifying(b, days))
    ensures |Qualifying(a, days)| == |Qualifying(b, days)|
    ensures TotalSize(Qualifying(a, days)) == TotalSize(Qualifying(b, days))
  {
    forall f | true
      ensures multiset(Qualifying(a, days))[f] == multiset(Qualifying(b, days))[f]
    {
      QualifyingMultiset(a, days, f);
      QualifyingMultiset(b, days, f);
    }
    assert multiset(Qualifying(a, days)) == multiset(Qualifying(b, days));
    assert |multiset(Qualifying(a, days))| == |Qualifying(a, days)|;
    assert |multiset(Qualifying(b, days))| == |Qualifying(b, days)|;
    TotalSizePermutation(Qualifying(a, days), Qualifying(b, days));
  }

  /** The threshold is strict: a file exactly `days` days old is not
      reported, one a second older is. */
  lemma StrictThreshold(days: int, size: nat)
    ensures Qualifying([FileRecord(days * MicrosPerDay, size)], days) == []
    ensures Qualifying([FileRecord(days * MicrosPerDay + 1000000, size)], days)
         == [FileRecord(days * MicrosPerDay + 1000000, size)]
  {
  }

  /** One file 40 days old, a threshold of 30 days and deletion enabled:
      one file found, one deleted, its exact size reclaimed. */
  lemma OneOldFileScenario(size: nat)
    ensures var walk := [[FileRecord(40 * MicrosPerDay, size)]];
      |Flatten(walk)| == 1 && Deleted(Flatten(walk), 30, true) == Flatten(walk)
      && TotalSize(Deleted(Flatten(walk), 30, true)) == size
  {
    var walk := [[FileRecord(40 * MicrosPerDay, size)]];
    var f := FileRecord(40 * MicrosPerDay, size);
    assert walk[..0] == [];
    assert Flatten(walk) == [f];
    assert Qualifies(f, 30);
    QualifyingSnoc([], f, 30);
    TotalSizeSnoc([], f);
  }

  /** An empty tree: nothing found, nothing deleted, "0 B" reclaimed. */
  lemma EmptyTreeScenario(days: int, delete: bool)
    ensures var walk: seq<seq<FileRecord>> := [[]];
      |Flatten(walk)| == 0 && Deleted(Flatten(walk), days, delete) == []
      && SizeFormat.Convert(TotalSize(Deleted(Flatten(walk), days, delete))) == SizeFormat.HumanSize(0.0, "B")
  {
    var walk: seq<seq<FileRecord>> := [[]];
    assert walk[..0] == [];
    SizeFormat.ConvertInRange(0);
  }
}

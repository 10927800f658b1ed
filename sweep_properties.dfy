/** What a stale-asset sweep guarantees, stated over its specification `AssetRules.Sweep`. */
module SweepProperties {
  import opened Text
  import opened Storage
  import opened AssetRules

  /** The files a sweep leaves in the records tree: those it keeps and those whose move failed. */
  lemma SweepRemaining(disk: Disk, active: seq<string>, moveFails: set<string>, rmdirFails: set<string>, f: string)
    requires "" in disk.dirs
    ensures f in Sweep(disk, active, moveFails, rmdirFails).disk.records <==>
      f in disk.records && (Classify(f, UpperSet(active)) == Keep || f in moveFails)
  {
  }

  /** A sweep only takes away: it adds no file and no directory to the records tree, and keeps
      every backup path. */
  lemma SweepOnlyRemoves(disk: Disk, active: seq<string>, moveFails: set<string>, rmdirFails: set<string>)
    ensures var out := Sweep(disk, active, moveFails, rmdirFails).disk;
      && out.records.Keys <= disk.records.Keys && out.dirs <= disk.dirs
      && disk.backup.Keys <= out.backup.Keys
  {
  }

  /** No file is lost: every file is either still in the records tree or in the backup tree under
      the same relative path, with the same content. */
  lemma SweepLosesNoFile(disk: Disk, active: seq<string>, moveFails: set<string>, rmdirFails: set<string>, f: string)
    requires f in disk.records
    ensures var out := Sweep(disk, active, moveFails, rmdirFails).disk;
      || (f in out.records && out.records[f] == disk.records[f])
      || (f in out.backup && out.backup[f] == disk.records[f])
  {
  }

  /** A backup entry the sweep did not write is left as it was. */
  lemma SweepKeepsOtherBackups(disk: Disk, active: seq<string>, moveFails: set<string>, rmdirFails: set<string>, b: string)
    requires b in disk.backup && b !in disk.records
    ensures var out := Sweep(disk, active, moveFails, rmdirFails).disk;
      b in out.backup && out.backup[b] == disk.backup[b]
  {
  }

  /** Removing a subset of the keys of a map removes exactly that many entries. */
  lemma RemoveKeys(records: map<string, FileData>, moved: set<string>)
    requires moved <= records.Keys
    ensures |(records - moved).Keys| + |moved| == |records.Keys|
  {
    assert (records - moved).Keys == records.Keys - moved;
    assert records.Keys == (records.Keys - moved) + moved;
  }

  /** The count is the number of files that left the records tree. */
  lemma SweepCountsMoves(disk: Disk, active: seq<string>, moveFails: set<string>, rmdirFails: set<string>)
    ensures var out := Sweep(disk, active, moveFails, rmdirFails);
      out.archived + |out.disk.records.Keys| == |disk.records.Keys|
  {
    if "" in disk.dirs {
      RemoveKeys(disk.records, ToArchive(disk.records, UpperSet(active)) - moveFails);
    }
  }

  /** When no move of a file the sweep wants to archive fails, every file left conforms and is live. */
  lemma SweepConforms(disk: Disk, active: seq<string>, moveFails: set<string>, rmdirFails: set<string>, f: string)
    requires "" in disk.dirs
    requires moveFails !! disk.records.Keys
    requires f in Sweep(disk, active, moveFails, rmdirFails).disk.records
    ensures Classify(f, UpperSet(active)) == Keep
  {
    SweepRemaining(disk, active, moveFails, rmdirFails, f);
  }

  /** After a sweep without failed moves, a second sweep with the same live set archives nothing,
      whatever fails during it. */
  lemma SecondSweepArchivesNothing(disk: Disk, active: seq<string>, moveFails: set<string>, rmdirFails: set<string>,
                                   moveFails2: set<string>, rmdirFails2: set<string>)
    requires moveFails !! disk.records.Keys
    ensures var once := Sweep(disk, active, moveFails, rmdirFails).disk;
      Sweep(once, active, moveFails2, rmdirFails2).archived == 0
  {
    var once := Sweep(disk, active, moveFails, rmdirFails).disk;
    if "" in disk.dirs && "" in once.dirs {
      forall f | f in once.records
        ensures Classify(f, UpperSet(active)) == Keep
      {
        SweepConforms(disk, active, moveFails, rmdirFails, f);
      }
      assert ToArchive(once.records, UpperSet(active)) == {};
    }
  }

  /** Without failures the sweep is idempotent: sweeping again changes nothing and returns 0. */
  lemma SweepIdempotent(disk: Disk, active: seq<string>, moveFails: set<string>, rmdirFails: set<string>,
                        moveFails2: set<string>, rmdirFails2: set<string>)
    requires moveFails !! disk.records.Keys && rmdirFails !! disk.dirs
    ensures var once := Sweep(disk, active, moveFails, rmdirFails).disk;
      Sweep(once, active, moveFails2, rmdirFails2) == Outcome(0, once)
  {
    var once := Sweep(disk, active, moveFails, rmdirFails).disk;
    SecondSweepArchivesNothing(disk, active, moveFails, rmdirFails, moveFails2, rmdirFails2);
    if "" in disk.dirs && "" in once.dirs {
      var moved := ToArchive(once.records, UpperSet(active)) - moveFails2;
      assert moved == {};
      MoveNothing(once);
      forall d | d in once.dirs
        ensures SurvivesPrune(once.records, once.dirs, rmdirFails2, d)
      {
        PrunedHasFile(disk, active, moveFails, rmdirFails, d);
      }
      assert Pruned(once.records, once.dirs, rmdirFails2) == once.dirs;
    }
  }

  /** Without failed removals, every directory left after a sweep holds a file. */
  lemma PrunedHasFile(disk: Disk, active: seq<string>, moveFails: set<string>, rmdirFails: set<string>, d: string)
    requires rmdirFails !! disk.dirs
    requires "" in disk.dirs
    requires d in Sweep(disk, active, moveFails, rmdirFails).disk.dirs
    ensures HasFileInside(Sweep(disk, active, moveFails, rmdirFails).disk.records, d)
  {
    var out := Sweep(disk, active, moveFails, rmdirFails).disk;
    assert SurvivesPrune(out.records, disk.dirs, rmdirFails, d);
  }

  /** The prune removes exactly the directories that end up with nothing below them, when no
      removal fails; a directory holding a file is never removed. */
  lemma PruneRemovesEmptyDirs(disk: Disk, active: seq<string>, moveFails: set<string>, rmdirFails: set<string>, d: string)
    requires "" in disk.dirs && d in disk.dirs
    ensures var out := Sweep(disk, active, moveFails, rmdirFails).disk;
      HasFileInside(out.records, d) ==> d in out.dirs
    ensures var out := Sweep(disk, active, moveFails, rmdirFails).disk;
      rmdirFails !! disk.dirs ==> (d in out.dirs <==> HasFileInside(out.records, d))
  {
    var out := Sweep(disk, active, moveFails, rmdirFails).disk;
    if rmdirFails !! disk.dirs && d in out.dirs {
      PrunedHasFile(disk, active, moveFails, rmdirFails, d);
    }
  }

  /** A sweep keeps the tree shape: every file and directory left still has all its ancestors. */
  lemma SweepKeepsTree(disk: Disk, active: seq<string>, moveFails: set<string>, rmdirFails: set<string>)
    requires Tree(disk)
    ensures Tree(Sweep(disk, active, moveFails, rmdirFails).disk)
  {
    if "" in disk.dirs {
      var out := Sweep(disk, active, moveFails, rmdirFails).disk;
      assert out.records.Keys <= disk.records.Keys;
      assert out.dirs == Pruned(out.records, disk.dirs, rmdirFails);
      forall f, a | f in out.records && a in Ancestors(f)
        ensures a in out.dirs
      {
        FileAncestorKept(out.records, disk.dirs, rmdirFails, f, a);
      }
      forall d, a | d in out.dirs && a in Ancestors(d)
        ensures a in out.dirs
      {
        DirAncestorKept(out.records, disk.dirs, rmdirFails, d, a);
      }
    }
  }

  /** The directories above a file are not pruned. */
  lemma FileAncestorKept(records: map<string, FileData>, dirs: set<string>, rmdirFails: set<string>, f: string, a: string)
    requires f in records && f != "" && a in Ancestors(f) && a in dirs
    ensures a in Pruned(records, dirs, rmdirFails)
  {
    assert a != f by {
      if a != "" {
        var k :| 0 <= k < |f| && f[k] == '/' && f[..k] == a;
      }
    }
    AncestorContains(f, a);
  }

  /** The directories above a directory the prune keeps are kept too. */
  lemma DirAncestorKept(records: map<string, FileData>, dirs: set<string>, rmdirFails: set<string>, d: string, a: string)
    requires d in Pruned(records, dirs, rmdirFails) && a in Ancestors(d) && a in dirs
    ensures a in Pruned(records, dirs, rmdirFails)
  {
    if a != d {
      AncestorContains(d, a);
      AncestorSurvives(records, dirs, rmdirFails, d, a);
    }
  }

  /** A directory above one that survives the prune survives too. */
  lemma AncestorSurvives(records: map<string, FileData>, dirs: set<string>, rmdirFails: set<string>, d: string, a: string)
    requires SurvivesPrune(records, dirs, rmdirFails, d) && Inside(d, a)
    ensures SurvivesPrune(records, dirs, rmdirFails, a)
  {
    if HasFileInside(records, d) {
      var f :| f in records && Inside(f, d);
      InsideTransitive(f, d, a);
    } else {
      var e :| e in dirs && e in rmdirFails && (e == d || Inside(e, d));
      if e != d {
        InsideTransitive(e, d, a);
      }
    }
  }
}

/** The stale-asset sweep of scripts/style_utils.py (enforce_asset_rules with archive_file and the
    bottom-up prune), over the records tree PROMPTS_DIR. Each move and each directory removal may
    fail; which ones do is a parameter (`moveFails`, `rmdirFails`). A failure is logged and the sweep
    goes on. The walks visit files and directories in an order the model leaves open, except that
    the prune visits every directory after all directories below it. */
module AssetRules {
  import opened Text
  import opened Storage

  /** `VALID_IMAGE_EXTENSIONS`. */
  const ImageExtensions: set<string> := {".png", ".jpg", ".jpeg", ".webp", ".gif"}

  /** What the sweep decides about one file. */
  datatype Verdict = Keep | NonConforming | Stale

  /** The file's extension is ".json" or an image extension, compared lower-cased. */
  predicate ConformingType(path: string)
  {
    var ext := Lower(SplitExt(LastSegment(path)).1);
    ext == ".json" || ext in ImageExtensions
  }

  /** The wildcard a sidecar or preview belongs to: the relative path without its extension and
      without a trailing ".preview" (matched case-insensitively), upper-cased. */
  function BaseIdentifier(path: string): string
  {
    var candidate := SplitExt(path).0;
    var base := if EndsWith(Lower(candidate), ".preview") then candidate[..|candidate| - 8] else candidate;
    Upper(base)
  }

  /** `{w.upper() for w in active_wildcards}`. */
  function UpperSet(active: seq<string>): set<string>
  {
    set w | w in active :: Upper(w)
  }

  /** The classification of one file of the records tree against the upper-cased live set. */
  function Classify(path: string, activeUpper: set<string>): Verdict
  {
    if !ConformingType(path) then NonConforming
    else if BaseIdentifier(path) !in activeUpper then Stale
    else Keep
  }

  /** The files the sweep tries to archive. */
  function ToArchive(records: map<string, FileData>, activeUpper: set<string>): set<string>
  {
    set f | f in records && Classify(f, activeUpper) != Keep
  }

  /** The disk after moving the files `moved` into the backup tree under the same relative paths
      (a file already there is replaced). */
  function MoveToBackup(disk: Disk, moved: set<string>): Disk
  {
    Disk(disk.records - moved,
         disk.dirs,
         disk.backup + map f | f in moved && f in disk.records :: disk.records[f])
  }

  /** A directory is still there after the prune: something below it was kept, or the removal of
      it, or of an empty directory below it, failed. */
  predicate SurvivesPrune(records: map<string, FileData>, dirs: set<string>, rmdirFails: set<string>, d: string)
  {
    || HasFileInside(records, d)
    || exists e :: e in dirs && e in rmdirFails && (e == d || Inside(e, d))
  }

  /** The directories left after the bottom-up prune. */
  function Pruned(records: map<string, FileData>, dirs: set<string>, rmdirFails: set<string>): set<string>
  {
    set d | d in dirs && SurvivesPrune(records, dirs, rmdirFails, d)
  }

  /** The count a sweep returns and the disk it leaves. */
  datatype Outcome = Outcome(archived: nat, disk: Disk)

  /** The effect of `enforce_asset_rules(active, PROMPTS_DIR)`. */
  function Sweep(disk: Disk, active: seq<string>, moveFails: set<string>, rmdirFails: set<string>): Outcome
  {
    if "" !in disk.dirs then Outcome(0, disk)
    else
      var moved := ToArchive(disk.records, UpperSet(active)) - moveFails;
      var after := MoveToBackup(disk, moved);
      Outcome(|moved|, after.(dirs := Pruned(after.records, disk.dirs, rmdirFails)))
  }

  /** The sweep reads the live list only through its elements: lists with the same elements,
      in any order and with any repetition, sweep alike. */
  lemma SweepSameElements(disk: Disk, a: seq<string>, b: seq<string>, moveFails: set<string>, rmdirFails: set<string>)
    requires multiset(a) == multiset(b)
    ensures Sweep(disk, a, moveFails, rmdirFails) == Sweep(disk, b, moveFails, rmdirFails)
  {
    forall w | w in a
      ensures w in b
    {
      assert w in multiset(a);
    }
    forall w | w in b
      ensures w in a
    {
      assert w in multiset(b);
    }
    assert UpperSet(a) == UpperSet(b);
  }

  /** `archive_file`: move one file to the same relative path in the backup tree and count it; a
      failed move leaves everything as it was. `count` is the enclosing `archived_files_count`. */
  method ArchiveFile(disk: Disk, count: nat, file: string, moveOk: bool) returns (disk': Disk, count': nat)
    requires file in disk.records
    ensures moveOk ==> disk' == MoveToBackup(disk, {file}) && count' == count + 1
    ensures !moveOk ==> disk' == disk && count' == count
  {
    if moveOk {
      disk' := Disk(disk.records - {file}, disk.dirs, disk.backup[file := disk.records[file]]);
      assert disk'.backup == MoveToBackup(disk, {file}).backup;
      count' := count + 1;
    } else {
      disk' := disk;
      count' := count;
    }
  }

  /** The first walk: classify every file and archive those that are not kept. */
  method ArchivePass(disk: Disk, activeUpper: set<string>, moveFails: set<string>) returns (count: nat, disk': Disk)
    ensures count == |ToArchive(disk.records, activeUpper) - moveFails|
    ensures disk' == MoveToBackup(disk, ToArchive(disk.records, activeUpper) - moveFails)
  {
    ghost var target := ToArchive(disk.records, activeUpper) - moveFails;
    count, disk' := ArchiveEach(disk, activeUpper, moveFails, target);
  }

  /** The walk of ArchivePass over the files of the tree; `target` is the set of files whose
      classification says archive and whose move succeeds. */
  method ArchiveEach(disk: Disk, activeUpper: set<string>, moveFails: set<string>, ghost target: set<string>)
    returns (count: nat, disk': Disk)
    requires forall f :: ArchivedAt(disk.records, activeUpper, moveFails, target, f)
    requires target <= disk.records.Keys
    ensures count == |target|
    ensures disk' == MoveToBackup(disk, target)
  {
    count := 0;
    disk' := disk;
    var pending := disk.records.Keys;
    ghost var moved: set<string> := {};
    MoveNothing(disk);
    while pending != {}
      invariant pending <= disk.records.Keys
      invariant moved == target - pending
      invariant disk' == MoveToBackup(disk, moved)
      invariant count == |moved|
      decreases pending
    {
      var file :| file in pending;
      ArchiveTargetAt(disk.records, activeUpper, moveFails, target, file);
      disk', count := ArchiveOne(disk, activeUpper, moveFails, target, moved, disk', count, file);
      VisitOne(target, pending, file);
      if file in target {
        moved := moved + {file};
      }
      pending := pending - {file};
    }
    assert moved == target;
  }

  /** `target` holds `f`, a file of the tree, exactly when the walk archives it. */
  predicate ArchivedAt(records: map<string, FileData>, activeUpper: set<string>, moveFails: set<string>,
                       target: set<string>, f: string)
  {
    f in records ==> (f in target <==> f !in moveFails && Classify(f, activeUpper) != Keep)
  }

  /** The archive set, read at one file. */
  lemma ArchiveTargetAt(records: map<string, FileData>, activeUpper: set<string>, moveFails: set<string>,
                        target: set<string>, file: string)
    requires forall f :: ArchivedAt(records, activeUpper, moveFails, target, f)
    requires file in records
    ensures file in target <==> file !in moveFails && Classify(file, activeUpper) != Keep
  {
    assert ArchivedAt(records, activeUpper, moveFails, target, file);
  }

  /** One step of the walk: classify `file` and archive it unless it is kept. */
  method ArchiveOne(disk: Disk, activeUpper: set<string>, moveFails: set<string>, ghost target: set<string>,
                    ghost moved: set<string>, current: Disk, count: nat, file: string)
    returns (current': Disk, count': nat)
    requires file in disk.records && file !in moved
    requires file in target <==> file !in moveFails && Classify(file, activeUpper) != Keep
    requires current == MoveToBackup(disk, moved) && count == |moved|
    ensures file in target ==> current' == MoveToBackup(disk, moved + {file}) && count' == |moved + {file}|
    ensures file !in target ==> current' == current && count' == count
  {
    var verdict := Classify(file, activeUpper);
    current', count' := current, count;
    if verdict != Keep {
      current', count' := ArchiveFile(current, count, file, file !in moveFails);
    }
    if file in target {
      MoveOneMore(disk, moved, file);
    }
  }

  /** Visiting one pending element adds it to the visited part of the target exactly when it belongs to it. */
  lemma VisitOne(target: set<string>, pending: set<string>, x: string)
    requires x in pending
    ensures target - (pending - {x}) == (target - pending) + (if x in target then {x} else {})
  {
  }

  /** Moving no file changes nothing. */
  lemma MoveNothing(disk: Disk)
    ensures MoveToBackup(disk, {}) == disk
  {
    assert disk.records - {} == disk.records;
    assert MoveToBackup(disk, {}).backup == disk.backup;
  }

  /** Moving one more file extends the set of moved files. */
  lemma MoveOneMore(disk: Disk, moved: set<string>, file: string)
    requires file in disk.records && file !in moved
    ensures MoveToBackup(MoveToBackup(disk, moved), {file}) == MoveToBackup(disk, moved + {file})
    ensures |moved + {file}| == |moved| + 1
  {
    MoveOneMoreBackup(disk, moved, file);
    assert disk.records - moved - {file} == disk.records - (moved + {file});
  }

  /** The backup tree after moving one more file is the one for the larger set. */
  lemma MoveOneMoreBackup(disk: Disk, moved: set<string>, file: string)
    requires file in disk.records && file !in moved
    ensures MoveToBackup(MoveToBackup(disk, moved), {file}).backup == MoveToBackup(disk, moved + {file}).backup
  {
    var stepwise := MoveToBackup(MoveToBackup(disk, moved), {file}).backup;
    var direct := MoveToBackup(disk, moved + {file}).backup;
    assert stepwise.Keys == direct.Keys;
    forall k | k in stepwise
      ensures stepwise[k] == direct[k]
    {
    }
  }

  /** A longest path of a non-empty set: nothing else in the set lies below it. */
  lemma {:induction false} Longest(s: set<string>) returns (d: string)
    requires s != {}
    ensures d in s && forall e :: e in s ==> |e| <= |d|
    decreases |s|
  {
    var x :| x in s;
    if s == {x} {
      d := x;
    } else {
      var y := Longest(s - {x});
      d := if |x| <= |y| then y else x;
    }
  }

  /** The second walk, bottom-up: remove every directory that is empty by the time it is visited. */
  method PrunePass(disk: Disk, rmdirFails: set<string>) returns (disk': Disk)
    ensures disk' == disk.(dirs := Pruned(disk.records, disk.dirs, rmdirFails))
  {
    var records := disk.records;
    var dirs := disk.dirs;
    var pending := disk.dirs;
    while pending != {}
      invariant pending <= dirs <= disk.dirs
      invariant forall d :: d in disk.dirs && d !in pending ==>
        (d in dirs <==> SurvivesPrune(records, disk.dirs, rmdirFails, d))
      invariant forall d, e :: d in disk.dirs && d !in pending && e in pending ==> !Inside(e, d)
      decreases pending
    {
      ghost var d0 := Longest(pending);
      var d :| d in pending && forall e :: e in pending ==> |e| <= |d|;
      var isEmpty := !(exists f :: f in records && Inside(f, d)) && !(exists e :: e in dirs && Inside(e, d));
      if d in dirs && isEmpty && d !in rmdirFails {
        dirs := dirs - {d};
      }
      PruneStep(records, disk.dirs, rmdirFails, dirs, pending, d, isEmpty);
      pending := pending - {d};
    }
    disk' := disk.(dirs := dirs);
  }

  /** The visit of d keeps the prune invariant: d stays exactly when it survives. */
  lemma PruneStep(records: map<string, FileData>, all: set<string>, rmdirFails: set<string>,
                  dirs: set<string>, pending: set<string>, d: string, isEmpty: bool)
    requires d in pending && pending <= all && dirs <= all
    requires forall e :: e in pending ==> |e| <= |d|
    requires forall x :: x in all && x !in pending ==> (x in dirs <==> SurvivesPrune(records, all, rmdirFails, x))
    requires isEmpty == (!HasFileInside(records, d) && !(exists e :: e in dirs && Inside(e, d)))
    ensures (!isEmpty || d in rmdirFails) <==> SurvivesPrune(records, all, rmdirFails, d)
  {
    if exists e :: e in dirs && Inside(e, d) {
      var e :| e in dirs && Inside(e, d);
      assert e !in pending;
      assert e in all;
    }
    if !HasFileInside(records, d) && (exists g :: g in all && g in rmdirFails && Inside(g, d)) {
      var g :| g in all && g in rmdirFails && Inside(g, d);
      assert g !in pending;
      assert SurvivesPrune(records, all, rmdirFails, g);
    }
    if SurvivesPrune(records, all, rmdirFails, d) && !HasFileInside(records, d) && d !in rmdirFails {
      var g :| g in all && g in rmdirFails && (g == d || Inside(g, d));
      assert g !in pending;
    }
    forall e | e in dirs && Inside(e, d) && e in all && e !in pending && SurvivesPrune(records, all, rmdirFails, e)
      ensures SurvivesPrune(records, all, rmdirFails, d)
    {
      if HasFileInside(records, e) {
        var f :| f in records && Inside(f, e);
        InsideTransitive(f, e, d);
      } else {
        var g :| g in all && g in rmdirFails && (g == e || Inside(g, e));
        if g != e {
          InsideTransitive(g, e, d);
        }
      }
    }
  }

  /** `enforce_asset_rules(active, PROMPTS_DIR)`: nothing happens when the records root is not a
      directory; otherwise archive every file that is not kept, then prune empty directories, and
      return the number of files actually moved. */
  method EnforceAssetRules(active: seq<string>, disk: Disk, moveFails: set<string>, rmdirFails: set<string>)
    returns (count: nat, disk': Disk)
    ensures Outcome(count, disk') == Sweep(disk, active, moveFails, rmdirFails)
  {
    if "" !in disk.dirs {
      return 0, disk;
    }
    var activeUpper := set w | w in active :: Upper(w);
    var archived;
    count, archived := ArchivePass(disk, activeUpper, moveFails);
    disk' := PrunePass(archived, rmdirFails);
  }
}

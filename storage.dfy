/** The part of the file system the extension owns, as a value. Paths are relative and
    '/'-separated (on POSIX `path.replace(os.path.sep, "/")` changes nothing):
    - `records`: the files under the records root PROMPTS_DIR (scripts/prompt_tab.py:18), by path;
    - `dirs`: the directories under it, "" standing for PROMPTS_DIR itself;
    - `backup`: the files under _tmp_bak_/Prompts, the backup tree of a sweep of PROMPTS_DIR,
      by the same relative path the file had under PROMPTS_DIR. */
module Storage {
  import opened Text

  /** A file's content: a JSON object with string values (what json.load returns for a sidecar),
      or anything json.load rejects. */
  datatype FileData = Json(fields: map<string, string>) | Raw(bytes: seq<int>)

  datatype Disk = Disk(records: map<string, FileData>, dirs: set<string>, backup: map<string, FileData>)

  /** `path` lies strictly below directory `dir`; every path but the root itself is below "". */
  predicate Inside(path: string, dir: string)
  {
    if dir == "" then path != "" else StartsWith(path, dir + "/")
  }

  /** Being below is transitive. */
  lemma InsideTransitive(x: string, e: string, d: string)
    requires Inside(x, e) && Inside(e, d)
    ensures Inside(x, d)
  {
    if d != "" {
      assert x[..|d| + 1] == x[..|e| + 1][..|d| + 1];
    }
  }

  /** Some file of `records` lies below `dir`. */
  predicate HasFileInside(records: map<string, FileData>, dir: string)
  {
    exists f :: f in records && Inside(f, dir)
  }

  /** The directories that contain `path`: the root and every prefix that ends before a '/'.
      These are what `os.makedirs(os.path.dirname(...))` creates for a file at `path`. */
  function Ancestors(path: string): set<string>
  {
    {""} + set k | 0 <= k < |path| && path[k] == '/' :: path[..k]
  }

  /** A path is below each of its ancestors other than itself. */
  lemma AncestorContains(path: string, a: string)
    requires a in Ancestors(path) && a != path
    ensures Inside(path, a)
  {
    if a != "" {
      var k :| 0 <= k < |path| && path[k] == '/' && path[..k] == a;
      assert path[..k + 1] == a + "/";
    }
  }

  /** The tree is closed upwards: every file and directory has all its ancestors as directories. */
  ghost predicate Tree(disk: Disk)
  {
    && (forall f :: f in disk.records ==> f != "" && Ancestors(f) <= disk.dirs)
    && (forall d :: d in disk.dirs ==> Ancestors(d) <= disk.dirs)
  }
}

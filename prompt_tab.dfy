/** The Saved Prompts page of scripts/prompt_tab.py: one JSON sidecar per wildcard under the
    records root PROMPTS_DIR, the display names of the wildcards, the two caches the page keeps,
    the items it lists, and the status of the settings-page cleanup.
    The wrap string WILD_STR is a host option (default "__") and is a parameter here; so is the
    outcome of every write a refresh attempts. */
module PromptTab {
  import opened Text
  import opened Storage
  import opened Wildcards
  import opened AssetRules

  datatype Option<T> = None | Some(value: T)

  /** What `json.load` returns for a sidecar: a JSON object with string values. */
  type Record = map<string, string>

  /** The sidecar of wildcard `w`, relative to PROMPTS_DIR. */
  function SidecarPath(w: string): string
  {
    w + ".json"
  }

  /** The record `ensure_prompt_json_exists` writes for wildcard `w`. */
  function DefaultRecord(w: string, wrap: string): (r: Record)
    ensures r.Keys == {"description", "activation text", "negative text", "notes"}
    ensures r["activation text"] == wrap + w + wrap
    ensures r["description"] == "" && r["negative text"] == "" && r["notes"] == ""
  {
    map["description" := "", "activation text" := wrap + w + wrap, "negative text" := "", "notes" := ""]
  }

  /** `os.path.exists`: a file or a directory is there. */
  predicate Exists(disk: Disk, p: string)
  {
    p in disk.records || p in disk.dirs
  }

  /** The disk after `ensure_prompt_json_exists(w)`: the directories above the sidecar exist, and
      the default record is written unless something is already at the sidecar path or the
      write fails. */
  function AfterEnsure(disk: Disk, w: string, wrap: string, writeFails: set<string>): Disk
  {
    var made := disk.(dirs := disk.dirs + Ancestors(SidecarPath(w)));
    if Exists(disk, SidecarPath(w)) || w in writeFails then made
    else made.(records := made.records[SidecarPath(w) := Json(DefaultRecord(w, wrap))])
  }

  /** The disk after ensuring the sidecar of every path of `paths`, in order. */
  function EnsureAll(disk: Disk, paths: seq<string>, wrap: string, writeFails: set<string>): Disk
    decreases |paths|
  {
    if paths == [] then disk
    else AfterEnsure(EnsureAll(disk, paths[..|paths| - 1], wrap, writeFails), paths[|paths| - 1], wrap, writeFails)
  }

  /** A path is not among its own ancestors. */
  lemma NotOwnAncestor(p: string)
    requires p != ""
    ensures p !in Ancestors(p)
  {
  }

  /** The last segments of `paths`, in order: what `Counter` counts in precompute_prompt_names. */
  function Bases(paths: seq<string>): (bases: seq<string>)
    ensures |bases| == |paths|
  {
    seq(|paths|, i requires 0 <= i < |paths| => LastSegment(paths[i]))
  }

  /** How often the last segment of `p` occurs among the last segments of `paths`. */
  function BaseCount(p: string, paths: seq<string>): nat
  {
    multiset(Bases(paths))[LastSegment(p)]
  }

  /** The display name of `p`: its last segment, followed by " (<category>)" when that last
      segment is shared with another entry of `paths`. */
  function DisplayName(p: string, paths: seq<string>): string
  {
    if BaseCount(p, paths) > 1 then LastSegment(p) + " (" + ParentSegment(p) + ")" else LastSegment(p)
  }

  /** The name-cache entry of `p`: display name and category. */
  function NameEntry(p: string, paths: seq<string>): (string, string)
  {
    (DisplayName(p, paths), ParentSegment(p))
  }

  /** `Counter(xs)`: how often each element occurs. */
  method Counter(xs: seq<string>) returns (counts: map<string, nat>)
    ensures forall b :: b in counts <==> b in xs
    ensures forall b :: b in counts ==> counts[b] == multiset(xs)[b]
  {
    counts := map[];
    for i := 0 to |xs|
      invariant forall b :: b in counts <==> b in xs[..i]
      invariant forall b :: b in counts ==> counts[b] == multiset(xs[..i])[b]
    {
      var b := xs[i];
      var before := if b in counts then counts[b] else 0;
      CountStep(counts, xs[..i], b);
      assert xs[..i + 1] == xs[..i] + [b];
      counts := counts[b := before + 1];
    }
    assert xs[..|xs|] == xs;
  }

  /** `Counter(path.split('/')[-1] for path in paths)`. */
  method CountBases(paths: seq<string>) returns (counts: map<string, nat>)
    ensures forall b :: b in counts <==> b in Bases(paths)
    ensures forall p :: p in paths ==> LastSegment(p) in counts && counts[LastSegment(p)] == BaseCount(p, paths)
  {
    counts := Counter(Bases(paths));
    BasesCover(paths);
  }

  /** Counting one more occurrence of `b` keeps the counts exact. */
  lemma CountStep(counts: map<string, nat>, prefix: seq<string>, b: string)
    requires forall x :: x in counts <==> x in prefix
    requires forall x :: x in counts ==> counts[x] == multiset(prefix)[x]
    ensures var counts' := counts[b := (if b in counts then counts[b] else 0) + 1];
      && (forall x :: x in counts' <==> x in prefix + [b])
      && (forall x :: x in counts' ==> counts'[x] == multiset(prefix + [b])[x])
  {
    assert multiset(prefix + [b]) == multiset(prefix) + multiset{b};
  }

  /** The last segment of every listed path is among the counted segments. */
  lemma BasesCover(paths: seq<string>)
    ensures forall p :: p in paths ==> LastSegment(p) in Bases(paths)
  {
    forall p | p in paths
      ensures LastSegment(p) in Bases(paths)
    {
      var k :| 0 <= k < |paths| && paths[k] == p;
      assert Bases(paths)[k] == LastSegment(p);
    }
  }

  /** The body of the loop of `precompute_prompt_names` for one path, given the counts. */
  method NameOf(path: string, counts: map<string, nat>, ghost paths: seq<string>) returns (entry: (string, string))
    requires LastSegment(path) in counts && counts[LastSegment(path)] == BaseCount(path, paths)
    ensures entry == NameEntry(path, paths)
  {
    var parts := Split(path);
    var baseName := parts[|parts| - 1];
    var category := if |parts| > 1 then parts[|parts| - 2] else "";
    var displayName := if counts[baseName] > 1 then baseName + " (" + category + ")" else baseName;
    entry := (displayName, category);
  }

  /** Two different entries with the same last segment get display names that differ exactly
      when their categories differ. */
  lemma DisplayNamesSeparate(p: string, q: string, paths: seq<string>)
    requires p in paths && q in paths && p != q
    requires LastSegment(p) == LastSegment(q)
    ensures DisplayName(p, paths) == DisplayName(q, paths) <==> ParentSegment(p) == ParentSegment(q)
  {
    var i :| 0 <= i < |paths| && paths[i] == p;
    var j :| 0 <= j < |paths| && paths[j] == q;
    MultisetCountTwo(Bases(paths), i, j);
    var x := LastSegment(p) + " (";
    if DisplayName(p, paths) == DisplayName(q, paths) {
      var s := x + ParentSegment(p) + ")";
      assert ParentSegment(p) == s[|x|..|s| - 1];
      assert ParentSegment(q) == (x + ParentSegment(q) + ")")[|x|..|s| - 1];
    }
  }

  /** The display name is the bare last segment exactly when no other entry shares it. */
  lemma DisplayNamePlainIff(p: string, paths: seq<string>)
    ensures DisplayName(p, paths) == LastSegment(p) <==> BaseCount(p, paths) <= 1
  {
    if BaseCount(p, paths) > 1 {
      assert |DisplayName(p, paths)| > |LastSegment(p)|;
    }
  }

  /** Two wildcards in different folders that share the folder name directly above them and
      their file name get the same display name: the category does not tell them apart. */
  lemma SameCategoryCollides(p: string, q: string, paths: seq<string>)
    requires p in paths && q in paths
    requires LastSegment(p) == LastSegment(q) && ParentSegment(p) == ParentSegment(q)
    ensures NameEntry(p, paths) == NameEntry(q, paths)
  {
  }

  /** The glob pattern's rule for hidden names: no component of `p` starts with '.'. */
  predicate Visible(p: string)
  {
    && (|p| > 0 ==> p[0] != '.')
    && (forall k :: 0 <= k < |p| - 1 && p[k] == '/' ==> p[k + 1] != '.')
  }

  /** `glob(PROMPTS_DIR/**/*.json, recursive=True)`, relative to PROMPTS_DIR: every file or
      directory whose name ends in ".json" and none of whose components is hidden. */
  function Glob(disk: Disk): set<string>
  {
    set g | g in disk.records.Keys + disk.dirs && EndsWith(g, ".json") && Visible(g)
  }

  /** The wildcard of a globbed sidecar: `os.path.splitext(rel)[0]` is the path without ".json". */
  lemma GlobStem(g: string)
    requires EndsWith(g, ".json") && Visible(g)
    ensures SidecarPath(SplitExt(g).0) == g
  {
    var s := g[..|g| - 5];
    assert g == s + ".json";
    GlobStemHasStem(g);
    JsonExtension();
    SplitExtAppend(s, ".json");
  }

  /** ".json" is an extension as splitext reports one. */
  lemma JsonExtension()
    ensures Extension(".json")
  {
    assert ".json"[1..] == "json";
  }

  /** The last component of a globbed path has a stem before ".json": it does not start with '.'. */
  lemma GlobStemHasStem(g: string)
    requires EndsWith(g, ".json") && Visible(g)
    ensures HasStem(g[..|g| - 5])
  {
    var s := g[..|g| - 5];
    var sep := LastIndexOf(s, '/');
    assert g[|s|] == '.';
    if sep >= 0 {
      assert g[sep] == '/';
    }
    assert g[sep + 1] != '.';
    assert s[sep + 1] == g[sep + 1];
    StemAfterSlash(s);
  }

  /** What the page caches for a sidecar: the loaded object, or `{}` when loading fails (the
      file is not a JSON object, or the path is a directory). */
  function Load(disk: Disk, g: string): Record
  {
    if g in disk.records && disk.records[g].Json? then disk.records[g].fields else map[]
  }

  /** The metadata cache refresh builds: every named wildcard whose sidecar the glob finds,
      with what loading it gives. */
  function MetadataCache(disk: Disk, names: set<string>): (cache: map<string, Record>)
    ensures cache.Keys <= names
  {
    CacheOf(disk, names, Glob(disk))
  }

  /** The part of the metadata cache built from the globbed paths `done`. */
  function CacheOf(disk: Disk, names: set<string>, done: set<string>): map<string, Record>
  {
    map w | w in names && SidecarPath(w) in done :: Load(disk, SidecarPath(w))
  }

  /** Before any globbed path is visited the cache is empty. */
  lemma CacheOfNothing(disk: Disk, names: set<string>)
    ensures CacheOf(disk, names, {}) == map[]
  {
  }

  /** Different wildcards have different sidecars. */
  lemma SidecarPathInjective(w: string, v: string)
    requires SidecarPath(w) == SidecarPath(v)
    ensures w == v
  {
    assert w == SidecarPath(w)[..|w|];
    assert v == SidecarPath(v)[..|v|];
  }

  /** Visiting the sidecar of `w` adds the entry of `w` when it is a named wildcard, and nothing
      otherwise. */
  lemma CacheOfOneMore(disk: Disk, names: set<string>, done: set<string>, w: string)
    requires SidecarPath(w) !in done
    ensures CacheOf(disk, names, done + {SidecarPath(w)}) ==
      if w in names then CacheOf(disk, names, done)[w := Load(disk, SidecarPath(w))] else CacheOf(disk, names, done)
  {
    var before := CacheOf(disk, names, done);
    var after := CacheOf(disk, names, done + {SidecarPath(w)});
    forall v | v in after && v != w
      ensures v in before
    {
      if SidecarPath(v) == SidecarPath(w) {
        SidecarPathInjective(v, w);
      }
    }
  }

  /** The label of the cleanup button after a sweep that archived `count` files. */
  function CleanupStatus(count: nat): string
  {
    StatusHead + StatusMiddle(count) + RefreshHint
  }

  /** The part of the status between its fixed head and tail. */
  function StatusMiddle(count: nat): string
  {
    if count > 0 then "Archived " + NatToString(count) + FilesWord else NoStaleText
  }

  const StatusHead := "Cleanup Ran: "

  const FilesWord := " files."

  const NoStaleText := "No stale files found."

  const RefreshHint := " Refresh page to run again."

  /** The status after a sweep that archived nothing. */
  const NoStaleStatus := StatusHead + NoStaleText + RefreshHint

  /** The status names the number of archived files; it is the "No stale files" message exactly
      when nothing was archived, and different counts give different messages. */
  lemma CleanupStatusReportsCount(a: nat, b: nat)
    ensures CleanupStatus(a) == NoStaleStatus <==> a == 0
    ensures CleanupStatus(a) == CleanupStatus(b) ==> a == b
  {
    var ma := StatusMiddle(a);
    var mb := StatusMiddle(b);
    assert ma[0] == (if a > 0 then 'A' else 'N');
    assert mb[0] == (if b > 0 then 'A' else 'N');
    if CleanupStatus(a) == CleanupStatus(b) {
      StripAffixes(StatusHead, ma, mb, RefreshHint);
      if a > 0 && b > 0 {
        StripAffixes("Archived ", NatToString(a), NatToString(b), FilesWord);
        NatToStringInjective(a, b);
      }
    }
    if CleanupStatus(a) == NoStaleStatus {
      StripAffixes(StatusHead, ma, NoStaleText, RefreshHint);
    }
  }

  /** `prompt_tab_cleanup_callback()`: sweep PROMPTS_DIR against the collected wildcards and
      report the count on the button. */
  method CleanupCallback(roots: seq<seq<SourceFile>>, disk: Disk, moveFails: set<string>, rmdirFails: set<string>)
    returns (status: string, disk': Disk)
    ensures forall active :: multiset(active) == Collected(roots) ==>
      status == CleanupStatus(Sweep(disk, active, moveFails, rmdirFails).archived) &&
      disk' == Sweep(disk, active, moveFails, rmdirFails).disk
  {
    var wildcardPaths := CollectWildcards(roots);
    var archivedCount;
    archivedCount, disk' := EnforceAssetRules(wildcardPaths, disk, moveFails, rmdirFails);
    status := CleanupStatus(archivedCount);
    forall active | multiset(active) == Collected(roots)
      ensures Sweep(disk, active, moveFails, rmdirFails) == Sweep(disk, wildcardPaths, moveFails, rmdirFails)
    {
      SweepSameElements(disk, active, wildcardPaths, moveFails, rmdirFails);
    }
  }

  /** The item of a listed wildcard carries the display name and category the name cache
      computed for it. */
  lemma ListedItemNamed(p: string, paths: seq<string>, userMetadata: Record, nameCache: map<string, (string, string)>, wrap: string)
    requires p in nameCache && nameCache[p] == NameEntry(p, paths)
    ensures var item := CreateItem(p, userMetadata, nameCache, wrap);
      && item.name == DisplayName(p, paths)
      && item.sortDefault == Lower(ParentSegment(p)) + "-" + Lower(DisplayName(p, paths))
      && item.filename == SidecarPath(p)
  {
  }

  /** Ensuring sidecars never removes or changes a file that was there, and never removes a
      directory. */
  lemma {:induction false} EnsureAllKeeps(disk: Disk, paths: seq<string>, wrap: string, writeFails: set<string>)
    ensures var after := EnsureAll(disk, paths, wrap, writeFails);
      && disk.dirs <= after.dirs
      && (forall f :: f in disk.records ==> f in after.records && after.records[f] == disk.records[f])
      && after.backup == disk.backup
    decreases |paths|
  {
    if paths != [] {
      EnsureAllKeeps(disk, paths[..|paths| - 1], wrap, writeFails);
    }
  }

  /** After ensuring, something is at the sidecar path of every listed wildcard whose sidecar
      was there already or whose write does not fail, and every directory above it exists. */
  lemma {:induction false} EnsureAllCreates(disk: Disk, paths: seq<string>, wrap: string, writeFails: set<string>, p: string)
    requires p in paths && (p !in writeFails || Exists(disk, SidecarPath(p)))
    ensures Exists(EnsureAll(disk, paths, wrap, writeFails), SidecarPath(p))
    ensures Ancestors(SidecarPath(p)) <= EnsureAll(disk, paths, wrap, writeFails).dirs
    decreases |paths|
  {
    var init := paths[..|paths| - 1];
    var before := EnsureAll(disk, init, wrap, writeFails);
    EnsureAllKeeps(disk, init, wrap, writeFails);
    EnsureAllKeeps(before, [paths[|paths| - 1]], wrap, writeFails);
    assert EnsureAll(before, [paths[|paths| - 1]], wrap, writeFails) == EnsureAll(disk, paths, wrap, writeFails) by {
      assert [paths[|paths| - 1]][..0] == [];
    }
    if p != paths[|paths| - 1] {
      assert p in init by {
        var k :| 0 <= k < |paths| && paths[k] == p;
        assert init[k] == p;
      }
      EnsureAllCreates(disk, init, wrap, writeFails, p);
    }
  }

  /** A sidecar the refresh writes loads back as the default record. */
  lemma WrittenSidecarLoads(disk: Disk, w: string, wrap: string, writeFails: set<string>)
    requires !Exists(disk, SidecarPath(w)) && w !in writeFails
    ensures Load(AfterEnsure(disk, w, wrap, writeFails), SidecarPath(w)) == DefaultRecord(w, wrap)
  {
  }

  /** Every listed wildcard whose sidecar existed or is written, and whose sidecar path is not
      hidden, has an entry in the metadata cache after a refresh. */
  lemma EveryLiveSidecarCached(disk: Disk, paths: seq<string>, wrap: string, writeFails: set<string>, p: string)
    requires p in paths && (p !in writeFails || Exists(disk, SidecarPath(p))) && Visible(SidecarPath(p))
    ensures p in MetadataCache(EnsureAll(disk, paths, wrap, writeFails), set q | q in paths)
  {
    EnsureAllCreates(disk, paths, wrap, writeFails, p);
  }

  /** A globbed sidecar of a named wildcard that holds a JSON object is cached as that object. */
  lemma ObjectSidecarCached(disk: Disk, names: set<string>, w: string)
    requires w in names && SidecarPath(w) in Glob(disk)
    requires SidecarPath(w) in disk.records && disk.records[SidecarPath(w)].Json?
    ensures w in MetadataCache(disk, names) && MetadataCache(disk, names)[w] == disk.records[SidecarPath(w)].fields
  {
  }

  /** A globbed sidecar of a named wildcard that does not hold a JSON object is cached as `{}`. */
  lemma UnreadableCachedEmpty(disk: Disk, names: set<string>, w: string)
    requires w in names && SidecarPath(w) in Glob(disk)
    requires !(SidecarPath(w) in disk.records && disk.records[SidecarPath(w)].Json?)
    ensures w in MetadataCache(disk, names) && MetadataCache(disk, names)[w] == map[]
  {
  }

  /** One entry of the page's list: the fields of `create_item` the model keeps. `filename` is
      relative to PROMPTS_DIR; `prompt` and `negativePrompt` are the texts before `quote_js`. */
  datatype Item = Item(name: string, filename: string, description: string, prompt: string,
                       negativePrompt: string, userMetadata: Record, sortDefault: string, sortName: string)

  /** `dict.get(key, default)`. */
  function Get(r: Record, key: string, default: string): string
  {
    if key in r then r[key] else default
  }

  /** `create_item(name, user_metadata)`. */
  function CreateItem(name: string, userMetadata: Record, nameCache: map<string, (string, string)>, wrap: string): Item
  {
    var (displayName, category) := if name in nameCache then nameCache[name] else (LastSegment(name), "");
    Item(displayName, SidecarPath(name), Get(userMetadata, "description", ""),
         Get(userMetadata, "activation text", wrap + name + wrap), Get(userMetadata, "negative text", ""),
         userMetadata, Lower(category) + "-" + Lower(displayName), Lower(displayName))
  }

  /** An item's sort keys: `name` is its display name lower-cased, and `default` is the
      lower-cased category, a dash, and the `name` key; a wildcard missing from the name cache
      is shown under its last segment with an empty category. */
  lemma ItemSortKeys(name: string, userMetadata: Record, nameCache: map<string, (string, string)>, wrap: string)
    ensures var item := CreateItem(name, userMetadata, nameCache, wrap);
      && item.sortName == Lower(item.name)
      && EndsWith(item.sortDefault, "-" + item.sortName)
      && (name !in nameCache ==> item.name == LastSegment(name) && item.sortDefault == "-" + item.sortName)
  {
    var item := CreateItem(name, userMetadata, nameCache, wrap);
    var category := if name in nameCache then nameCache[name].1 else "";
    assert item.sortDefault == Lower(category) + ("-" + item.sortName);
  }

  /** An item built from the default sidecar of `w` shows the same texts as one built from an
      empty record: the wrapped name as prompt, and empty description and negative prompt. */
  lemma DefaultRecordItem(w: string, nameCache: map<string, (string, string)>, wrap: string)
    ensures var item := CreateItem(w, DefaultRecord(w, wrap), nameCache, wrap);
      && item == CreateItem(w, map[], nameCache, wrap).(userMetadata := DefaultRecord(w, wrap))
      && item.prompt == wrap + w + wrap && item.description == "" && item.negativePrompt == ""
  {
  }

  /** The page: the name and metadata caches `refresh` rebuilds. */
  class SavedPromptsPage {
    var promptMetadataCache: map<string, Record>
    var promptNameCache: map<string, (string, string)>

    /** A page starts with both caches empty. */
    constructor()
      ensures promptMetadataCache == map[] && promptNameCache == map[]
    {
      promptMetadataCache := map[];
      promptNameCache := map[];
    }

    /** `ensure_prompt_json_exists(w)`: create the directories above the sidecar, then write the
        default record unless a file or directory is already at the sidecar path; return the
        record only when it was written. */
    method EnsurePromptJsonExists(w: string, wrap: string, disk: Disk, writeOk: bool)
      returns (created: Option<Record>, disk': Disk)
      ensures disk'.dirs == disk.dirs + Ancestors(SidecarPath(w)) && disk'.backup == disk.backup
      ensures Exists(disk, SidecarPath(w)) || !writeOk ==> created == None && disk'.records == disk.records
      ensures !Exists(disk, SidecarPath(w)) && writeOk ==>
        created == Some(DefaultRecord(w, wrap)) && disk'.records == disk.records[SidecarPath(w) := Json(DefaultRecord(w, wrap))]
      ensures disk' == AfterEnsure(disk, w, wrap, if writeOk then {} else {w})
    {
      var jsonPath := SidecarPath(w);
      disk' := disk.(dirs := disk.dirs + Ancestors(jsonPath));
      NotOwnAncestor(jsonPath);
      created := None;
      if !(jsonPath in disk'.records || jsonPath in disk'.dirs) {
        var defaultMetadata := DefaultRecord(w, wrap);
        if writeOk {
          disk' := disk'.(records := disk'.records[jsonPath := Json(defaultMetadata)]);
          created := Some(defaultMetadata);
        }
      }
    }

    /** `precompute_prompt_names(paths)`: the name-cache entry of every listed path. */
    method PrecomputePromptNames(paths: seq<string>) returns (nameCache: map<string, (string, string)>)
      ensures nameCache.Keys == set p | p in paths
      ensures forall p :: p in nameCache ==> nameCache[p] == NameEntry(p, paths)
    {
      var counts := CountBases(paths);
      nameCache := map[];
      for i := 0 to |paths|
        invariant forall p :: p in nameCache <==> p in paths[..i]
        invariant forall p :: p in nameCache ==> nameCache[p] == NameEntry(p, paths)
      {
        var path := paths[i];
        assert path in paths;
        var entry := NameOf(path, counts, paths);
        assert paths[..i + 1] == paths[..i] + [path];
        nameCache := nameCache[path := entry];
      }
      assert paths[..|paths|] == paths;
    }

    /** The first loop of `refresh()`: ensure the sidecar of every collected path, in order. */
    method EnsureEach(paths: seq<string>, wrap: string, disk: Disk, writeFails: set<string>) returns (disk': Disk)
      ensures disk' == EnsureAll(disk, paths, wrap, writeFails)
    {
      disk' := disk;
      for i := 0 to |paths|
        invariant disk' == EnsureAll(disk, paths[..i], wrap, writeFails)
      {
        assert paths[..i + 1][..i] == paths[..i];
        var _, next := EnsurePromptJsonExists(paths[i], wrap, disk', paths[i] !in writeFails);
        disk' := next;
      }
      assert paths[..|paths|] == paths;
    }

    /** The second loop of `refresh()`: load every globbed sidecar whose wildcard is named. */
    method LoadSidecars(disk: Disk, names: set<string>) returns (cache: map<string, Record>)
      ensures cache == MetadataCache(disk, names)
    {
      cache := map[];
      var found := Glob(disk);
      var pending := found;
      CacheOfNothing(disk, names);
      while pending != {}
        invariant pending <= found
        invariant cache == CacheOf(disk, names, found - pending)
        decreases |pending|
      {
        var jsonPath :| jsonPath in pending;
        var wildcardPath := SplitExt(jsonPath).0;
        GlobStem(jsonPath);
        CacheOfOneMore(disk, names, found - pending, wildcardPath);
        if wildcardPath in names {
          cache := cache[wildcardPath := Load(disk, jsonPath)];
        }
        assert found - (pending - {jsonPath}) == (found - pending) + {jsonPath};
        pending := pending - {jsonPath};
      }
      assert found - pending == found;
    }

    /** `refresh()`: collect the wildcards, rebuild the name cache, ensure every sidecar, then
        cache what loading each globbed sidecar of a named wildcard gives. */
    method Refresh(roots: seq<seq<SourceFile>>, wrap: string, disk: Disk, writeFails: set<string>)
      returns (ghost paths: seq<string>, disk': Disk)
      modifies this
      ensures multiset(paths) == Collected(roots)
      ensures disk' == EnsureAll(disk, paths, wrap, writeFails)
      ensures promptNameCache.Keys == set p | p in paths
      ensures forall p :: p in promptNameCache ==> promptNameCache[p] == NameEntry(p, paths)
      ensures promptMetadataCache == MetadataCache(disk', promptNameCache.Keys)
    {
      var wildcardPaths := CollectWildcards(roots);
      paths := wildcardPaths;
      promptNameCache := PrecomputePromptNames(wildcardPaths);
      disk' := EnsureEach(wildcardPaths, wrap, disk, writeFails);
      promptMetadataCache := LoadSidecars(disk', promptNameCache.Keys);
    }

    /** `list_items()`: refresh, then one item per cached wildcard, in the order of the
        lower-cased wildcard paths. */
    method ListItems(roots: seq<seq<SourceFile>>, wrap: string, disk: Disk, writeFails: set<string>)
      returns (items: seq<Item>, ghost order: seq<string>, ghost paths: seq<string>, disk': Disk)
      modifies this
      ensures multiset(paths) == Collected(roots)
      ensures disk' == EnsureAll(disk, paths, wrap, writeFails)
      ensures promptNameCache.Keys == set p | p in paths
      ensures forall p :: p in promptNameCache ==> promptNameCache[p] == NameEntry(p, paths)
      ensures promptMetadataCache == MetadataCache(disk', promptNameCache.Keys)
      ensures multiset(order) == multiset(promptMetadataCache.Keys) && SortedByLower(order)
      ensures |items| == |order|
      ensures forall i :: 0 <= i < |order| ==>
        order[i] in promptMetadataCache &&
        items[i] == CreateItem(order[i], promptMetadataCache[order[i]], promptNameCache, wrap)
    {
      paths, disk' := Refresh(roots, wrap, disk, writeFails);
      var keys := ListOfSet(promptMetadataCache.Keys);
      var sorted := SortByLower(keys);
      order := sorted;
      forall k | 0 <= k < |sorted|
        ensures sorted[k] in promptMetadataCache
      {
        assert sorted[k] in multiset(sorted);
      }
      items := CreateItems(sorted, wrap);
    }

    /** The generator of `list_items()`: the item of every name of `order`, from the caches. */
    method CreateItems(order: seq<string>, wrap: string) returns (items: seq<Item>)
      requires forall k :: 0 <= k < |order| ==> order[k] in promptMetadataCache
      ensures |items| == |order|
      ensures forall k :: 0 <= k < |order| ==>
        items[k] == CreateItem(order[k], promptMetadataCache[order[k]], promptNameCache, wrap)
    {
      items := [];
      for i := 0 to |order|
        invariant |items| == i
        invariant forall k :: 0 <= k < i ==>
          items[k] == CreateItem(order[k], promptMetadataCache[order[k]], promptNameCache, wrap)
      {
        items := items + [CreateItem(order[i], promptMetadataCache[order[i]], promptNameCache, wrap)];
      }
    }
  }
}

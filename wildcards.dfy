/** Wildcard enumeration (scripts/style_utils.py: collect_Wildcards, get_yaml_paths and its
    inner traverse). A wildcard root is given as the files os.walk finds under it, in walk order;
    a YAML file carries the outcome of yaml.safe_load on it. */
module Wildcards {
  import opened Text

  /** A loaded YAML value: a mapping (its entries in load order) or any value that is not a
      mapping (a scalar, a list, or None for an empty document). */
  datatype Node = Leaf | Map(entries: seq<(string, Node)>)

  /** The outcome of yaml.safe_load. */
  datatype Parse = Parsed(doc: Node) | ParseError

  /** A file under a wildcard root: the directories between the root and the file, its name, and
      what yaml.safe_load makes of it (consulted only for .yaml/.yml files). */
  datatype SourceFile = SourceFile(dirs: seq<string>, name: string, content: Parse)

  /** `f"{path}/{key}" if path else key`: an empty prefix is dropped, not joined. */
  function Extend(path: string, key: string): string
  {
    if path != "" then path + "/" + key else key
  }

  /** The paths `traverse(n, path)` adds to the result set. */
  function LeafPaths(n: Node, path: string): set<string>
    decreases n
  {
    match n
    case Leaf => {path}
    case Map(es) => EntriesPaths(n, |es|, path)
  }

  /** The paths contributed by the first k entries of the mapping n. */
  function EntriesPaths(n: Node, k: nat, path: string): set<string>
    requires n.Map? && k <= |n.entries|
    decreases n, k
  {
    if k == 0 then {}
    else
      var (key, child) := n.entries[k - 1];
      EntriesPaths(n, k - 1, path) + LeafPaths(child, Extend(path, key))
  }

  /** `traverse(data, path)`: recurse into mappings entry by entry and add the accumulated path
      at every value that is not a mapping. `paths` is the closure's set before the call. */
  method Traverse(data: Node, path: string, paths: set<string>) returns (paths': set<string>)
    ensures paths' == paths + LeafPaths(data, path)
    decreases data
  {
    match data
    case Leaf =>
      paths' := paths + {path};
    case Map(es) =>
      paths' := paths;
      for i := 0 to |es|
        invariant paths' == paths + EntriesPaths(data, i, path)
      {
        var (key, value) := es[i];
        var newPath := if path != "" then path + "/" + key else key;
        paths' := Traverse(value, newPath, paths');
      }
  }

  /** `list(paths)`: the elements of a set, each exactly once, in an unspecified order. */
  method ListOfSet(s: set<string>) returns (r: seq<string>)
    ensures multiset(r) == multiset(s)
  {
    r := [];
    var rest := s;
    while rest != {}
      invariant rest <= s
      invariant multiset(r) + multiset(rest) == multiset(s)
      decreases rest
    {
      var x :| x in rest;
      assert multiset(rest) == multiset(rest - {x}) + multiset{x};
      r := r + [x];
      rest := rest - {x};
    }
  }

  /** `get_yaml_paths`: the leaf paths of the document, each once; a parse error yields none. */
  method GetYamlPaths(content: Parse) returns (paths: seq<string>)
    ensures content.ParseError? ==> paths == []
    ensures content.Parsed? ==> multiset(paths) == multiset(LeafPaths(content.doc, ""))
  {
    match content
    case ParseError =>
      paths := [];
    case Parsed(doc) =>
      var found := Traverse(doc, "", {});
      paths := ListOfSet(found);
  }

  /** `file.lower().endswith(".txt")`. */
  predicate IsListFile(name: string)
  {
    EndsWith(Lower(name), ".txt")
  }

  /** `file.lower().endswith((".yaml", ".yml"))`. */
  predicate IsStructuredFile(name: string)
  {
    EndsWith(Lower(name), ".yaml") || EndsWith(Lower(name), ".yml")
  }

  /** The identifier of a list file: its root-relative path with every literal ".txt" removed. */
  function ListIdentifier(f: SourceFile): string
  {
    RemoveAll(Join(f.dirs + [f.name]), ".txt")
  }

  /** The identifiers one file adds to the collected list. */
  function Contribution(f: SourceFile): multiset<string>
  {
    if IsListFile(f.name) then multiset{ListIdentifier(f)}
    else if IsStructuredFile(f.name) then
      match f.content
      case Parsed(doc) => multiset(LeafPaths(doc, ""))
      case ParseError => multiset{}
    else multiset{}
  }

  /** The identifiers a sequence of files adds, duplicates included. */
  function FilesContribution(files: seq<SourceFile>): multiset<string>
  {
    if files == [] then multiset{}
    else FilesContribution(files[..|files| - 1]) + Contribution(files[|files| - 1])
  }

  /** The identifiers `collect_Wildcards(roots)` returns, as a multiset (its order follows the walk
      and the unordered result of each get_yaml_paths). */
  function Collected(roots: seq<seq<SourceFile>>): multiset<string>
  {
    if roots == [] then multiset{}
    else Collected(roots[..|roots| - 1]) + FilesContribution(roots[|roots| - 1])
  }

  /** The body of the inner loop of `collect_Wildcards` for one file: the identifiers it appends. */
  method FileIdentifiers(file: SourceFile) returns (found: seq<string>)
    ensures multiset(found) == Contribution(file)
  {
    if IsListFile(file.name) {
      found := [ListIdentifier(file)];
    } else if IsStructuredFile(file.name) {
      found := GetYamlPaths(file.content);
    } else {
      found := [];
    }
  }

  /** The inner loop of `collect_Wildcards` over the files os.walk finds under one root. */
  method RootIdentifiers(files: seq<SourceFile>) returns (found: seq<string>)
    ensures multiset(found) == FilesContribution(files)
  {
    found := [];
    for j := 0 to |files|
      invariant multiset(found) == FilesContribution(files[..j])
    {
      var more := FileIdentifiers(files[j]);
      assert files[..j + 1][..j] == files[..j];
      found := found + more;
    }
    assert files[..|files|] == files;
  }

  /** `collect_Wildcards`: walk every root in turn and append what each file contributes. */
  method CollectWildcards(roots: seq<seq<SourceFile>>) returns (collected: seq<string>)
    ensures multiset(collected) == Collected(roots)
  {
    collected := [];
    for i := 0 to |roots|
      invariant multiset(collected) == Collected(roots[..i])
    {
      var found := RootIdentifiers(roots[i]);
      assert roots[..i + 1][..i] == roots[..i];
      collected := collected + found;
    }
    assert roots[..|roots|] == roots;
  }

  // ---------------------------------------------------------------------------------------------
  // What the traversal emits

  /** The key sequence `keys` leads from n, through mappings only, to a value that is not a mapping. */
  predicate LeafAt(n: Node, keys: seq<string>)
    decreases n
  {
    match n
    case Leaf => keys == []
    case Map(es) =>
      keys != [] && exists i :: 0 <= i < |es| && es[i].0 == keys[0] && LeafAt(es[i].1, keys[1..])
  }

  /** The path traverse builds while following `keys` from `path`. */
  function FoldPath(path: string, keys: seq<string>): string
    decreases |keys|
  {
    if keys == [] then path else FoldPath(Extend(path, keys[0]), keys[1..])
  }

  /** Every entry of the first k entries contributes all of its leaf paths. */
  lemma {:induction false} EntriesPathsInclude(n: Node, k: nat, i: nat, path: string)
    requires n.Map? && i < k <= |n.entries|
    ensures LeafPaths(n.entries[i].1, Extend(path, n.entries[i].0)) <= EntriesPaths(n, k, path)
    decreases k
  {
    if i < k - 1 {
      EntriesPathsInclude(n, k - 1, i, path);
    }
  }

  /** A path in the union of the first k entries comes from one of them. */
  lemma {:induction false} EntriesPathsSource(n: Node, k: nat, path: string, p: string) returns (i: nat)
    requires n.Map? && k <= |n.entries|
    requires p in EntriesPaths(n, k, path)
    ensures i < k && p in LeafPaths(n.entries[i].1, Extend(path, n.entries[i].0))
    decreases k
  {
    var (key, child) := n.entries[k - 1];
    if p in LeafPaths(child, Extend(path, key)) {
      i := k - 1;
    } else {
      i := EntriesPathsSource(n, k - 1, path, p);
    }
  }

  /** Completeness: every key sequence ending at a non-mapping value is emitted. */
  lemma {:induction false} LeafReached(n: Node, keys: seq<string>, path: string)
    requires LeafAt(n, keys)
    ensures FoldPath(path, keys) in LeafPaths(n, path)
    decreases n
  {
    match n
    case Leaf =>
    case Map(es) =>
      var i :| 0 <= i < |es| && es[i].0 == keys[0] && LeafAt(es[i].1, keys[1..]);
      LeafReached(es[i].1, keys[1..], Extend(path, keys[0]));
      EntriesPathsInclude(n, |es|, i, path);
  }

  /** Soundness: every emitted path is built from a key sequence that ends at a non-mapping value,
      so a mapping is never emitted as such and an empty mapping contributes nothing. */
  lemma {:induction false} LeafOrigin(n: Node, path: string, p: string) returns (keys: seq<string>)
    requires p in LeafPaths(n, path)
    ensures LeafAt(n, keys) && FoldPath(path, keys) == p
    decreases n
  {
    match n
    case Leaf =>
      keys := [];
    case Map(es) =>
      var i := EntriesPathsSource(n, |es|, path, p);
      var rest := LeafOrigin(es[i].1, Extend(path, es[i].0), p);
      keys := [es[i].0] + rest;
      assert keys[1..] == rest;
  }

  /** From a non-empty prefix, the fold is the '/'-join of the prefix and the keys. */
  lemma {:induction false} FoldFromPrefix(path: string, keys: seq<string>)
    requires path != ""
    ensures FoldPath(path, keys) == Join([path] + keys)
    decreases |keys|
  {
    if keys != [] {
      FoldFromPrefix(path + "/" + keys[0], keys[1..]);
      JoinHead(path, keys[0], keys[1..]);
    }
  }

  /** Joining with the first two segments already glued. */
  lemma {:induction false} JoinHead(a: string, b: string, rest: seq<string>)
    ensures Join([a + "/" + b] + rest) == Join([a] + [b] + rest)
  {
    if rest != [] {
      assert ([a + "/" + b] + rest)[1..] == rest;
      assert ([a] + [b] + rest)[1..] == [b] + rest;
      assert ([b] + rest)[1..] == rest;
    } else {
      assert ([a] + [b])[1..] == [b];
    }
  }

  /** A top-level document path is the '/'-join of its keys whenever the first key is not empty
      (an empty first key is dropped by the `if path` test rather than joined). */
  lemma EmittedPathIsJoin(keys: seq<string>)
    requires keys != [] && keys[0] != ""
    ensures FoldPath("", keys) == Join(keys)
  {
    FoldFromPrefix(keys[0], keys[1..]);
    assert [keys[0]] + keys[1..] == keys;
  }

  /** A document that is not a mapping yields the single path "". */
  lemma ScalarDocument()
    ensures LeafPaths(Leaf, "") == {""}
  {
  }

  /** An empty mapping contributes nothing. */
  lemma EmptyMapping(path: string)
    ensures LeafPaths(Map([]), path) == {}
  {
  }

  /** The document {a: {b: 1, c: {d: 2}}} yields exactly a/b and a/c/d. */
  lemma NestedExample()
    ensures LeafPaths(Map([("a", Map([("b", Leaf), ("c", Map([("d", Leaf)]))]))]), "") == {"a/b", "a/c/d"}
  {
    var inner := Map([("d", Leaf)]);
    var mid := Map([("b", Leaf), ("c", inner)]);
    assert Extend("a/c", "d") == "a/c/d";
    assert Extend("a", "b") == "a/b";
    assert Extend("a", "c") == "a/c";
    assert Extend("", "a") == "a";
    assert LeafPaths(inner, "a/c") == {"a/c/d"} by {
      assert EntriesPaths(inner, 1, "a/c") == EntriesPaths(inner, 0, "a/c") + LeafPaths(Leaf, "a/c/d");
    }
    assert EntriesPaths(mid, 1, "a") == {"a/b"} by {
      assert EntriesPaths(mid, 1, "a") == EntriesPaths(mid, 0, "a") + LeafPaths(Leaf, "a/b");
    }
    assert LeafPaths(mid, "a") == {"a/b", "a/c/d"} by {
      assert EntriesPaths(mid, 2, "a") == EntriesPaths(mid, 1, "a") + LeafPaths(inner, "a/c");
    }
  }

  // ---------------------------------------------------------------------------------------------
  // What collect_Wildcards returns

  /** Collecting over two lists of roots is the multiset sum: duplicates across roots are kept. */
  lemma {:induction false} CollectedAppend(first: seq<seq<SourceFile>>, second: seq<seq<SourceFile>>)
    ensures Collected(first + second) == Collected(first) + Collected(second)
    decreases |second|
  {
    if second != [] {
      var last := |second| - 1;
      assert (first + second)[..|first + second| - 1] == first + second[..last];
      CollectedAppend(first, second[..last]);
    } else {
      assert first + second == first;
    }
  }

  /** Joining paths whose last segment has a suffix appended. */
  lemma {:induction false} JoinAppendLast(dirs: seq<string>, stem: string, suffix: string)
    ensures Join(dirs + [stem + suffix]) == Join(dirs + [stem]) + suffix
    decreases |dirs|
  {
    if dirs != [] {
      JoinAppendLast(dirs[1..], stem, suffix);
      assert (dirs + [stem + suffix])[1..] == dirs[1..] + [stem + suffix];
      assert (dirs + [stem])[1..] == dirs[1..] + [stem];
    }
  }

  /** A file "stem.txt" is identified by its path without the extension (and without any other
      literal ".txt" the path contains). */
  lemma ListFileIdentifier(dirs: seq<string>, stem: string, content: Parse)
    ensures IsListFile(stem + ".txt")
    ensures Contribution(SourceFile(dirs, stem + ".txt", content))
         == multiset{RemoveAll(Join(dirs + [stem]), ".txt")}
  {
    var name := stem + ".txt";
    assert Lower(name)[|name| - 4..] == ".txt";
    JoinAppendLast(dirs, stem, ".txt");
    RemoveTxtSuffix(Join(dirs + [stem]));
  }

  /** The list-file test ignores case but the stripping does not: "A.TXT" is the wildcard "A.TXT". */
  lemma UpperCaseExtensionKept(content: Parse)
    ensures Contribution(SourceFile([], "A.TXT", content)) == multiset{"A.TXT"}
  {
    var name := "A.TXT";
    assert [] + [name] == [name];
    assert Lower(name) == "a.txt";
    assert IsListFile(name);
    forall k
      ensures !OccursAt(name, ".txt", k)
    {
      if 0 <= k <= 1 {
        assert name[k..k + 4][1] == name[k + 1] != 't';
      }
    }
    RemoveAllAbsent(name, ".txt");
  }

  /** Files that are neither list nor structured files contribute nothing. */
  lemma OtherFilesIgnored(f: SourceFile)
    requires !IsListFile(f.name) && !IsStructuredFile(f.name)
    ensures Contribution(f) == multiset{}
  {
  }

  /** A structured file that fails to parse contributes nothing; one that parses contributes each
      of its leaf paths exactly once. */
  lemma StructuredFileContribution(f: SourceFile)
    requires !IsListFile(f.name) && IsStructuredFile(f.name)
    ensures f.content.ParseError? ==> Contribution(f) == multiset{}
    ensures f.content.Parsed? ==> forall p :: Contribution(f)[p] == if p in LeafPaths(f.content.doc, "") then 1 else 0
  {
  }
}

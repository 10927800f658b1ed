/** The two collision-aware naming helpers of scripts/style_utils.py, get_safe_name and
    get_safe_name_2. Neither is called by the page; they are pure functions of the selected
    path and the whole list of wildcard paths. Python's `list.count(x)` is `multiset(list)[x]`. */
module SafeNames {
  import opened Text

  /** `'/'.join(path.split('/')[-level:])`: the last `level` segments (all of them when level is 0
      or not smaller than the number of segments). */
  function Curated(path: string, level: nat): string
  {
    Join(TailSlice(Split(path), level))
  }

  /** `path_parts[-level-1] if len(path_parts) > level else ""`: the segment just above the curated part. */
  function CuratedParent(path: string, level: nat): string
  {
    var parts := Split(path);
    if |parts| > level then parts[|parts| - level - 1] else ""
  }

  /** The curated form of every path in the list, in list order. */
  function CuratedList(paths: seq<string>, level: nat): seq<string>
  {
    seq(|paths|, i requires 0 <= i < |paths| => Curated(paths[i], level))
  }

  /** `get_safe_name(selected, paths, level)`: the curated form, suffixed with "(parent)", or with
      "(count+1)" when there is no parent, once that form occurs more than once in the list. */
  function SafeName(selected: string, paths: seq<string>, level: nat): (string, string)
  {
    var parent := CuratedParent(selected, level);
    var curated := Curated(selected, level);
    var occurrences := multiset(CuratedList(paths, level))[curated];
    if occurrences > 1 then
      var suffix := if parent != "" then parent else NatToString(occurrences + 1);
      (curated + "(" + suffix + ")", parent)
    else
      (curated, parent)
  }

  /** Wrapping in parentheses is injective. */
  lemma BracketInjective(x: string, a: string, b: string)
    requires x + "(" + a + ")" == x + "(" + b + ")"
    ensures a == b
  {
    var s := x + "(" + a + ")";
    assert a == s[|x| + 1..|s| - 1];
    assert b == (x + "(" + b + ")")[|x| + 1..|s| - 1];
  }

  /** get_safe_name returns the curated form unchanged exactly when it occurs at most once. */
  lemma SafeNameUnchangedIff(selected: string, paths: seq<string>, level: nat)
    ensures SafeName(selected, paths, level).0 == Curated(selected, level)
        <==> multiset(CuratedList(paths, level))[Curated(selected, level)] <= 1
  {
    var curated := Curated(selected, level);
    var r := SafeName(selected, paths, level).0;
    if multiset(CuratedList(paths, level))[curated] > 1 {
      assert |r| > |curated|;
    }
  }

  /** Two listed paths whose curated forms collide get different names when their parents differ
      and neither parent is empty. */
  lemma SafeNameSeparatesParents(a: string, b: string, paths: seq<string>, level: nat)
    requires a in paths && b in paths && a != b
    requires Curated(a, level) == Curated(b, level)
    requires CuratedParent(a, level) != "" && CuratedParent(b, level) != ""
    ensures SafeName(a, paths, level).0 == SafeName(b, paths, level).0
        <==> CuratedParent(a, level) == CuratedParent(b, level)
  {
    var list := CuratedList(paths, level);
    var i :| 0 <= i < |paths| && paths[i] == a;
    var j :| 0 <= j < |paths| && paths[j] == b;
    assert list[i] == list[j] == Curated(a, level);
    MultisetCountTwo(list, i, j);
    if SafeName(a, paths, level).0 == SafeName(b, paths, level).0 {
      BracketInjective(Curated(a, level), CuratedParent(a, level), CuratedParent(b, level));
    }
  }

  /** Joining a concatenation of two non-empty segment lists. */
  lemma {:induction false} JoinConcat(xs: seq<string>, ys: seq<string>)
    requires xs != [] && ys != []
    ensures Join(xs + ys) == Join(xs) + "/" + Join(ys)
    decreases |xs|
  {
    if |xs| > 1 {
      JoinConcat(xs[1..], ys);
      assert (xs + ys)[1..] == xs[1..] + ys;
    } else {
      assert (xs + ys)[1..] == ys;
    }
  }

  /** The parent is the segment just above the curated part: the selected path ends with
      parent + "/" + curated whenever it has more segments than the inclusion level. */
  lemma ParentAboveCurated(selected: string, level: nat)
    requires 1 <= level < |Split(selected)|
    ensures EndsWith(selected, CuratedParent(selected, level) + "/" + Curated(selected, level))
  {
    var parts := Split(selected);
    var k := |parts| - level - 1;
    var tail := parts[k + 1..];
    assert TailSlice(parts, level) == tail;
    var ending := parts[k] + "/" + Join(tail);
    assert Join(parts[k..]) == ending by {
      assert parts[k..][1..] == tail;
    }
    JoinSplit(selected);
    if k == 0 {
      assert parts[k..] == parts;
    } else {
      assert parts == parts[..k] + parts[k..];
      JoinConcat(parts[..k], parts[k..]);
      assert selected == Join(parts[..k]) + "/" + ending;
    }
  }

  /** A path with no more segments than the inclusion level is its own curated form and has no parent. */
  lemma ShortPathCuratedWhole(selected: string, level: nat)
    requires |Split(selected)| <= level
    ensures Curated(selected, level) == selected && CuratedParent(selected, level) == ""
  {
    JoinSplit(selected);
  }

  /** The parenthesised part get_safe_name_2 chooses: the grandparent/parent pair, or the parent with
      a count, when the two-segment form repeats; otherwise the parent, or (for a single-segment path)
      a count of how often the bare last segment occurs among the two-segment forms, or nothing. */
  function SafeName2Suffix(selected: string, paths: seq<string>): string
  {
    var parts := Split(selected);
    var parent := if |parts| > 1 then parts[|parts| - 2] else "";
    var auxParent := if |parts| > 2 then parts[|parts| - 3] else "";
    var curatedList := CuratedList(paths, 2);
    var occurrences := multiset(curatedList)[Join(TailSlice(parts, 1))];
    var occurrencesAux := multiset(curatedList)[Join(TailSlice(parts, 2))];
    if occurrencesAux > 1 then
      if auxParent != "" then auxParent + "/" + parent
      else parent + "(" + NatToString(occurrencesAux + 1) + ")"
    else
      var occurrencesStr := if occurrences == 0 then "" else "(" + NatToString(occurrences + 1) + ")";
      if parent != "" then parent else occurrencesStr
  }

  /** `get_safe_name_2(selected, paths)`: the last segment with the chosen suffix in parentheses
      (even when the suffix is empty), and the parent segment. */
  function SafeName2(selected: string, paths: seq<string>): (string, string)
  {
    (LastSegment(selected) + "(" + SafeName2Suffix(selected, paths) + ")", ParentSegment(selected))
  }

  /** get_safe_name_2 always answers "<last>(<suffix>)" and the parent segment (the category the page uses). */
  lemma SafeName2Shape(selected: string, paths: seq<string>)
    ensures StartsWith(SafeName2(selected, paths).0, LastSegment(selected) + "(")
    ensures EndsWith(SafeName2(selected, paths).0, ")")
    ensures SafeName2(selected, paths).1 == ParentSegment(selected)
  {
  }

  /** A path with a parent whose two-segment form is not repeated is named "<last>(<parent>)". */
  lemma SafeName2UsesParent(selected: string, paths: seq<string>)
    requires ParentSegment(selected) != ""
    requires multiset(CuratedList(paths, 2))[Curated(selected, 2)] <= 1
    ensures SafeName2(selected, paths).0 == LastSegment(selected) + "(" + ParentSegment(selected) + ")"
  {
  }

  /** A single-segment path absent from the list gets an empty suffix: "a" becomes "a()". */
  lemma SafeName2EmptySuffix()
    ensures SafeName2("a", []) == ("a()", "")
  {
    SplitNoSlash("a");
    assert LastSegment("a") == "a";
    assert ParentSegment("a") == "";
    assert SafeName2Suffix("a", []) == "";
    assert "a" + "(" + "" + ")" == "a()";
  }

  /** A single-segment path counts itself: "a" listed once becomes "a((2))". */
  lemma SafeName2CountsItself()
    ensures SafeName2("a", ["a"]) == ("a((2))", "")
  {
    SplitNoSlash("a");
    assert Curated("a", 2) == "a";
    assert CuratedList(["a"], 2) == ["a"];
    assert multiset(CuratedList(["a"], 2))["a"] == 1;
    assert NatToString(2) == "2";
    assert SafeName2Suffix("a", ["a"]) == "(2)";
    assert "a" + "(" + "(2)" + ")" == "a((2))";
  }
}

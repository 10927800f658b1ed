/** String helpers with the semantics of the Python built-ins the extension relies on:
    str.split('/'), '/'.join, str.endswith, str.replace(pat, ""), str.upper/lower
    (restricted to ASCII), str(n) for naturals, and os.path.splitext on '/'-separated paths. */
module Text {

  /** ASCII upper-casing of one character. */
  function UpperChar(c: char): char
  {
    if 'a' <= c <= 'z' then (c as int - 32) as char else c
  }

  /** ASCII lower-casing of one character. */
  function LowerChar(c: char): char
  {
    if 'A' <= c <= 'Z' then (c as int + 32) as char else c
  }

  /** `s.upper()`, ASCII only. */
  function Upper(s: string): string
  {
    seq(|s|, i requires 0 <= i < |s| => UpperChar(s[i]))
  }

  /** `s.lower()`, ASCII only. */
  function Lower(s: string): string
  {
    seq(|s|, i requires 0 <= i < |s| => LowerChar(s[i]))
  }

  /** Lower-casing works character by character, so it distributes over concatenation. */
  lemma LowerAppend(s: string, t: string)
    ensures Lower(s + t) == Lower(s) + Lower(t)
  {
  }

  /** `s.endswith(suffix)`. */
  predicate EndsWith(s: string, suffix: string)
  {
    |suffix| <= |s| && s[|s| - |suffix|..] == suffix
  }

  /** `s.startswith(prefix)`. */
  predicate StartsWith(s: string, prefix: string)
  {
    |prefix| <= |s| && s[..|prefix|] == prefix
  }

  /** `s.split('/')`: every '/' separates two segments, so "" gives [""] and "a//b" gives ["a", "", "b"]. */
  function Split(s: string): (parts: seq<string>)
    ensures |parts| >= 1
    ensures forall i :: 0 <= i < |parts| ==> '/' !in parts[i]
    decreases |s|
  {
    if s == [] then [""]
    else
      var rest := Split(s[1..]);
      if s[0] == '/' then [""] + rest else [[s[0]] + rest[0]] + rest[1..]
  }

  /** A string without '/' is a single segment. */
  lemma {:induction false} SplitNoSlash(s: string)
    requires '/' !in s
    ensures Split(s) == [s]
    decreases |s|
  {
    if s != [] {
      SplitNoSlash(s[1..]);
      assert s == [s[0]] + s[1..];
    }
  }

  /** Appending '/' starts a new, empty last segment. */
  lemma {:induction false} SplitSnocSlash(s: string)
    ensures Split(s + ['/']) == Split(s) + [""]
    decreases |s|
  {
    if s == [] {
      assert s + ['/'] == ['/'];
      assert Split(['/']) == [""] + Split([]);
    } else {
      SplitSnocSlash(s[1..]);
      assert (s + ['/'])[1..] == s[1..] + ['/'];
      var rest := Split(s[1..]);
      assert Split(s[1..] + ['/']) == rest + [""];
      if s[0] != '/' {
        assert (rest + [""])[1..] == rest[1..] + [""];
      }
    }
  }

  /** Appending a character other than '/' keeps the number of segments and extends the last one. */
  lemma {:induction false} LastSegmentSnoc(s: string, c: char)
    requires c != '/'
    ensures |Split(s + [c])| == |Split(s)|
    ensures LastSegment(s + [c]) == LastSegment(s) + [c]
    decreases |s|
  {
    var parts := Split(s + [c]);
    if s == [] {
      assert s + [c] == [c];
      assert parts == [[c] + Split([])[0]] + Split([])[1..];
    } else {
      LastSegmentSnoc(s[1..], c);
      assert (s + [c])[1..] == s[1..] + [c];
      var rest := Split(s[1..]);
      var rest' := Split(s[1..] + [c]);
      assert rest'[|rest'| - 1] == rest[|rest| - 1] + [c];
      if s[0] == '/' {
        assert parts == [""] + rest';
      } else {
        assert parts == [[s[0]] + rest'[0]] + rest'[1..];
        if |rest| == 1 {
          assert [s[0]] + (rest[0] + [c]) == ([s[0]] + rest[0]) + [c];
        }
      }
    }
  }

  /** Appending slash-free text to a path extends its last segment by that text. */
  lemma {:induction false} LastSegmentAppend(s: string, t: string)
    requires '/' !in t
    ensures LastSegment(s + t) == LastSegment(s) + t
    decreases |t|
  {
    if t != [] {
      var u := t[..|t| - 1];
      var c := t[|t| - 1];
      assert c != '/';
      LastSegmentAppend(s, u);
      LastSegmentSnoc(s + u, c);
      assert s + t == (s + u) + [c];
      assert u + [c] == t;
      assert LastSegment(s + t) == LastSegment(s + u) + [c];
    } else {
      assert s + t == s;
    }
  }

  /** The last segment is what follows the last '/'. */
  lemma LastSegmentAfterSlash(s: string)
    ensures LastSegment(s) == s[LastIndexOf(s, '/') + 1..]
  {
    NoSlashAfterLast(s);
    if LastIndexOf(s, '/') < 0 {
      assert s[0..] == s;
      SplitNoSlash(s);
    } else {
      LastSegmentAfterSep(s, LastIndexOf(s, '/'));
    }
  }

  /** When `s[k]` is '/' and no '/' follows, the last segment is what follows index k. */
  lemma LastSegmentAfterSep(s: string, k: nat)
    requires k < |s| && s[k] == '/' && '/' !in s[k + 1..]
    ensures LastSegment(s) == s[k + 1..]
  {
    var p := s[..k + 1];
    assert p == s[..k] + ['/'];
    SplitSnocSlash(s[..k]);
    LastSegmentAppend(p, s[k + 1..]);
    assert p + s[k + 1..] == s;
  }

  /** Nothing after the last '/' is a '/'. */
  lemma NoSlashAfterLast(s: string)
    ensures '/' !in s[LastIndexOf(s, '/') + 1..]
  {
    var k := LastIndexOf(s, '/');
    var t := s[k + 1..];
    forall j | 0 <= j < |t|
      ensures t[j] != '/'
    {
      assert t[j] == s[k + 1 + j];
    }
  }

  /** `'/'.join(parts)`. */
  function Join(parts: seq<string>): string
  {
    if |parts| == 0 then ""
    else if |parts| == 1 then parts[0]
    else parts[0] + "/" + Join(parts[1..])
  }

  /** Joining the segments of a split gives the original string back. */
  lemma {:induction false} JoinSplit(s: string)
    ensures Join(Split(s)) == s
    decreases |s|
  {
    if s != [] {
      JoinSplit(s[1..]);
      var rest := Split(s[1..]);
      if s[0] == '/' {
        assert Split(s) == [""] + rest;
        assert s == [s[0]] + s[1..];
      } else {
        var parts := Split(s);
        assert parts == [[s[0]] + rest[0]] + rest[1..];
        if |rest| == 1 {
          assert s == [s[0]] + rest[0];
        } else {
          assert Join(rest) == rest[0] + "/" + Join(rest[1..]);
          assert parts[1..] == rest[1..];
          assert s == [s[0]] + s[1..];
        }
      }
    }
  }

  /** Splitting a join of slash-free segments gives the segments back. */
  lemma {:induction false} SplitJoin(parts: seq<string>)
    requires |parts| >= 1
    requires forall i :: 0 <= i < |parts| ==> '/' !in parts[i]
    ensures Split(Join(parts)) == parts
    decreases |parts|, |parts[0]|
  {
    if parts[0] == [] {
      if |parts| > 1 {
        SplitJoin(parts[1..]);
        assert Join(parts) == "/" + Join(parts[1..]);
        assert Join(parts)[1..] == Join(parts[1..]);
        assert parts == [""] + parts[1..];
      }
    } else {
      var p0 := parts[0];
      var smaller := [p0[1..]] + parts[1..];
      SplitJoin(smaller);
      assert Join(smaller) == Join(parts)[1..] by {
        if |parts| > 1 {
          assert smaller[1..] == parts[1..];
        }
      }
      assert Join(parts)[0] == p0[0];
      assert [p0[0]] + p0[1..] == p0;
      assert parts == [[p0[0]] + smaller[0]] + smaller[1..];
    }
  }

  /** `path.split('/')[-1]`: the last segment. */
  function LastSegment(path: string): (last: string)
    ensures '/' !in last
  {
    var parts := Split(path);
    parts[|parts| - 1]
  }

  /** `parts[-2] if len(parts) > 1 else ""` for `parts = path.split('/')`: the segment above the last. */
  function ParentSegment(path: string): (parent: string)
    ensures '/' !in parent
  {
    var parts := Split(path);
    if |parts| > 1 then parts[|parts| - 2] else ""
  }

  /** Python's `parts[-n:]`: the last n elements, the whole list when n is 0 or exceeds its length. */
  function TailSlice<T>(parts: seq<T>, n: nat): (r: seq<T>)
    ensures |r| == if n == 0 || n >= |parts| then |parts| else n
    ensures r == parts[|parts| - |r|..]
  {
    if n == 0 || n >= |parts| then parts else parts[|parts| - n..]
  }

  /** `s.replace(pat, "")`: removes every non-overlapping occurrence of `pat`, scanning left to right. */
  function RemoveAll(s: string, pat: string): (r: string)
    requires pat != []
    ensures |r| <= |s|
    decreases |s|
  {
    if |s| < |pat| then s
    else if s[..|pat|] == pat then RemoveAll(s[|pat|..], pat)
    else [s[0]] + RemoveAll(s[1..], pat)
  }

  /** `pat` occurs in `s` starting at index k. */
  predicate OccursAt(s: string, pat: string, k: int)
  {
    0 <= k && k + |pat| <= |s| && s[k..k + |pat|] == pat
  }

  /** A string in which `pat` never occurs is left as it is. */
  lemma {:induction false} RemoveAllAbsent(s: string, pat: string)
    requires pat != []
    requires forall k :: !OccursAt(s, pat, k)
    ensures RemoveAll(s, pat) == s
    decreases |s|
  {
    if |s| >= |pat| {
      assert !OccursAt(s, pat, 0);
      forall k
        ensures !OccursAt(s[1..], pat, k)
      {
        if 0 <= k && k + |pat| <= |s| - 1 {
          assert s[1..][k..k + |pat|] == s[k + 1..k + 1 + |pat|];
          assert !OccursAt(s, pat, k + 1);
        }
      }
      RemoveAllAbsent(s[1..], pat);
      assert s == [s[0]] + s[1..];
    }
  }

  /** Removing every ".txt" from `s + ".txt"` is removing every ".txt" from `s`: the appended
      extension is always consumed on its own, because no proper suffix of ".txt" is a prefix of it. */
  lemma {:induction false} RemoveTxtSuffix(s: string)
    ensures RemoveAll(s + ".txt", ".txt") == RemoveAll(s, ".txt")
    decreases |s|
  {
    var t := s + ".txt";
    if |s| == 0 {
      assert t[4..] == [];
    } else if |s| >= 4 && s[..4] == ".txt" {
      assert t[..4] == ".txt";
      assert t[4..] == s[4..] + ".txt";
      RemoveTxtSuffix(s[4..]);
    } else {
      assert t[..4] != ".txt" by {
        if |s| >= 4 {
          assert t[..4] == s[..4];
        } else if |s| == 1 {
          assert t[1] == '.';
        } else if |s| == 2 {
          assert t[2] == '.';
        } else {
          assert t[3] == '.';
        }
      }
      assert t[1..] == s[1..] + ".txt";
      RemoveTxtSuffix(s[1..]);
      if |s| >= 4 {
        assert RemoveAll(s, ".txt") == [s[0]] + RemoveAll(s[1..], ".txt");
      } else {
        RemoveAllAbsent(s, ".txt");
        RemoveAllAbsent(s[1..], ".txt");
        assert s == [s[0]] + s[1..];
      }
    }
  }

  /** The decimal digit for 0 <= d < 10. */
  function Digit(d: nat): char
    requires d < 10
  {
    "0123456789"[d]
  }

  /** `str(n)` for a natural number: its decimal digits without leading zeros. */
  function NatToString(n: nat): (r: string)
    ensures 1 <= |r|
    ensures forall i :: 0 <= i < |r| ==> '0' <= r[i] <= '9'
    ensures |r| > 1 ==> r[0] != '0'
  {
    if n < 10 then [Digit(n)] else NatToString(n / 10) + [Digit(n % 10)]
  }

  /** A string framed by the same prefix and suffix determines what is between them. */
  lemma StripAffixes(x: string, m: string, n: string, y: string)
    requires x + m + y == x + n + y
    ensures m == n
  {
    assert m == (x + m + y)[|x|..|x| + |m|];
    assert n == (x + n + y)[|x|..|x| + |n|];
  }

  /** An element at two different positions occurs at least twice. */
  lemma MultisetCountTwo(xs: seq<string>, i: nat, j: nat)
    requires i < |xs| && j < |xs| && i != j && xs[i] == xs[j]
    ensures multiset(xs)[xs[i]] >= 2
  {
    var lo := if i < j then i else j;
    var hi := if i < j then j else i;
    assert xs == xs[..lo] + [xs[lo]] + xs[lo + 1..hi] + [xs[hi]] + xs[hi + 1..];
  }

  /** The value of a string of decimal digits (`int(s)` on what `str(n)` produces). */
  function DigitsValue(s: string): nat
    requires forall i :: 0 <= i < |s| ==> '0' <= s[i] <= '9'
  {
    if s == [] then 0 else 10 * DigitsValue(s[..|s| - 1]) + (s[|s| - 1] as int - '0' as int)
  }

  /** Reading back the digits of `str(n)` gives n. */
  lemma {:induction false} NatToStringValue(n: nat)
    ensures DigitsValue(NatToString(n)) == n
  {
    DigitValue(n % 10);
    if n >= 10 {
      NatToStringValue(n / 10);
      var s := NatToString(n);
      assert s[..|s| - 1] == NatToString(n / 10);
    }
  }

  /** The digit character of d stands for d. */
  lemma DigitValue(d: nat)
    requires d < 10
    ensures Digit(d) as int - '0' as int == d
  {
    var digits := "0123456789";
    assert forall i :: 0 <= i < 10 ==> digits[i] as int == '0' as int + i;
  }

  /** Distinct numbers are written differently. */
  lemma NatToStringInjective(a: nat, b: nat)
    requires NatToString(a) == NatToString(b)
    ensures a == b
  {
    NatToStringValue(a);
    NatToStringValue(b);
  }

  /** The index of the last occurrence of `c` in `s`, or -1 (Python's `s.rfind(c)`). */
  function LastIndexOf(s: string, c: char): (k: int)
    ensures -1 <= k < |s|
    ensures k >= 0 ==> s[k] == c
    ensures forall j :: k < j < |s| ==> s[j] != c
  {
    if s == [] then -1
    else if s[|s| - 1] == c then |s| - 1
    else LastIndexOf(s[..|s| - 1], c)
  }

  /** `rfind` is characterised by its contract: an index holding `c` with no `c` after it, or -1
      when `c` does not occur. */
  lemma LastIndexOfUnique(s: string, c: char, k: int)
    requires -1 <= k < |s|
    requires k >= 0 ==> s[k] == c
    requires forall j :: k < j < |s| ==> s[j] != c
    ensures LastIndexOf(s, c) == k
  {
  }

  /** `os.path.splitext(p)` for a '/'-separated path: the extension runs from the last '.' of the final
      component, provided some character of that component before it is not a '.' (leading dots do not
      start an extension). */
  function SplitExt(p: string): (r: (string, string))
    ensures r.0 + r.1 == p
    ensures r.1 == [] || (r.1[0] == '.' && '.' !in r.1[1..] && '/' !in r.1)
  {
    var sepIndex := LastIndexOf(p, '/');
    var dotIndex := LastIndexOf(p, '.');
    if dotIndex > sepIndex && exists k :: sepIndex < k < dotIndex && p[k] != '.' then
      assert p[..dotIndex] + p[dotIndex..] == p;
      (p[..dotIndex], p[dotIndex..])
    else
      (p, "")
  }

  /** An extension as os.path.splitext reports it: a '.', then at least one character, none of
      them a '.' or a separator. */
  predicate Extension(ext: string)
  {
    |ext| >= 2 && ext[0] == '.' && '.' !in ext[1..] && '/' !in ext
  }

  /** The final component of `w` has a character other than '.', so that splitext sees an
      extension appended to `w` as one (it ignores leading dots). */
  predicate HasStem(w: string)
  {
    exists k :: 0 <= k < |LastSegment(w)| && LastSegment(w)[k] != '.'
  }

  /** A path whose last component starts with a character other than '.' has a stem. */
  lemma StemAfterSlash(s: string)
    requires LastIndexOf(s, '/') + 1 < |s| && s[LastIndexOf(s, '/') + 1] != '.'
    ensures HasStem(s)
  {
    LastSegmentAfterSlash(s);
    assert LastSegment(s)[0] == s[LastIndexOf(s, '/') + 1];
  }

  /** splitext separates an extension appended to a path with a stem. */
  lemma SplitExtAppend(w: string, ext: string)
    requires Extension(ext) && HasStem(w)
    ensures SplitExt(w + ext) == (w, ext)
  {
    var p := w + ext;
    var sep := LastIndexOf(w, '/');
    ExtensionIndices(w, ext);
    LastSegmentAfterSlash(w);
    var k :| 0 <= k < |LastSegment(w)| && LastSegment(w)[k] != '.';
    assert p[sep + 1 + k] == w[sep + 1 + k] == LastSegment(w)[k];
    assert p[..|w|] == w && p[|w|..] == ext;
  }

  /** In `w + ext` the last '.' is the one that starts `ext`, and the last '/' is that of `w`. */
  lemma ExtensionIndices(w: string, ext: string)
    requires Extension(ext)
    ensures LastIndexOf(w + ext, '.') == |w|
    ensures LastIndexOf(w + ext, '/') == LastIndexOf(w, '/')
  {
    var p := w + ext;
    var sep := LastIndexOf(w, '/');
    forall j | |w| < j < |p|
      ensures p[j] != '.' && p[j] != '/'
    {
      assert p[j] == ext[j - |w|] == ext[1..][j - |w| - 1];
    }
    LastIndexOfUnique(p, '.', |w|);
    forall j | sep < j < |p|
      ensures p[j] != '/'
    {
      if j < |w| {
        assert p[j] == w[j];
      } else if j == |w| {
        assert p[j] == '.';
      }
    }
    LastIndexOfUnique(p, '/', sep);
  }

  /** Python's `a <= b` on strings: lexicographic order by code point. */
  predicate LexLe(a: string, b: string)
    decreases |a|
  {
    |a| == 0 || (|b| > 0 && (a[0] < b[0] || (a[0] == b[0] && LexLe(a[1..], b[1..]))))
  }

  /** Any two strings are ordered one way or the other. */
  lemma {:induction false} LexLeTotal(a: string, b: string)
    ensures LexLe(a, b) || LexLe(b, a)
    decreases |a|
  {
    if |a| > 0 && |b| > 0 && a[0] == b[0] {
      LexLeTotal(a[1..], b[1..]);
    }
  }

  /** The order is transitive. */
  lemma {:induction false} LexLeTransitive(a: string, b: string, c: string)
    requires LexLe(a, b) && LexLe(b, c)
    ensures LexLe(a, c)
    decreases |a|
  {
    if |a| > 0 && a[0] == b[0] && b[0] == c[0] {
      LexLeTransitive(a[1..], b[1..], c[1..]);
    }
  }

  /** `xs` is in non-decreasing order of the lower-cased strings. */
  predicate SortedByLower(xs: seq<string>)
  {
    forall i, j :: 0 <= i < j < |xs| ==> LexLe(Lower(xs[i]), Lower(xs[j]))
  }

  /** Insert `x` into a list sorted by lower-cased value, after the elements not above it. */
  function InsertByLower(x: string, xs: seq<string>): (r: seq<string>)
    requires SortedByLower(xs)
    ensures multiset(r) == multiset(xs) + multiset{x}
    ensures SortedByLower(r)
  {
    if xs == [] then [x]
    else if LexLe(Lower(x), Lower(xs[0])) && Lower(x) != Lower(xs[0]) then
      InsertFront(x, xs);
      [x] + xs
    else
      LexLeTotal(Lower(x), Lower(xs[0]));
      var rest := InsertByLower(x, xs[1..]);
      assert xs == [xs[0]] + xs[1..];
      forall k | 0 <= k < |rest|
        ensures LexLe(Lower(xs[0]), Lower(rest[k]))
      {
        assert rest[k] in multiset(rest);
        if rest[k] != x {
          assert rest[k] in multiset(xs[1..]);
          var m :| 0 <= m < |xs[1..]| && xs[1..][m] == rest[k];
          assert xs[m + 1] == rest[k];
        }
      }
      InsertBehind(xs[0], rest);
      [xs[0]] + rest
  }

  /** An element not above the first of a sorted list may go in front of it. */
  lemma InsertFront(x: string, xs: seq<string>)
    requires xs != [] && SortedByLower(xs) && LexLe(Lower(x), Lower(xs[0]))
    ensures SortedByLower([x] + xs)
  {
    forall j | 0 < j < |xs| + 1
      ensures LexLe(Lower(([x] + xs)[0]), Lower(([x] + xs)[j]))
    {
      if j > 1 {
        LexLeTransitive(Lower(x), Lower(xs[0]), Lower(xs[j - 1]));
      }
    }
  }

  /** An element not above any element of a sorted list may go in front of it. */
  lemma InsertBehind(h: string, rest: seq<string>)
    requires SortedByLower(rest)
    requires forall k :: 0 <= k < |rest| ==> LexLe(Lower(h), Lower(rest[k]))
    ensures SortedByLower([h] + rest)
  {
  }

  /** `sorted(xs, key=str.lower)`: the same elements, in non-decreasing order of the lower-cased
      strings. */
  function SortByLower(xs: seq<string>): (r: seq<string>)
    ensures multiset(r) == multiset(xs)
    ensures SortedByLower(r)
  {
    if xs == [] then []
    else
      assert xs == xs[..|xs| - 1] + [xs[|xs| - 1]];
      InsertByLower(xs[|xs| - 1], SortByLower(xs[..|xs| - 1]))
  }
}

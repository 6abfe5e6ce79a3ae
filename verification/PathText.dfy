/** Joining byte strings with a separator and splitting them again; paths as text. */
module PathText {
  import opened Base

  function Join(sep: byte, parts: seq<Bytes>): Bytes {
    if parts == [] then []
    else if |parts| == 1 then parts[0]
    else parts[0] + [sep] + Join(sep, parts[1..])
  }

  /** `text.split(sep)`. */
  function Split(sep: byte, s: Bytes): (r: seq<Bytes>)
    ensures |r| > 0
  {
    if s == [] then [[]]
    else
      var rest := Split(sep, s[1..]);
      if s[0] == sep then [[]] + rest else [[s[0]] + rest[0]] + rest[1..]
  }

  lemma {:induction false} SplitFirst(sep: byte, p: Bytes, t: Bytes)
    requires sep !in p
    ensures Split(sep, p) == [p]
    ensures Split(sep, p + [sep] + t) == [p] + Split(sep, t)
    decreases |p|
  {
    var s := p + [sep] + t;
    if p == [] {
      assert s[1..] == t;
    } else {
      assert s[1..] == p[1..] + [sep] + t && s[0] == p[0];
      SplitFirst(sep, p[1..], t);
      assert p == [p[0]] + p[1..];
    }
  }

  lemma {:induction false} SplitOfJoin(sep: byte, parts: seq<Bytes>)
    requires |parts| > 0 && forall p :: p in parts ==> sep !in p
    ensures Split(sep, Join(sep, parts)) == parts
    decreases |parts|
  {
    if |parts| == 1 {
      SplitFirst(sep, parts[0], []);
    } else {
      SplitOfJoin(sep, parts[1..]);
      SplitFirst(sep, parts[0], Join(sep, parts[1..]));
    }
  }

  lemma {:induction false} JoinOfSplit(sep: byte, s: Bytes)
    ensures Join(sep, Split(sep, s)) == s
    decreases |s|
  {
    if s != [] {
      JoinOfSplit(sep, s[1..]);
      var rest := Split(sep, s[1..]);
      var parts := Split(sep, s);
      if s[0] == sep {
        assert parts[1..] == rest;
      } else {
        assert parts[1..] == rest[1..] && parts[0] == [s[0]] + rest[0];
      }
      assert s == [s[0]] + s[1..];
    }
  }

  // ---------------------------------------------------------------- paths as text

  const SLASH: byte := 0x2F

  /** The segments joined by `/`. */
  function JoinPath(p: Path): Bytes {
    Join(SLASH, p)
  }

  /** A path as the filesystem gives it: its segments are non-empty and hold no `/`. */
  predicate Plain(p: Path) {
    forall n :: n in p ==> n != [] && SLASH !in n
  }

  /** Different paths have different texts. */
  lemma JoinPathInjective(p: Path, q: Path)
    requires Plain(p) && Plain(q) && JoinPath(p) == JoinPath(q)
    ensures p == q
  {
    if p == [] || q == [] {
      TextOfNonEmpty(p);
      TextOfNonEmpty(q);
    } else {
      SplitOfJoin(SLASH, p);
      SplitOfJoin(SLASH, q);
    }
  }

  lemma TextOfNonEmpty(p: Path)
    requires Plain(p)
    ensures JoinPath(p) == [] <==> p == []
  {
    if p != [] {
      assert p[0] in p;
    }
  }

  lemma {:induction false} JoinOfConcat(p: Path, q: Path)
    requires p != [] && q != []
    ensures JoinPath(p + q) == JoinPath(p) + [SLASH] + JoinPath(q)
    decreases |p|
  {
    if |p| == 1 {
      assert (p + q)[1..] == q;
    } else {
      assert (p + q)[1..] == p[1..] + q;
      JoinOfConcat(p[1..], q);
    }
  }

  lemma {:induction false} PrefixLess(a: Bytes, b: Bytes)
    requires b != []
    ensures LexLess(a, a + b)
  {
    if a != [] {
      assert (a + b)[1..] == a[1..] + b;
      PrefixLess(a[1..], b);
    }
  }

  /** In text order a path comes before everything below it. */
  lemma AncestorSortsFirst(p: Path, q: Path)
    requires p != [] && p <= q && p != q
    ensures LexLess(JoinPath(p), JoinPath(q))
  {
    var rest := q[|p|..];
    assert q == p + rest;
    JoinOfConcat(p, rest);
    assert JoinPath(q) == JoinPath(p) + ([SLASH] + JoinPath(rest));
    PrefixLess(JoinPath(p), [SLASH] + JoinPath(rest));
  }

  lemma {:induction false} SplitConcat(sep: byte, a: Bytes, b: Bytes)
    ensures Split(sep, a + [sep] + b) == Split(sep, a) + Split(sep, b)
    decreases |a|
  {
    var s := a + [sep] + b;
    if a == [] {
      assert s[1..] == b;
    } else {
      assert s[1..] == a[1..] + [sep] + b && s[0] == a[0];
      SplitConcat(sep, a[1..], b);
    }
  }

  /** For path texts, starting with another path's text and a slash means lying below it. */
  lemma TextPrefixIsAncestor(p: Path, q: Path)
    requires Plain(p) && Plain(q) && p != [] && q != []
    ensures JoinPath(p) + [SLASH] <= JoinPath(q) <==> p <= q && p != q
  {
    if p <= q && p != q {
      var rest := q[|p|..];
      assert q == p + rest;
      JoinOfConcat(p, rest);
    }
    if JoinPath(p) + [SLASH] <= JoinPath(q) {
      var rest := JoinPath(q)[|JoinPath(p)| + 1..];
      assert JoinPath(q) == JoinPath(p) + [SLASH] + rest;
      SplitConcat(SLASH, JoinPath(p), rest);
      SplitOfJoin(SLASH, p);
      SplitOfJoin(SLASH, q);
    }
  }

  /** Strictly increasing in text order: what sorting a set of paths as strings gives. */
  ghost predicate TextSorted(paths: seq<Path>) {
    forall i, j | 0 <= i < j < |paths| :: LexLess(JoinPath(paths[i]), JoinPath(paths[j]))
  }

  /** Nothing later in text order is an ancestor of something earlier. */
  lemma LaterIsNotAbove(paths: seq<Path>, i: nat, j: nat)
    requires TextSorted(paths) && i < j < |paths| && paths[j] != []
    ensures !(paths[j] <= paths[i])
  {
    if paths[j] <= paths[i] {
      assert LexLess(JoinPath(paths[i]), JoinPath(paths[j]));
      LexTotal(JoinPath(paths[i]), JoinPath(paths[j]));
      if paths[i] != paths[j] {
        AncestorSortsFirst(paths[j], paths[i]);
      }
      assert false;
    }
  }

  lemma SortedFront(paths: seq<Path>, p: Path)
    requires TextSorted(paths + [p])
    ensures TextSorted(paths) && p !in Elements(paths) && Elements(paths + [p]) == Elements(paths) + {p}
  {
    forall i, j | 0 <= i < j < |paths| ensures LexLess(JoinPath(paths[i]), JoinPath(paths[j])) {
      assert (paths + [p])[i] == paths[i] && (paths + [p])[j] == paths[j];
    }
    forall i | 0 <= i < |paths| ensures paths[i] != p {
      assert (paths + [p])[i] == paths[i] && (paths + [p])[|paths|] == p;
      LexTotal(JoinPath(p), JoinPath(p));
    }
  }

  lemma {:induction false} SortedSize(paths: seq<Path>)
    requires TextSorted(paths)
    ensures |Elements(paths)| == |paths|
    decreases |paths|
  {
    if paths == [] {
      assert Elements(paths) == {};
    } else {
      var front, last := paths[..|paths| - 1], paths[|paths| - 1];
      assert paths == front + [last];
      SortedFront(front, last);
      SortedSize(front);
    }
  }

  /** `sorted` of a set of paths. */
  method SortPaths(paths: set<Path>) returns (sorted: seq<Path>)
    requires forall p :: p in paths ==> Plain(p)
    ensures TextSorted(sorted) && Elements(sorted) == paths
  {
    var texts := SortNames(set p | p in paths :: JoinPath(p));
    sorted := [];
    for i := 0 to |texts|
      invariant |sorted| == i
      invariant forall k | 0 <= k < i :: sorted[k] in paths && JoinPath(sorted[k]) == texts[k]
    {
      assert texts[i] in texts;
      var p :| p in paths && JoinPath(p) == texts[i];
      sorted := sorted + [p];
    }
    TextsListPaths(paths, texts, sorted);
  }

  lemma TextsListPaths(paths: set<Path>, texts: seq<Bytes>, sorted: seq<Path>)
    requires forall p :: p in paths ==> Plain(p)
    requires texts == SortNames(set p | p in paths :: JoinPath(p)) && |sorted| == |texts|
    requires forall k | 0 <= k < |sorted| :: sorted[k] in paths && JoinPath(sorted[k]) == texts[k]
    ensures TextSorted(sorted) && Elements(sorted) == paths
  {
    forall p | p in paths ensures p in sorted {
      assert JoinPath(p) in texts;
      var k :| 0 <= k < |texts| && texts[k] == JoinPath(p);
      JoinPathInjective(sorted[k], p);
    }
  }
}

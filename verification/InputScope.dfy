/**
 What a request selects: the collapsed exclusions, the selected roots, and the tree that is
 left when excluded subtrees are deleted.
 */
module InputScopes {
  import opened Base
  import opened ManifestTrie
  import opened ManifestShapes
  import opened PathText

  /** `excludes`: a path is excluded with everything below an excluded path. */
  predicate Excludes(excluded: set<Path>, rel: Path) {
    exists e :: e in excluded && e <= rel
  }

  /** `text.startswith(parent + "/")`. */
  predicate TextBelow(parent: Path, p: Path) {
    JoinPath(parent) + [SLASH] <= JoinPath(p)
  }

  /** On texts: equal to an excluded path, or starting with it and a slash. */
  lemma ExcludesOnTexts(excluded: set<Path>, rel: Path)
    requires rel != [] && Plain(rel) && forall e :: e in excluded ==> e != [] && Plain(e)
    ensures Excludes(excluded, rel) <==>
            exists e :: e in excluded && (JoinPath(e) == JoinPath(rel) || TextBelow(e, rel))
  {
    forall e | e in excluded ensures e <= rel <==> JoinPath(e) == JoinPath(rel) || TextBelow(e, rel) {
      TextPrefixIsAncestor(e, rel);
      if JoinPath(e) == JoinPath(rel) {
        JoinPathInjective(e, rel);
      }
    }
  }

  /** Among plain paths the text test finds exactly what lies strictly below. */
  lemma BelowOnTexts(parents: seq<Path>, p: Path)
    requires p != [] && Plain(p) && forall q :: q in parents ==> q != [] && Plain(q)
    ensures (exists q :: q in parents && TextBelow(q, p)) <==> exists q :: q in parents && q <= p && q != p
  {
    forall q | q in parents ensures TextBelow(q, p) <==> q <= p && q != p {
      TextPrefixIsAncestor(q, p);
    }
  }

  lemma ExcludesBelow(excluded: set<Path>, rel: Path, q: Path)
    requires Excludes(excluded, rel) && rel <= q
    ensures Excludes(excluded, q)
  {
    var e :| e in excluded && e <= rel;
    assert e <= q;
  }

  // ---------------------------------------------------------------- collapsing

  /** Collapsing exclusions to the topmost ones never changes what is excluded. */
  lemma CollapseKeepsExclusion(excluded: set<Path>, rel: Path)
    ensures Excludes(Topmost(excluded), rel) <==> Excludes(excluded, rel)
  {
    if e :| e in excluded && e <= rel {
      TopmostAbove(excluded, e);
      var m :| m in Topmost(excluded) && m <= e;
      assert m <= rel;
    }
  }

  lemma StaysSorted(paths: seq<Path>, i: nat, selected: seq<Path>)
    requires TextSorted(paths) && i < |paths| && TextSorted(selected)
    requires forall p :: p in selected ==> p in paths[..i]
    ensures TextSorted(selected + [paths[i]])
  {
    forall k | 0 <= k < |selected| ensures LexLess(JoinPath(selected[k]), JoinPath(paths[i])) {
      assert selected[k] in paths[..i];
    }
  }

  lemma NoneAbove(paths: seq<Path>, i: nat)
    requires TextSorted(paths) && i < |paths| && forall p :: p in paths ==> p != []
    ensures paths[i] !in Elements(paths[..i]) && forall q :: q in Elements(paths[..i]) ==> !(paths[i] <= q)
    ensures Elements(paths[..i + 1]) == Elements(paths[..i]) + {paths[i]}
  {
    assert paths[..i + 1] == paths[..i] + [paths[i]];
    forall q | q in Elements(paths[..i]) ensures !(paths[i] <= q) {
      var j :| 0 <= j < i && paths[j] == q;
      LaterIsNotAbove(paths, j, i);
    }
  }

  lemma TopmostGrows(paths: seq<Path>, i: nat)
    requires TextSorted(paths) && i < |paths| && forall p :: p in paths ==> p != []
    ensures var below := exists q :: q in Topmost(Elements(paths[..i])) && q <= paths[i] && q != paths[i];
            Topmost(Elements(paths[..i + 1])) == Topmost(Elements(paths[..i])) + if below then {} else {paths[i]}
  {
    var s, p := Elements(paths[..i]), paths[i];
    NoneAbove(paths, i);
    InsertionKeepsTopmost(s, p);
    assert (set q | q in Topmost(s) && !(p <= q)) == Topmost(s);
  }

  /**
   `_collapse_exclusions`, given the sorted paths: it keeps exactly the topmost ones, which are
   the terminals a manifest trie over the same paths would have.
   */
  method CollapseExclusions(sorted: seq<Path>) returns (selected: seq<Path>)
    requires TextSorted(sorted) && forall p :: p in sorted ==> p != [] && Plain(p)
    ensures Elements(selected) == Topmost(Elements(sorted)) == Terminals(ManifestShape(sorted))
    ensures TextSorted(selected)
    ensures forall rel :: Excludes(Elements(selected), rel) <==> Excludes(Elements(sorted), rel)
  {
    selected := [];
    for i := 0 to |sorted|
      invariant Elements(selected) == Topmost(Elements(sorted[..i]))
      invariant TextSorted(selected)
      invariant forall p :: p in selected ==> p in sorted[..i]
    {
      TopmostGrows(sorted, i);
      ElementsMore(selected, sorted[i]);
      assert sorted[..i + 1] == sorted[..i] + [sorted[i]];
      assert sorted[i] in sorted && forall p :: p in sorted[..i] ==> p in sorted;
      BelowOnTexts(selected, sorted[i]);
      if !(exists q :: q in selected && TextBelow(q, sorted[i])) {
        StaysSorted(sorted, i, selected);
        selected := selected + [sorted[i]];
      }
    }
    assert sorted[..|sorted|] == sorted;
    ManifestTerminals(sorted);
    forall rel ensures Excludes(Elements(selected), rel) <==> Excludes(Elements(sorted), rel) {
      CollapseKeepsExclusion(Elements(sorted), rel);
    }
  }

  /** The selected paths not below another selected path that is a directory. */
  function Uncovered(isDir: Path -> bool, s: set<Path>): set<Path> {
    set p | p in s && !CoveredBy(isDir, s, p)
  }

  predicate CoveredBy(isDir: Path -> bool, s: set<Path>, p: Path) {
    exists q :: q in s && q <= p && q != p && isDir(q)
  }

  function DirsAmong(isDir: Path -> bool, s: set<Path>): set<Path> {
    set p | p in s && isDir(p)
  }

  lemma DirsAmongMore(isDir: Path -> bool, s: set<Path>, p: Path)
    ensures DirsAmong(isDir, s + {p}) == DirsAmong(isDir, s) + if isDir(p) then {p} else {}
  {
  }

  lemma {:induction false} UncoveredAbove(isDir: Path -> bool, s: set<Path>, p: Path)
    requires p in s && isDir(p)
    ensures exists q :: q in Uncovered(isDir, s) && q <= p && isDir(q)
    decreases |p|
  {
    if p !in Uncovered(isDir, s) {
      var q :| q in s && q <= p && q != p && isDir(q);
      UncoveredAbove(isDir, s, q);
      var m :| m in Uncovered(isDir, s) && m <= q && isDir(m);
      assert m <= p;
    } else {
      assert p <= p;
    }
  }

  lemma CoverMore(isDir: Path -> bool, s: set<Path>, p: Path, q: Path)
    requires q == p || !(p <= q)
    ensures CoveredBy(isDir, s + {p}, q) <==> CoveredBy(isDir, s, q)
  {
  }

  /** A directory above a path is matched by a selected one above it. */
  lemma CoverIsSelected(isDir: Path -> bool, s: set<Path>, p: Path)
    requires p !in s
    ensures CoveredBy(isDir, s, p) <==> exists q :: q in DirsAmong(isDir, Uncovered(isDir, s)) && q <= p && q != p
  {
    if q :| q in s && q <= p && q != p && isDir(q) {
      UncoveredAbove(isDir, s, q);
      var m :| m in Uncovered(isDir, s) && m <= q && isDir(m);
      assert m in DirsAmong(isDir, Uncovered(isDir, s)) && m <= p && m != p;
    }
  }

  /** Adding a path that is above none of the others. */
  lemma UncoveredMore(isDir: Path -> bool, s: set<Path>, p: Path)
    requires p !in s && forall q :: q in s ==> !(p <= q)
    ensures Uncovered(isDir, s + {p}) == Uncovered(isDir, s) + if CoveredBy(isDir, s, p) then {} else {p}
  {
    forall q | q in s + {p} ensures CoveredBy(isDir, s + {p}, q) <==> CoveredBy(isDir, s, q) {
      CoverMore(isDir, s, p, q);
    }
  }

  /** What the loop has after the first `i` matches. */
  ghost predicate KeptUpTo(isDir: Path -> bool, rels: seq<Path>, i: nat, selected: seq<Path>, dirs: seq<Path>) {
    && i <= |rels| && TextSorted(selected)
    && Elements(selected) == Uncovered(isDir, Elements(rels[..i]))
    && Elements(dirs) == DirsAmong(isDir, Elements(selected))
  }

  /** One more match: kept unless it lies below a kept directory. */
  lemma KeptNext(isDir: Path -> bool, rels: seq<Path>, i: nat, selected: seq<Path>, dirs: seq<Path>)
    requires TextSorted(rels) && (forall p :: p in rels ==> p != []) && i < |rels|
            && KeptUpTo(isDir, rels, i, selected, dirs)
    ensures
      var below := exists q :: q in dirs && q <= rels[i] && q != rels[i];
      KeptUpTo(isDir, rels, i + 1, if below then selected else selected + [rels[i]],
               if below || !isDir(rels[i]) then dirs else dirs + [rels[i]])
  {
    NoneAbove(rels, i);
    UncoveredMore(isDir, Elements(rels[..i]), rels[i]);
    CoverIsSelected(isDir, Elements(rels[..i]), rels[i]);
    ElementsMore(selected, rels[i]);
    ElementsMore(dirs, rels[i]);
    DirsAmongMore(isDir, Elements(selected), rels[i]);
    forall p | p in selected ensures p in rels[..i] {
      assert p in Elements(selected);
    }
    StaysSorted(rels, i, selected);
  }

  lemma KeptArePlain(isDir: Path -> bool, rels: seq<Path>, i: nat, selected: seq<Path>, dirs: seq<Path>)
    requires i < |rels| && KeptUpTo(isDir, rels, i, selected, dirs) && forall p :: p in rels ==> p != [] && Plain(p)
    ensures rels[i] != [] && Plain(rels[i]) && forall d :: d in dirs ==> d != [] && Plain(d)
  {
    assert rels[i] in rels;
    forall d | d in dirs ensures d in rels {
      assert d in Elements(dirs) && d in Elements(rels[..i]);
    }
  }

  /** `_remove_descendants_of_selected_dirs`, given the sorted matches. */
  method RemoveDescendantsOfSelectedDirs(isDir: Path -> bool, rels: seq<Path>) returns (selected: seq<Path>)
    requires TextSorted(rels) && forall p :: p in rels ==> p != [] && Plain(p)
    ensures Elements(selected) == Uncovered(isDir, Elements(rels)) && TextSorted(selected)
  {
    selected := [];
    var dirs: seq<Path> := [];
    for i := 0 to |rels|
      invariant KeptUpTo(isDir, rels, i, selected, dirs)
    {
      KeptArePlain(isDir, rels, i, selected, dirs);
      BelowOnTexts(dirs, rels[i]);
      KeptNext(isDir, rels, i, selected, dirs);
      if !(exists d :: d in dirs && TextBelow(d, rels[i])) {
        selected := selected + [rels[i]];
        if isDir(rels[i]) {
          dirs := dirs + [rels[i]];
        }
      }
    }
    assert rels[..|rels|] == rels;
  }

  // ---------------------------------------------------------------- deleting excluded subtrees

  /** The tree with every excluded subtree deleted. */
  function Pruned(t: Tree, excluded: set<Path>, rel: Path): Tree {
    if t.Dir? then
      Dir(map n | n in t.children && !Excludes(excluded, rel + [n]) :: Pruned(t.children[n], excluded, rel + [n]))
    else t
  }

  lemma {:induction false} PrunedNothing(t: Tree, rel: Path)
    ensures Pruned(t, {}, rel) == t
    decreases t
  {
    if t.Dir? {
      forall n | n in t.children ensures Pruned(t.children[n], {}, rel + [n]) == t.children[n] {
        PrunedNothing(t.children[n], rel + [n]);
      }
      assert Pruned(t, {}, rel).children == t.children;
    }
  }

  /** Deleting removes exactly the excluded paths, and nothing else about the others. */
  lemma {:induction false} PrunedLookup(t: Tree, excluded: set<Path>, pos: Path, rel: Path)
    requires !Excludes(excluded, pos)
    ensures Lookup(Pruned(t, excluded, pos), rel) ==
      if Excludes(excluded, pos + rel) || Lookup(t, rel).None? then None else Some(Pruned(Lookup(t, rel).value,
          excluded, pos + rel))
    decreases |rel|
  {
    if rel == [] {
      assert pos + rel == pos;
    } else {
      var n := rel[0];
      assert pos + rel == (pos + [n]) + rel[1..];
      if Excludes(excluded, pos + [n]) {
        ExcludesBelow(excluded, pos + [n], pos + rel);
      } else if t.Dir? && n in t.children {
        PrunedLookup(t.children[n], excluded, pos + [n], rel[1..]);
      }
    }
  }
}

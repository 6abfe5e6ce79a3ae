/**
 What a manifest's trie looks like: its terminals are the topmost selected paths, its
 shape does not depend on insertion order, and its root digest determines both the
 selection and the content selected.
 */
module ManifestShapes {
  import opened Base
  import opened Encoding
  import opened MerkleSpec
  import opened ManifestTrie

  /** The selected paths with no selected proper ancestor. */
  function Topmost(s: set<Path>): set<Path> {
    set p | p in s && forall q :: q in s && q <= p ==> q == p
  }

  lemma {:induction false} TopmostAbove(s: set<Path>, p: Path)
    requires p in s
    ensures exists q :: q in Topmost(s) && q <= p
    decreases |p|
  {
    if p !in Topmost(s) {
      var q :| q in s && q <= p && q != p;
      TopmostAbove(s, q);
      var m :| m in Topmost(s) && m <= q;
      assert m <= p;
    }
  }

  // ---------------------------------------------------------------- insertion

  /** The effect of one insertion on the set of terminals. */
  function WithPath(tops: set<Path>, rel: Path): set<Path> {
    if exists q :: q in tops && q <= rel then tops
    else (set q | q in tops && !(rel <= q)) + {rel}
  }

  lemma {:induction false} InsertedTerminals(t: Trie, pos: Path, rel: Path, parts: Path)
    requires Placed(t, pos) && rel == pos + parts
    ensures Terminals(ShapeOf(InsertAt(t, rel, parts))) == WithPath(Terminals(ShapeOf(t)), rel)
    decreases |parts|
  {
    if parts == [] || t.terminal.Some? {
      InsertedHere(t, pos, rel, parts);
    } else {
      var child := if parts[0] in t.children then t.children[parts[0]] else NewTrie(parts[0]);
      assert rel == (pos + [parts[0]]) + parts[1..];
      InsertedTerminals(child, pos + [parts[0]], rel, parts[1..]);
      GrownChild(t, pos, parts[0], child, InsertAt(child, rel, parts[1..]), rel);
    }
  }

  lemma InsertedHere(t: Trie, pos: Path, rel: Path, parts: Path)
    requires Placed(t, pos) && rel == pos + parts
    requires parts == [] || t.terminal.Some?
    ensures Terminals(ShapeOf(InsertAt(t, rel, parts))) == WithPath(Terminals(ShapeOf(t)), rel)
  {
    var tops := Terminals(ShapeOf(t));
    if t.terminal.Some? {
      assert tops == {pos} && pos <= rel;
      assert parts == [] ==> rel == pos;
    } else {
      assert rel == pos;
      forall q | q in tops ensures rel <= q && !(q <= rel) {
        ChildTerminals(t);
        var n :| n in t.children && q in Terminals(ShapeOf(t.children[n]));
        TerminalsBelow(t.children[n], pos + [n], q);
      }
      assert WithPath(tops, rel) == {rel};
    }
  }

  lemma GrownChild(t: Trie, pos: Path, n: Name, child: Trie, grown: Trie, rel: Path)
    requires Placed(t, pos) && t.terminal.None? && pos + [n] <= rel
    requires child == if n in t.children then t.children[n] else NewTrie(n)
    requires Terminals(ShapeOf(grown)) == WithPath(Terminals(ShapeOf(child)), rel)
    ensures Terminals(ShapeOf(t.(children := t.children[n := grown]))) == WithPath(Terminals(ShapeOf(t)), rel)
  {
    var others, below := OtherTerminals(t, n), Terminals(ShapeOf(child));
    SplitTerminals(t, n);
    assert Terminals(ShapeOf(t)) == others + below by {
      if n !in t.children { assert below == {}; }
    }
    SplitTerminals(t.(children := t.children[n := grown]), n);
    OthersUnchanged(t, n, grown);
    OthersAreForked(t, pos, n, rel);
    WithPathBeside(others, below, rel);
  }

  /** The terminals below every child but one. */
  function OtherTerminals(t: Trie, n: Name): set<Path> {
    set m, q | m in t.children && m != n && q in Terminals(ShapeOf(t.children[m])) :: q
  }

  lemma OthersUnchanged(t: Trie, n: Name, c: Trie)
    ensures OtherTerminals(t.(children := t.children[n := c]), n) == OtherTerminals(t, n)
  {
    var u := t.(children := t.children[n := c]);
    assert forall m | m != n && m in t.children :: m in u.children && u.children[m] == t.children[m];
    assert forall m | m != n && m in u.children :: m in t.children;
  }

  lemma SplitTerminals(t: Trie, n: Name)
    requires t.terminal.None?
    ensures Terminals(ShapeOf(t)) ==
              OtherTerminals(t, n) + if n in t.children then Terminals(ShapeOf(t.children[n])) else {}
  {
    assert forall m | m in t.children :: ShapeOf(t).children[m] == ShapeOf(t.children[m]);
  }

  lemma OthersAreForked(t: Trie, pos: Path, n: Name, rel: Path)
    requires Placed(t, pos) && t.terminal.None? && pos + [n] <= rel
    ensures forall q :: q in OtherTerminals(t, n) ==> !(q <= rel) && !(rel <= q)
  {
    forall q | q in OtherTerminals(t, n) ensures !(q <= rel) && !(rel <= q) {
      var m :| m in t.children && m != n && q in Terminals(ShapeOf(t.children[m]));
      TerminalsBelow(t.children[m], pos + [m], q);
      ForkedPaths(pos, m, q, n, rel);
      ForkedPaths(pos, n, rel, m, q);
    }
  }

  lemma WithPathBeside(others: set<Path>, below: set<Path>, rel: Path)
    requires forall q :: q in others ==> !(q <= rel) && !(rel <= q)
    ensures WithPath(others + below, rel) == others + WithPath(below, rel)
  {
    var all := others + below;
    forall q | q in below && q <= rel ensures q in all {}
    if q :| q in all && q <= rel {
      assert q in below;
      assert WithPath(all, rel) == all && WithPath(below, rel) == below;
    } else {
      assert !(exists q :: q in below && q <= rel);
      assert (set q | q in all && !(rel <= q)) == others + set q | q in below && !(rel <= q);
    }
  }

  lemma ChildTerminals(t: Trie)
    requires t.terminal.None?
    ensures forall q :: q in Terminals(ShapeOf(t)) <==>
            exists m :: m in t.children && q in Terminals(ShapeOf(t.children[m]))
  {
    assert forall m | m in t.children :: ShapeOf(t).children[m] == ShapeOf(t.children[m]);
  }

  lemma InsertionKeepsTopmost(s: set<Path>, rel: Path)
    ensures WithPath(Topmost(s), rel) == Topmost(s + {rel})
  {
    var tops, more := Topmost(s), Topmost(s + {rel});
    if q :| q in s && q <= rel {
      TopmostAbove(s, q);
    }
    forall p ensures p in WithPath(tops, rel) <==> p in more {
      if p in tops && rel <= p && p != rel && !(exists q :: q in tops && q <= rel) {
        assert p !in more;
      }
    }
  }

  /** Whatever the insertion order, the terminals are exactly the topmost selected paths. */
  lemma {:induction false} TerminalsAreTopmost(t: Trie, s: set<Path>, paths: seq<Path>)
    requires Placed(t, []) && Terminals(ShapeOf(t)) == Topmost(s)
    ensures Terminals(ShapeOf(InsertAll(t, paths))) == Topmost(s + Elements(paths))
    decreases |paths|
  {
    if paths == [] {
      assert s + Elements(paths) == s;
    } else {
      InsertedTerminals(t, [], paths[0], paths[0]);
      InsertKeepsTrie(t, [], paths[0], paths[0]);
      InsertionKeepsTopmost(s, paths[0]);
      TerminalsAreTopmost(InsertAt(t, paths[0], paths[0]), s + {paths[0]}, paths[1..]);
      assert s + {paths[0]} + Elements(paths[1..]) == s + Elements(paths);
    }
  }

  lemma ManifestTerminals(paths: seq<Path>)
    ensures Terminals(ManifestShape(paths)) == Topmost(Elements(paths))
  {
    assert Topmost({}) == {};
    TerminalsAreTopmost(NewTrie([]), {}, paths);
    assert {} + Elements(paths) == Elements(paths);
  }

  // ---------------------------------------------------------------- canonical shape

  /** Leaves sit at their own path, and every inner level below the root leads to one. */
  ghost predicate Grown(s: Shape, pos: Path)
    decreases s
  {
    match s
    case Leaf(rel) => rel == pos
    case Branch(children) => forall n | n in children :: Grown(children[n], pos + [n]) && Terminals(children[n]) != {}
  }

  lemma InsertedIsNotEmpty(t: Trie, pos: Path, rel: Path, parts: Path)
    requires Placed(t, pos) && rel == pos + parts
    ensures Terminals(ShapeOf(InsertAt(t, rel, parts))) != {}
  {
    InsertedTerminals(t, pos, rel, parts);
    var tops := Terminals(ShapeOf(t));
    if !(exists q :: q in tops && q <= rel) {
      assert rel in WithPath(tops, rel);
    }
  }

  lemma {:induction false} InsertKeepsGrown(t: Trie, pos: Path, rel: Path, parts: Path)
    requires Placed(t, pos) && rel == pos + parts && Grown(ShapeOf(t), pos)
    ensures Grown(ShapeOf(InsertAt(t, rel, parts)), pos)
    ensures Terminals(ShapeOf(InsertAt(t, rel, parts))) != {}
    decreases |parts|
  {
    InsertedIsNotEmpty(t, pos, rel, parts);
    if parts != [] && t.terminal.None? {
      var n := parts[0];
      var child := if n in t.children then t.children[n] else NewTrie(n);
      assert rel == (pos + [n]) + parts[1..];
      assert n in t.children ==> ShapeOf(t).children[n] == ShapeOf(child);
      InsertKeepsGrown(child, pos + [n], rel, parts[1..]);
      var u := InsertAt(t, rel, parts);
      forall m | m in u.children
        ensures Grown(ShapeOf(u).children[m], pos + [m]) && Terminals(ShapeOf(u).children[m]) != {}
      {
        if m != n { assert ShapeOf(u).children[m] == ShapeOf(t).children[m]; }
      }
    }
  }

  /** No selected path lies at, above or below this one. */
  ghost predicate Apart(rels: set<Path>, p: Path) {
    forall rel :: rel in rels ==> !(rel <= p) && !(p <= rel)
  }

  /** Invalidation misses exactly the paths that have nothing to do with a selected one. */
  lemma {:induction false} MissIsExact(t: Trie, pos: Path, parts: Path)
    requires Placed(t, pos) && Grown(ShapeOf(t), pos)
    ensures InvalidateAt(t, parts).None? <==> Apart(Terminals(ShapeOf(t)), pos + parts)
    decreases |parts|
  {
    if parts == [] {
      MissHere(t, pos);
    } else if t.terminal.Some? {
      HitAtTerminal(t, pos, parts);
    } else {
      if parts[0] in t.children {
        GrownChildOf(t, pos, parts[0]);
        MissIsExact(t.children[parts[0]], pos + [parts[0]], parts[1..]);
      }
      MissThroughChild(t, pos, parts);
    }
  }

  lemma HitAtTerminal(t: Trie, pos: Path, parts: Path)
    requires Placed(t, pos) && t.terminal.Some? && parts != []
    ensures InvalidateAt(t, parts).Some? && !Apart(Terminals(ShapeOf(t)), pos + parts)
  {
    assert pos in Terminals(ShapeOf(t)) && pos <= pos + parts;
  }

  lemma MissThroughChild(t: Trie, pos: Path, parts: Path)
    requires Placed(t, pos) && t.terminal.None? && parts != []
    requires parts[0] in t.children ==>
               var child := t.children[parts[0]];
               InvalidateAt(child, parts[1..]).None? <==>
                 Apart(Terminals(ShapeOf(child)), (pos + [parts[0]]) + parts[1..])
    ensures InvalidateAt(t, parts).None? <==> Apart(Terminals(ShapeOf(t)), pos + parts)
  {
    assert pos + parts == (pos + [parts[0]]) + parts[1..];
    MissAmongChildren(t, pos, parts);
    MissStep(t, parts);
  }

  lemma MissStep(t: Trie, parts: Path)
    requires parts != [] && t.terminal.None?
    ensures InvalidateAt(t, parts).None? <==>
            (parts[0] in t.children ==> InvalidateAt(t.children[parts[0]], parts[1..]).None?)
  {
  }

  lemma GrownChildOf(t: Trie, pos: Path, n: Name)
    requires Placed(t, pos) && Grown(ShapeOf(t), pos) && t.terminal.None? && n in t.children
    ensures Placed(t.children[n], pos + [n]) && Grown(ShapeOf(t.children[n]), pos + [n])
  {
    assert ShapeOf(t).children[n] == ShapeOf(t.children[n]);
  }

  lemma MissHere(t: Trie, pos: Path)
    requires Placed(t, pos) && Grown(ShapeOf(t), pos)
    ensures InvalidateAt(t, []).None? <==> Apart(Terminals(ShapeOf(t)), pos + [])
  {
    assert pos + [] == pos;
    HasTerminal(t, pos);
    TerminalsAreBelow(t, pos);
  }

  lemma TerminalsAreBelow(t: Trie, pos: Path)
    requires Placed(t, pos)
    ensures forall rel :: rel in Terminals(ShapeOf(t)) ==> pos <= rel
  {
    forall rel | rel in Terminals(ShapeOf(t)) ensures pos <= rel {
      TerminalsBelow(t, pos, rel);
    }
  }

  lemma HasTerminal(t: Trie, pos: Path)
    requires Placed(t, pos) && Grown(ShapeOf(t), pos)
    ensures t.terminal.None? && t.children == map[] <==> Terminals(ShapeOf(t)) == {}
  {
    if t.terminal.None? {
      forall n | n in t.children ensures exists rel :: rel in Terminals(ShapeOf(t)) {
        assert ShapeOf(t).children[n] == ShapeOf(t.children[n]);
        var rel :| rel in Terminals(ShapeOf(t.children[n]));
        assert rel in Terminals(ShapeOf(t));
      }
    }
  }

  lemma TerminalOfChild(t: Trie, rel: Path) returns (n: Name)
    requires t.terminal.None? && rel in Terminals(ShapeOf(t))
    ensures n in t.children && rel in Terminals(ShapeOf(t.children[n]))
  {
    n :| n in ShapeOf(t).children && rel in Terminals(ShapeOf(t).children[n]);
  }

  lemma ChildTerminal(t: Trie, n: Name)
    requires t.terminal.None? && n in t.children
    ensures Terminals(ShapeOf(t.children[n])) <= Terminals(ShapeOf(t))
  {
    assert ShapeOf(t).children[n] == ShapeOf(t.children[n]);
  }

  /** Only the child on the way can hold a selected path that has to do with this one. */
  lemma MissAmongChildren(t: Trie, pos: Path, parts: Path)
    requires Placed(t, pos) && t.terminal.None? && parts != []
    ensures Apart(Terminals(ShapeOf(t)), pos + parts) <==>
            (parts[0] in t.children ==> Apart(Terminals(ShapeOf(t.children[parts[0]])), pos + parts))
  {
    var p := pos + parts;
    if parts[0] in t.children {
      ChildTerminal(t, parts[0]);
    }
    forall rel | rel in Terminals(ShapeOf(t)) && (rel <= p || p <= rel)
      ensures parts[0] in t.children && rel in Terminals(ShapeOf(t.children[parts[0]]))
    {
      var n := TerminalOfChild(t, rel);
      TerminalsBelow(t.children[n], pos + [n], rel);
      assert rel[|pos|] == n && p[|pos|] == parts[0];
    }
  }

  lemma {:induction false} InsertAllGrown(t: Trie, paths: seq<Path>)
    requires Placed(t, []) && Grown(ShapeOf(t), [])
    ensures Grown(ShapeOf(InsertAll(t, paths)), []) && Placed(InsertAll(t, paths), [])
    decreases |paths|
  {
    if paths != [] {
      InsertKeepsTrie(t, [], paths[0], paths[0]);
      InsertKeepsGrown(t, [], paths[0], paths[0]);
      InsertAllGrown(InsertAt(t, paths[0], paths[0]), paths[1..]);
    }
  }

  lemma {:induction false} GrownTerminalsBelow(s: Shape, pos: Path, rel: Path)
    requires Grown(s, pos) && rel in Terminals(s)
    ensures pos <= rel && (s.Branch? ==> rel != pos)
    decreases s
  {
    if s.Branch? {
      var n :| n in s.children && rel in Terminals(s.children[n]);
      GrownTerminalsBelow(s.children[n], pos + [n], rel);
      assert pos <= pos + [n];
    }
  }

  /** The terminals determine the shape. */
  lemma {:induction false} ShapeIsCanonical(s: Shape, u: Shape, pos: Path)
    requires Grown(s, pos) && Grown(u, pos) && Terminals(s) == Terminals(u)
    ensures s == u
    decreases s
  {
    if s.Leaf? || u.Leaf? {
      assert pos in Terminals(s);
      GrownTerminalsBelow(s, pos, pos);
      GrownTerminalsBelow(u, pos, pos);
    } else {
      forall n
        ensures n in s.children <==> n in u.children
        ensures n in s.children && n in u.children ==> s.children[n] == u.children[n]
      {
        BranchTerminals(s, pos, n);
        BranchTerminals(u, pos, n);
        if n in s.children && n in u.children {
          ShapeIsCanonical(s.children[n], u.children[n], pos + [n]);
        }
      }
      assert s.children == u.children;
    }
  }

  lemma BranchTerminals(s: Shape, pos: Path, n: Name)
    requires s.Branch? && Grown(s, pos)
    ensures n in s.children ==> Terminals(s.children[n]) == set p | p in Terminals(s) && pos + [n] <= p
    ensures n in s.children <==> exists p :: p in Terminals(s) && pos + [n] <= p
  {
    forall m, p | m in s.children && p in Terminals(s.children[m])
      ensures pos + [n] <= p <==> m == n
    {
      GrownTerminalsBelow(s.children[m], pos + [m], p);
      if m != n && pos + [n] <= p {
        ForkedPaths(pos, m, p, n, p);
      }
    }
    if n in s.children {
      var p :| p in Terminals(s.children[n]);
      assert p in Terminals(s) && pos + [n] <= p;
    }
  }

  /** Manifests selecting the same topmost paths, in any order, have one and the same shape. */
  lemma ManifestOrderIrrelevant(ps: seq<Path>, qs: seq<Path>)
    requires Topmost(Elements(ps)) == Topmost(Elements(qs))
    ensures ManifestShape(ps) == ManifestShape(qs)
  {
    ManifestTerminals(ps);
    ManifestTerminals(qs);
    InsertAllGrown(NewTrie([]), ps);
    InsertAllGrown(NewTrie([]), qs);
    ShapeIsCanonical(ManifestShape(ps), ManifestShape(qs), []);
  }

  // ---------------------------------------------------------------- soundness

  lemma {:induction false} ResolvedDeterminesShape(r: Rules, fs: Tree, s: Shape, gs: Tree, u: Shape, pos: Path)
    requires Grown(s, pos) && Grown(u, pos)
    requires Resolve(r, fs, s).Some? && Resolve(r, gs, u).Some?
    requires s.Branch? && u.Branch?
    requires Resolve(r, fs, s).value.children == Resolve(r, gs, u).value.children
    ensures s == u
    decreases s
  {
    forall n
      ensures n in s.children <==> n in u.children
      ensures n in s.children && n in u.children ==> s.children[n] == u.children[n]
    {
      var a, b := Resolve(r, fs, s).value.children, Resolve(r, gs, u).value.children;
      assert n in a <==> n in s.children;
      assert n in b <==> n in u.children;
      if n in s.children && n in u.children {
        assert a[n] == Resolve(r, fs, s.children[n]).value;
        assert b[n] == Resolve(r, gs, u.children[n]).value;
        if s.children[n].Branch? {
          ResolvedDeterminesShape(r, fs, s.children[n], gs, u.children[n], pos + [n]);
        }
      }
    }
    assert s.children == u.children;
  }

  /**
   Equal input roots mean the same topmost selected paths and the same visible content at
   each of them, unless the two computations exhibit a SHA-256 collision.
   */
  lemma EqualRootsEqualInputs(r: Rules, fs: Tree, ps: seq<Path>, gs: Tree, qs: seq<Path>)
    requires ManifestShape(ps).Branch? && ManifestShape(qs).Branch?
    requires ColdRoot(r, fs, ManifestShape(ps)).Some? && ColdRoot(r, fs, ManifestShape(ps)) == ColdRoot(r, gs,
            ManifestShape(qs))
    ensures var v, w := Resolve(r, fs, ManifestShape(ps)).value, Resolve(r, gs, ManifestShape(qs)).value;
            || (Topmost(Elements(ps)) == Topmost(Elements(qs)) && v == w)
            || Collide(r.sha, MessagesUnder(r.sha, InputRootDomain, v), MessagesUnder(r.sha, InputRootDomain, w))
  {
    var s, u := ManifestShape(ps), ManifestShape(qs);
    var v, w := Resolve(r, fs, s).value, Resolve(r, gs, u).value;
    EqualLevelsEqualTrees(r.sha, InputRootDomain, v, InputRootDomain, w);
    if v.children == w.children {
      InsertAllGrown(NewTrie([]), ps);
      InsertAllGrown(NewTrie([]), qs);
      ResolvedDeterminesShape(r, fs, s, gs, u, []);
      ManifestTerminals(ps);
      ManifestTerminals(qs);
    }
  }
}

/** One manifest's synthetic tree object: its trie and its cached root digest. */
module ManifestTrees {
  import opened Base
  import opened MerkleSpec
  import opened ManifestTrie
  import opened ManifestShapes

  class ManifestTree {
    const paths: seq<Path>
    var root: Trie
    var rootDigest: Option<Digest>
    var rootDirty: bool

    ghost predicate Valid()
      reads this
    {
      Placed(root, []) && root.terminal.None? && root.dirty && ShapeOf(root) == ManifestShape(paths)
    }

    /** Every clean cache in the tree is the cold value, unless a path in `d` has still to be replayed. */
    ghost predicate Sound(r: Rules, fs: Tree, d: set<Path>)
      reads this
      requires Valid()
    {
      && TrieSound(r, fs, d, root)
      && (!rootDirty ==> rootDigest.Some? && RootAnswer(r, fs, d, ShapeOf(root), rootDigest))
    }

    constructor (selected: seq<Path>)
      requires forall p :: p in selected ==> p != []
      ensures paths == selected && Valid() && rootDirty && AllDirty(root)
    {
      paths, root, rootDigest, rootDirty := selected, NewTrie([]), None, true;
      new;
      var i := 0;
      while i < |paths|
        invariant 0 <= i <= |paths| && rootDirty
        invariant Placed(root, []) && root.terminal.None? && AllDirty(root)
        invariant InsertAll(root, paths[i..]) == InsertAll(NewTrie([]), paths)
      {
        InsertKeepsTrie(root, [], paths[i], paths[i]);
        assert paths[i] in paths;
        assert paths[i..][0] == paths[i] && paths[i..][1..] == paths[i + 1..];
        root := InsertAt(root, paths[i], paths[i]);
        i := i + 1;
      }
      assert paths[i..] == [];
    }

    /** Take over a refreshed trie, and its digest if the whole level could be computed. */
    method Refresh(u: Trie, digest: Option<Digest>, ghost r: Rules, ghost fs: Tree, ghost d: set<Path>, ghost gs: Tree,
        ghost e: set<Path>)
      requires Valid() && Sound(r, fs, d) && Later(fs, d, gs, e)
      requires Placed(u, []) && TrieSound(r, gs, e, u) && ShapeOf(u) == ShapeOf(root) && u.terminal.None? && u.dirty
      requires digest.Some? ==> RootAnswer(r, gs, e, ShapeOf(u), digest)
      modifies this
      ensures Valid() && Sound(r, gs, e)
      ensures root == u
      ensures digest.Some? ==> !rootDirty && rootDigest == digest
      ensures digest.None? ==> rootDirty == old(rootDirty) && rootDigest == old(rootDigest)
    {
      if !rootDirty {
        RootLater(r, fs, d, gs, e, ShapeOf(u), rootDigest);
      }
      root := u;
      if digest.Some? {
        rootDigest, rootDirty := digest, false;
      }
    }

    /** Replay one dirty path; `hit` says whether it has anything to do with a selected one. */
    method Invalidate(p: Path, ghost r: Rules, ghost fs: Tree, ghost d: set<Path>) returns (hit: bool)
      requires Valid() && Sound(r, fs, d + {p})
      modifies this
      ensures Valid() && Sound(r, fs, d)
      ensures hit ==> rootDirty
      ensures hit <==> p == [] || !Apart(Terminals(ManifestShape(paths)), p)
      ensures !hit ==> unchanged(this) && forall rel :: rel in Terminals(ShapeOf(root)) ==> !(rel <= p)
    {
      if p == [] {
        MarkedIsSound(r, fs, d, root);
        root, rootDirty := MarkSubtree(root), true;
        return true;
      }
      assert [] + p == p;
      HitIsExact(paths, root, p);
      InvalidateRepairs(r, fs, d, root, [], p);
      match InvalidateAt(root, p)
      case None =>
        MissMeansIrrelevant(root, [], p);
        IrrelevantToRoot(r, d, p, ShapeOf(root));
        hit := false;
      case Some(u) =>
        TerminalKept(root, p);
        root, rootDirty := u, true;
        hit := true;
    }
  }

  lemma HitIsExact(paths: seq<Path>, root: Trie, p: Path)
    requires Placed(root, []) && ShapeOf(root) == ManifestShape(paths)
    ensures InvalidateAt(root, p).None? <==> Apart(Terminals(ManifestShape(paths)), p)
  {
    InsertAllGrown(NewTrie([]), paths);
    MissIsExact(root, [], p);
    assert [] + p == p;
  }

  lemma IrrelevantToRoot(r: Rules, d: set<Path>, p: Path, s: Shape)
    requires forall rel :: rel in Terminals(s) ==> !(rel <= p)
    ensures ShapeCovered(r, d + {p}, s) ==> ShapeCovered(r, d, s)
  {
    if ShapeCovered(r, d + {p}, s) {
      var rel :| rel in Terminals(s) && Covered(r, d + {p}, rel);
      assert Covered(r, d, rel);
    }
  }

  lemma TerminalKept(t: Trie, parts: Path)
    ensures InvalidateAt(t, parts).Some? ==> InvalidateAt(t, parts).value.terminal == t.terminal
  {
  }
}

/**
 The entries one scoped observation shows: everything under the selected roots that is neither
 excluded by the request nor skipped by policy, and what each entry must be recorded as.
 */
module ScopedTrees {
  import opened Base
  import opened MerkleSpec
  import opened InputScopes

  /** An entry the scoped walk lists when it meets it below a selected directory. */
  predicate Listed(r: Rules, excluded: set<Path>, rel: Path) {
    !Excludes(excluded, rel) && !Skipped(r, rel)
  }

  /** What the walk lists from one entry down, special files included. */
  function Shown(r: Rules, excluded: set<Path>, t: Tree, rel: Path): Tree {
    if t.Dir? then
      Dir(map n | n in t.children && Listed(r, excluded, rel + [n]) :: Shown(r, excluded, t.children[n], rel + [n]))
    else t
  }

  /** The listed entries at and below a path. */
  function Under(r: Rules, excluded: set<Path>, fs: Tree, rel: Path): set<Path> {
    match Lookup(fs, rel)
    case None => {}
    case Some(t) => set q | q in Paths(Shown(r, excluded, t, rel)) :: rel + q
  }

  lemma {:induction false} ShownLookup(r: Rules, excluded: set<Path>, t: Tree, rel: Path, q: Path)
    ensures Lookup(Shown(r, excluded, t, rel), q).Some? <==>
            Lookup(t, q).Some? && forall i | 0 < i <= |q| :: Listed(r, excluded, rel + q[..i])
    decreases |q|
  {
    if q != [] {
      var n := q[0];
      assert q[..1] == [n];
      forall i | 0 < i <= |q[1..]| ensures (rel + [n]) + q[1..][..i] == rel + q[..i + 1] {}
      if t.Dir? && n in t.children && Listed(r, excluded, rel + [n]) {
        ShownLookup(r, excluded, t.children[n], rel + [n], q[1..]);
        forall i | 0 < i <= |q| && Lookup(Shown(r, excluded, t.children[n], rel + [n]), q[1..]).Some?
          ensures Listed(r, excluded, rel + q[..i])
        {
          if i > 1 {
            assert (rel + [n]) + q[1..][..i - 1] == rel + q[..i];
          }
        }
        if forall i | 0 < i <= |q| :: Listed(r, excluded, rel + q[..i]) {
          forall i | 0 < i <= |q[1..]| ensures Listed(r, excluded, (rel + [n]) + q[1..][..i]) {
            assert (rel + [n]) + q[1..][..i] == rel + q[..i + 1];
          }
        }
      }
    }
  }

  /**
   A path is among the entries of a root exactly when it exists below it and nothing on the way
   down, the path included, is excluded or skipped.
   */
  lemma UnderIsExact(r: Rules, excluded: set<Path>, fs: Tree, root: Path, p: Path)
    ensures p in Under(r, excluded, fs, root) <==>
            && root <= p && Lookup(fs, p).Some?
            && forall i | |root| < i <= |p| :: Listed(r, excluded, p[..i])
  {
    if root <= p {
      var q := p[|root|..];
      assert p == root + q;
      LookupThrough(fs, root, q);
      if Lookup(fs, root).Some? {
        var t := Lookup(fs, root).value;
        ShownLookup(r, excluded, t, root, q);
        PathsAreExactlyTheEntries(Shown(r, excluded, t, root), q);
        assert q in Paths(Shown(r, excluded, t, root)) <==> p in Under(r, excluded, fs, root) by {
          assert forall x | root + x == p :: x == q;
        }
        forall i | 0 < i <= |q| ensures root + q[..i] == p[..|root| + i] {}
        forall i | |root| < i <= |p| ensures p[..i] == root + q[..i - |root|] {}
      }
    }
  }

  function Names(r: Rules, excluded: set<Path>, children: map<Name, Tree>, rel: Path): set<Name> {
    set n | n in children && Listed(r, excluded, rel + [n])
  }

  /** The entries under a listed child are the entries of its directory that lie at or below it. */
  lemma UnderChild(r: Rules, excluded: set<Path>, fs: Tree, rel: Path, n: Name, q: Path)
    requires IsDir(fs, rel) && n in Names(r, excluded, Lookup(fs, rel).value.children, rel)
    ensures q in Under(r, excluded, fs, rel + [n]) <==> rel + [n] <= q && q in Under(r, excluded, fs, rel)
  {
    UnderIsExact(r, excluded, fs, rel, q);
    UnderIsExact(r, excluded, fs, rel + [n], q);
    if rel + [n] <= q {
      assert q[..|rel| + 1] == rel + [n] && rel <= q;
    }
  }

  /** An entry strictly below a directory lies at or below one of its listed children. */
  lemma UnderSomeChild(r: Rules, excluded: set<Path>, fs: Tree, rel: Path, q: Path) returns (n: Name)
    requires IsDir(fs, rel) && q in Under(r, excluded, fs, rel) && q != rel
    ensures n in Names(r, excluded, Lookup(fs, rel).value.children, rel) && rel + [n] <= q
  {
    UnderIsExact(r, excluded, fs, rel, q);
    n := q[|rel|];
    assert q[..|rel| + 1] == rel + [n];
    LookupThrough(fs, rel + [n], q[|rel| + 1..]);
    assert q == (rel + [n]) + q[|rel| + 1..];
    ChildLookup(fs, rel, n);
  }

  /** The entries under a directory: itself, and those under each listed child. */
  lemma UnderSplits(r: Rules, excluded: set<Path>, fs: Tree, rel: Path)
    requires IsDir(fs, rel)
    ensures Lookup(fs, rel).value.Dir?
    ensures Under(r, excluded, fs, rel) ==
      {rel} + set n, q | n in Names(r, excluded, Lookup(fs, rel).value.children, rel)
          && q in Under(r, excluded, fs, rel + [n]) :: q
  {
    UnderIsExact(r, excluded, fs, rel, rel);
    forall q
      ensures q in Under(r, excluded, fs, rel) <==>
              q == rel || exists n ::
                            && n in Names(r, excluded, Lookup(fs, rel).value.children, rel)
                            && q in Under(r, excluded, fs, rel + [n])
    {
      if q in Under(r, excluded, fs, rel) && q != rel {
        var n := UnderSomeChild(r, excluded, fs, rel, q);
        UnderChild(r, excluded, fs, rel, n, q);
      }
      forall n | n in Names(r, excluded, Lookup(fs, rel).value.children, rel) && q in Under(r, excluded, fs, rel + [n])
        ensures q in Under(r, excluded, fs, rel)
      {
        UnderChild(r, excluded, fs, rel, n, q);
      }
    }
  }
}

/** Bytes, paths, the file tree and the byte-wise order used to sort entry names. */
module Base {

  datatype Option<+T> = None | Some(value: T)

  datatype Result<+T, +E> = Ok(value: T) | Err(error: E)

  type byte = b: int | 0 <= b < 256
  type Bytes = seq<byte>

  /** An entry name is the byte string `name.encode("utf-8", "surrogateescape")`. */
  type Name = Bytes

  /** A normalized workspace-relative path; the workspace root is `[]`. */
  type Path = seq<Name>

  /** SHA-256 enters only through its output length; nothing assumes it is injective. */
  type Hash32 = b: Bytes | |b| == 32 witness seq(32, _ => 0)
  type Sha256 = Bytes -> Hash32

  datatype Digest = Digest(hash: Hash32, size: nat)

  // ---------------------------------------------------------------- sequences

  function Elements<T(==)>(s: seq<T>): set<T> {
    set x | x in s
  }

  lemma ElementsMore<T>(s: seq<T>, x: T)
    ensures Elements(s + [x]) == Elements(s) + {x}
    ensures forall y :: y in s <==> y in Elements(s)
  {
  }

  lemma ElementsHead<T>(s: seq<T>, i: nat)
    requires i < |s|
    ensures Elements(s[i..]) == Elements(s[i + 1..]) + {s[i]}
  {
    assert s[i..] == [s[i]] + s[i + 1..];
  }

  ghost predicate Distinct<T>(s: seq<T>) {
    forall i, j | 0 <= i < j < |s| :: s[i] != s[j]
  }

  /** The white space `strip` removes, among ASCII characters. */
  predicate IsSpace(b: byte) {
    9 <= b <= 13 || 28 <= b <= 32
  }

  /** Tab, line feed, vertical tab, form feed, carriage return, the four separators, and the blank. */
  lemma SpacesByName(b: byte)
    ensures IsSpace(b) <==>
            || b as char in ['\t', '\n', '\U{0B}', '\U{0C}', '\r', ' ']
            || b as char in ['\U{1C}', '\U{1D}', '\U{1E}', '\U{1F}']
  {
  }

  // ---------------------------------------------------------------- file tree

  /** What the filesystem holds below one path. Links are leaves: they are never followed. */
  datatype Tree =
    | File(content: Bytes, executable: bool)
    | Link(target: Bytes)
    | Special
    | Dir(children: map<Name, Tree>)

  /** A path's own entry: everything about it except what lies below a directory. */
  datatype Entry =
    | FileEntry(content: Bytes, executable: bool)
    | LinkEntry(target: Bytes)
    | SpecialEntry
    | DirEntry

  function EntryOf(t: Tree): Entry {
    match t
    case File(c, x) => FileEntry(c, x)
    case Link(g) => LinkEntry(g)
    case Special => SpecialEntry
    case Dir(_) => DirEntry
  }

  function Lookup(t: Tree, p: Path): Option<Tree>
    decreases |p|
  {
    if p == [] then Some(t)
    else if t.Dir? && p[0] in t.children then Lookup(t.children[p[0]], p[1..])
    else None
  }

  function Own(t: Tree, p: Path): Option<Entry> {
    match Lookup(t, p)
    case None => None
    case Some(s) => Some(EntryOf(s))
  }

  predicate IsDir(t: Tree, p: Path) {
    Own(t, p) == Some(DirEntry)
  }

  predicate IsFile(t: Tree, p: Path) {
    Own(t, p).Some? && Own(t, p).value.FileEntry?
  }

  function Paths(t: Tree): set<Path> {
    {[]} + if t.Dir? then set n, p | n in t.children && p in Paths(t.children[n]) :: [n] + p else {}
  }

  lemma {:induction false} PathsAreExactlyTheEntries(t: Tree, p: Path)
    ensures p in Paths(t) <==> Lookup(t, p).Some?
    decreases |p|
  {
    if p == [] {
    } else if t.Dir? && p[0] in t.children {
      PathsAreExactlyTheEntries(t.children[p[0]], p[1..]);
      assert p == [p[0]] + p[1..];
    }
  }

  /** The paths whose own entry differs: what an exact change report must name. */
  function Changed(t: Tree, u: Tree): set<Path> {
    set p | p in Paths(t) + Paths(u) && Own(t, p) != Own(u, p)
  }

  lemma ChangedIsExact(t: Tree, u: Tree, p: Path)
    ensures p in Changed(t, u) <==> Own(t, p) != Own(u, p)
  {
    PathsAreExactlyTheEntries(t, p);
    PathsAreExactlyTheEntries(u, p);
  }

  lemma {:induction false} LookupThrough(t: Tree, p: Path, q: Path)
    ensures Lookup(t, p + q) == match Lookup(t, p) case None => None case Some(s) => Lookup(s, q)
    decreases |p|
  {
    if p == [] {
      assert p + q == q;
    } else {
      assert (p + q)[0] == p[0] && (p + q)[1..] == p[1..] + q;
      if t.Dir? && p[0] in t.children {
        LookupThrough(t.children[p[0]], p[1..], q);
      }
    }
  }

  lemma LookupBelow(t: Tree, n: Name, p: Path)
    ensures Lookup(t, [n] + p) == if t.Dir? && n in t.children then Lookup(t.children[n], p) else None
  {
    assert ([n] + p)[0] == n && ([n] + p)[1..] == p;
  }

  /** Equal own entries everywhere make equal trees. */
  lemma {:induction false} OwnDeterminesTree(t: Tree, u: Tree)
    requires forall p :: Own(t, p) == Own(u, p)
    ensures t == u
    decreases t
  {
    assert Own(t, []) == Own(u, []);
    if t.Dir? {
      forall n
        ensures n in t.children <==> n in u.children
        ensures n in t.children && n in u.children ==> t.children[n] == u.children[n]
      {
        LookupBelow(t, n, []);
        LookupBelow(u, n, []);
        assert Own(t, [n] + []) == Own(u, [n] + []);
        if n in t.children && n in u.children {
          forall p ensures Own(t.children[n], p) == Own(u.children[n], p) {
            LookupBelow(t, n, p);
            LookupBelow(u, n, p);
            assert Own(t, [n] + p) == Own(u, [n] + p);
          }
          OwnDeterminesTree(t.children[n], u.children[n]);
        }
      }
      assert t.children == u.children;
    }
  }

  // ---------------------------------------------------------------- name order

  predicate LexLess(a: Name, b: Name) {
    b != [] && (a == [] || a[0] < b[0] || (a[0] == b[0] && LexLess(a[1..], b[1..])))
  }

  /** The byte-wise order at its first difference: a proper prefix, or the smaller byte there. */
  ghost predicate Before(a: Bytes, b: Bytes) {
    (a <= b && a != b) || exists k :: 0 <= k < |a| && k < |b| && a[..k] == b[..k] && a[k] < b[k]
  }

  lemma {:induction false} LexLessIsByteOrder(a: Name, b: Name)
    ensures LexLess(a, b) <==> Before(a, b)
  {
    if a != [] && b != [] {
      LexLessIsByteOrder(a[1..], b[1..]);
      assert a == [a[0]] + a[1..] && b == [b[0]] + b[1..];
      if LexLess(a, b) && a[0] == b[0] && !(a <= b) {
        var k :| 0 <= k < |a[1..]| && k < |b[1..]| && a[1..][..k] == b[1..][..k] && a[1..][k] < b[1..][k];
        assert a[..k + 1] == [a[0]] + a[1..][..k] && b[..k + 1] == [b[0]] + b[1..][..k];
      }
      if k :| 0 <= k < |a| && k < |b| && a[..k] == b[..k] && a[k] < b[k] {
        BeforeFrom(a, b, k);
      }
    }
  }

  lemma BeforeFrom(a: Bytes, b: Bytes, k: nat)
    requires k < |a| && k < |b| && a[..k] == b[..k] && a[k] < b[k]
    ensures a[0] < b[0] || (a[0] == b[0] && Before(a[1..], b[1..]))
  {
    if k > 0 {
      assert a[0] == a[..k][0] == b[..k][0] == b[0];
      assert a[1..][..k - 1] == a[..k][1..] == b[..k][1..] == b[1..][..k - 1];
    }
  }

  lemma {:induction false} LexTotal(a: Name, b: Name)
    ensures LexLess(a, b) || a == b || LexLess(b, a)
    ensures !(LexLess(a, b) && LexLess(b, a))
    ensures !LexLess(a, a)
  {
    if a != [] && b != [] {
      LexTotal(a[1..], b[1..]);
      assert a == [a[0]] + a[1..] && b == [b[0]] + b[1..];
    }
    if a != [] {
      LexTotal(a[1..], a[1..]);
    }
  }

  lemma {:induction false} LexTransitive(a: Name, b: Name, c: Name)
    requires LexLess(a, b) && LexLess(b, c)
    ensures LexLess(a, c)
  {
    if a != [] {
      if a[0] == b[0] && b[0] == c[0] {
        LexTransitive(a[1..], b[1..], c[1..]);
      }
    }
  }

  predicate IsLeast(m: Name, s: set<Name>) {
    m in s && forall x | x in s :: x == m || LexLess(m, x)
  }

  lemma {:induction false} LeastExists(s: set<Name>)
    requires s != {}
    ensures exists m :: IsLeast(m, s)
  {
    var x :| x in s;
    if s == {x} {
      assert IsLeast(x, s);
    } else {
      var rest := s - {x};
      LeastExists(rest);
      var m :| IsLeast(m, rest);
      LexTotal(m, x);
      if LexLess(m, x) {
        assert IsLeast(m, s);
      } else {
        forall y | y in s ensures y == x || LexLess(x, y) {
          if y != x && y != m {
            LexTransitive(x, m, y);
          }
        }
        assert IsLeast(x, s);
      }
    }
  }

  lemma LeastIsUnique(m: Name, n: Name, s: set<Name>)
    requires IsLeast(m, s) && IsLeast(n, s)
    ensures m == n
  {
    LexTotal(m, n);
  }

  function Least(s: set<Name>): (m: Name)
    requires s != {}
    ensures IsLeast(m, s)
  {
    LeastExists(s);
    assert forall a, b | IsLeast(a, s) && IsLeast(b, s) :: a == b by {
      forall a, b | IsLeast(a, s) && IsLeast(b, s) ensures a == b { LeastIsUnique(a, b, s); }
    }
    var m :| IsLeast(m, s);
    m
  }

  ghost predicate StrictlySorted(r: seq<Name>) {
    forall i, j | 0 <= i < j < |r| :: LexLess(r[i], r[j])
  }

  /** The entry order of every directory and trie level: by encoded name. */
  function SortNames(s: set<Name>): (r: seq<Name>)
    ensures forall n :: n in r <==> n in s
    ensures StrictlySorted(r)
  {
    if s == {} then []
    else
      var m := Least(s);
      var rest := SortNames(s - {m});
      assert forall i | 0 <= i < |rest| :: rest[i] in s - {m};
      [m] + rest
  }

  /** Sorted names are exactly the names of the set, ascending byte by byte. */
  lemma SortedNamesAscend(s: set<Name>)
    ensures Elements(SortNames(s)) == s
    ensures forall i, j | 0 <= i < j < |SortNames(s)| :: Before(SortNames(s)[i], SortNames(s)[j])
  {
    forall i, j | 0 <= i < j < |SortNames(s)| ensures Before(SortNames(s)[i], SortNames(s)[j]) {
      LexLessIsByteOrder(SortNames(s)[i], SortNames(s)[j]);
    }
  }

  /** And there is no other such listing. */
  lemma AscendingIsSorted(s: set<Name>, names: seq<Name>)
    requires Elements(names) == s && forall i, j | 0 <= i < j < |names| :: Before(names[i], names[j])
    ensures names == SortNames(s)
  {
    forall i, j | 0 <= i < j < |names| ensures LexLess(names[i], names[j]) {
      LexLessIsByteOrder(names[i], names[j]);
    }
    assert forall n :: n in names <==> n in Elements(names);
    StrictlySortedUnique(names, SortNames(s));
  }

  lemma HasElement(r: seq<Name>)
    requires r != []
    ensures exists n :: n in r
  {
    assert r[0] in r;
  }

  lemma {:induction false} StrictlySortedUnique(r: seq<Name>, q: seq<Name>)
    requires StrictlySorted(r) && StrictlySorted(q)
    requires forall n :: n in r <==> n in q
    ensures r == q
  {
    if r != [] {
      HasElement(r);
    }
    if q != [] {
      HasElement(q);
    }
    if r != [] && q != [] {
      assert r[0] in q && q[0] in r;
      var i :| 0 <= i < |q| && q[i] == r[0];
      var j :| 0 <= j < |r| && r[j] == q[0];
      LexTotal(r[0], q[0]);
      assert r[0] == q[0];
      forall n ensures n in r[1..] <==> n in q[1..] {
        LexTotal(r[0], r[0]);
        assert r == [r[0]] + r[1..] && q == [q[0]] + q[1..];
        assert forall i | 1 <= i < |r| :: LexLess(r[0], r[i]);
        assert forall i | 1 <= i < |q| :: LexLess(q[0], q[i]);
        assert n in r <==> n in q;
      }
      StrictlySortedUnique(r[1..], q[1..]);
      assert r == [r[0]] + r[1..] && q == [q[0]] + q[1..];
    }
  }

}

/**
 The byte encoding under every Merkle digest: length-prefixed fields, one
 self-delimiting record per node, and one domain tag per kind of hashed object.
 */
module Encoding {
  import opened Base

  // ---------------------------------------------------------------- length prefixes

  /** 256 to the power `k`: the number of values a `k`-byte integer can hold. */
  function Capacity(k: nat): nat {
    if k == 0 then 1 else 256 * Capacity(k - 1)
  }

  /** `n.to_bytes(k, "big")`, for an `n` that fits. */
  function BigEndian(n: nat, k: nat): (r: Bytes)
    ensures |r| == k
  {
    if k == 0 then [] else BigEndian(n / 256, k - 1) + [n % 256]
  }

  function FromBigEndian(b: Bytes): nat {
    if b == [] then 0 else 256 * FromBigEndian(b[..|b| - 1]) + b[|b| - 1]
  }

  lemma {:induction false} BigEndianRoundTrip(n: nat, k: nat)
    requires n < Capacity(k)
    ensures FromBigEndian(BigEndian(n, k)) == n
  {
    if k > 0 {
      BigEndianRoundTrip(n / 256, k - 1);
      assert BigEndian(n, k)[..k - 1] == BigEndian(n / 256, k - 1);
    }
  }

  /** The first byte weighs most. */
  lemma {:induction false} FirstByteWeighsMost(x: byte, b: Bytes)
    ensures FromBigEndian([x] + b) == x * Capacity(|b|) + FromBigEndian(b)
    decreases |b|
  {
    if b != [] {
      var front, last := b[..|b| - 1], b[|b| - 1];
      FirstByteWeighsMost(x, front);
      assert ([x] + b)[..|b|] == [x] + front && ([x] + b)[|b|] == last;
      assert x * Capacity(|b|) == 256 * (x * Capacity(|front|));
    } else {
      assert [x] + b == [x];
    }
  }

  /** A length or size that `to_bytes(8, "big")` accepts instead of raising OverflowError. */
  predicate Fits8(n: nat) {
    n < Capacity(8)
  }

  /** Everything up to the largest eight-byte integer fits. */
  lemma EightBytes(n: nat)
    ensures Fits8(n) <==> n <= 0xFFFF_FFFF_FFFF_FFFF
  {
    assert Capacity(4) == 0x1_0000_0000;
  }

  function EncodeField(data: Bytes): Bytes {
    BigEndian(|data|, 8) + data
  }

  lemma SplitFixed(a: Bytes, x: Bytes, b: Bytes, y: Bytes)
    requires |a| == |b| && a + x == b + y
    ensures a == b && x == y
  {
    assert (a + x)[..|a|] == a && (b + y)[..|b|] == b;
    assert (a + x)[|a|..] == x && (b + y)[|b|..] == y;
  }

  lemma FieldIsSelfDelimiting(a: Bytes, x: Bytes, b: Bytes, y: Bytes)
    requires Fits8(|a|) && Fits8(|b|)
    requires EncodeField(a) + x == EncodeField(b) + y
    ensures a == b && x == y
  {
    var la, lb := BigEndian(|a|, 8), BigEndian(|b|, 8);
    assert EncodeField(a) + x == la + (a + x) && EncodeField(b) + y == lb + (b + y);
    SplitFixed(la, a + x, lb, b + y);
    BigEndianRoundTrip(|a|, 8);
    BigEndianRoundTrip(|b|, 8);
    SplitFixed(a, x, b, y);
  }

  // ---------------------------------------------------------------- nodes

  datatype Node =
    | FileNode(name: Name, digest: Digest, executable: bool)
    | DirNode(name: Name, digest: Digest)
    | LinkNode(name: Name, target: Bytes)

  predicate Encodable(n: Node) {
    Fits8(|n.name|) && match n
      case FileNode(_, d, _) => Fits8(d.size)
      case DirNode(_, d) => Fits8(d.size)
      case LinkNode(_, g) => Fits8(|g|)
  }

  /** What follows the name in a record. */
  function NodeBody(n: Node): Bytes {
    match n
    case FileNode(_, d, x) => d.hash + (BigEndian(d.size, 8) + [if x then 1 else 0])
    case DirNode(_, d) => d.hash + BigEndian(d.size, 8)
    case LinkNode(_, g) => EncodeField(g)
  }

  function NodeKind(n: Node): byte {
    match n case FileNode(_, _, _) => 0x46 case DirNode(_, _) => 0x44 case LinkNode(_, _) => 0x4C
  }

  /** The bytes of one node record: kind, name field, body. */
  function EncodeNode(n: Node): Bytes {
    [NodeKind(n)] + (EncodeField(n.name) + NodeBody(n))
  }

  lemma NodeNameIsSelfDelimiting(k: byte, n: Name, x: Bytes, l: byte, m: Name, y: Bytes)
    requires Fits8(|n|) && Fits8(|m|)
    requires [k] + (EncodeField(n) + x) == [l] + (EncodeField(m) + y)
    ensures k == l && n == m && x == y
  {
    SplitFixed([k], EncodeField(n) + x, [l], EncodeField(m) + y);
    FieldIsSelfDelimiting(n, x, m, y);
  }

  lemma RecordLayout(n: Node, x: Bytes)
    ensures EncodeNode(n) + x == [NodeKind(n)] + (EncodeField(n.name) + (NodeBody(n) + x))
  {
  }

  lemma DigestIsSelfDelimiting(d: Digest, x: Bytes, e: Digest, y: Bytes)
    requires Fits8(d.size) && Fits8(e.size)
    requires d.hash + (BigEndian(d.size, 8) + x) == e.hash + (BigEndian(e.size, 8) + y)
    ensures d == e && x == y
  {
    SplitFixed(d.hash, BigEndian(d.size, 8) + x, e.hash, BigEndian(e.size, 8) + y);
    SplitFixed(BigEndian(d.size, 8), x, BigEndian(e.size, 8), y);
    BigEndianRoundTrip(d.size, 8);
    BigEndianRoundTrip(e.size, 8);
  }

  lemma BodyIsSelfDelimiting(n: Node, x: Bytes, m: Node, y: Bytes)
    requires Encodable(n) && Encodable(m) && NodeKind(n) == NodeKind(m)
    requires NodeBody(n) + x == NodeBody(m) + y
    ensures n.(name := m.name) == m && x == y
  {
    match n
    case LinkNode(_, g) =>
      FieldIsSelfDelimiting(g, x, m.target, y);
    case DirNode(_, d) =>
      DirectoryBodyIsSelfDelimiting(d, x, m.digest, y);
    case FileNode(_, d, b) =>
      FileBodyIsSelfDelimiting(d, [if b then 1 else 0], x, m.digest, [if m.executable then 1 else 0], y);
  }

  lemma DirectoryBodyIsSelfDelimiting(d: Digest, x: Bytes, e: Digest, y: Bytes)
    requires Fits8(d.size) && Fits8(e.size)
    requires (d.hash + BigEndian(d.size, 8)) + x == (e.hash + BigEndian(e.size, 8)) + y
    ensures d == e && x == y
  {
    assert (d.hash + BigEndian(d.size, 8)) + x == d.hash + (BigEndian(d.size, 8) + x);
    assert (e.hash + BigEndian(e.size, 8)) + y == e.hash + (BigEndian(e.size, 8) + y);
    DigestIsSelfDelimiting(d, x, e, y);
  }

  lemma FileBodyIsSelfDelimiting(d: Digest, u: Bytes, x: Bytes, e: Digest, v: Bytes, y: Bytes)
    requires Fits8(d.size) && Fits8(e.size) && |u| == |v| == 1
    requires (d.hash + (BigEndian(d.size, 8) + u)) + x == (e.hash + (BigEndian(e.size, 8) + v)) + y
    ensures d == e && u[0] == v[0] && x == y
  {
    assert (d.hash + (BigEndian(d.size, 8) + u)) + x == d.hash + (BigEndian(d.size, 8) + (u + x));
    assert (e.hash + (BigEndian(e.size, 8) + v)) + y == e.hash + (BigEndian(e.size, 8) + (v + y));
    DigestIsSelfDelimiting(d, u + x, e, v + y);
    SplitFixed(u, x, v, y);
  }

  /** No record is a prefix of a different one, whatever follows. */
  lemma NodeIsSelfDelimiting(n: Node, x: Bytes, m: Node, y: Bytes)
    requires Encodable(n) && Encodable(m)
    requires EncodeNode(n) + x == EncodeNode(m) + y
    ensures n == m && x == y
  {
    RecordLayout(n, x);
    RecordLayout(m, y);
    NodeNameIsSelfDelimiting(NodeKind(n), n.name, NodeBody(n) + x, NodeKind(m), m.name, NodeBody(m) + y);
    BodyIsSelfDelimiting(n, x, m, y);
  }

  /** The concatenated records; `None` is the OverflowError of a field that does not fit. */
  function EncodeNodes(ns: seq<Node>): Option<Bytes> {
    if ns == [] then Some([])
    else if !Encodable(ns[0]) then None
    else match EncodeNodes(ns[1..])
      case None => None
      case Some(rest) => Some(EncodeNode(ns[0]) + rest)
  }

  lemma {:induction false} NodesAreUniquelyDecodable(ns: seq<Node>, ms: seq<Node>)
    requires EncodeNodes(ns).Some? && EncodeNodes(ns) == EncodeNodes(ms)
    ensures ns == ms
  {
    if ns != [] && ms != [] {
      NodeIsSelfDelimiting(ns[0], EncodeNodes(ns[1..]).value, ms[0], EncodeNodes(ms[1..]).value);
      NodesAreUniquelyDecodable(ns[1..], ms[1..]);
      assert ns == [ns[0]] + ns[1..] && ms == [ms[0]] + ms[1..];
    }
  }

  /** The kinds are the letters F, D and L; lengths come first, the execute bit last. */
  lemma FileRecord(d: Digest, x: bool)
    requires d.size == 258
    ensures EncodeNode(FileNode(Ascii("ab"), d, x)) ==
            Ascii("F") + [0, 0, 0, 0, 0, 0, 0, 2] + Ascii("ab") + d.hash + [0, 0, 0, 0, 0, 0, 1, 2]
            + [if x then 1 else 0]
  {
    SmallLength(2);
    LengthOf258();
    assert Ascii("F") == [0x46] && |Ascii("ab")| == 2;
  }

  lemma DirectoryRecord(d: Digest)
    requires d.size == 258
    ensures EncodeNode(DirNode(Ascii("c"), d)) ==
            Ascii("D") + [0, 0, 0, 0, 0, 0, 0, 1] + Ascii("c") + d.hash + [0, 0, 0, 0, 0, 0, 1, 2]
  {
    SmallLength(1);
    LengthOf258();
    assert Ascii("D") == [0x44] && |Ascii("c")| == 1;
  }

  lemma LinkRecord()
    ensures EncodeNode(LinkNode(Ascii("l"), Ascii("to"))) ==
            Ascii("L") + [0, 0, 0, 0, 0, 0, 0, 1] + Ascii("l") + [0, 0, 0, 0, 0, 0, 0, 2] + Ascii("to")
  {
    SmallLength(1);
    SmallLength(2);
    assert Ascii("L") == [0x4C] && |Ascii("l")| == 1 && |Ascii("to")| == 2;
  }

  lemma SmallLength(n: byte)
    ensures BigEndian(n, 8) == [0, 0, 0, 0, 0, 0, 0, n]
  {
    assert BigEndian(n, 8) == BigEndian(0, 7) + [n];
    NoLength();
  }

  lemma NoLength()
    ensures BigEndian(0, 7) == [0, 0, 0, 0, 0, 0, 0]
    ensures BigEndian(0, 6) == [0, 0, 0, 0, 0, 0]
  {
    assert BigEndian(0, 3) == [0, 0, 0];
    assert BigEndian(0, 5) == [0, 0, 0, 0, 0];
  }

  lemma LengthOf258()
    ensures BigEndian(258, 8) == [0, 0, 0, 0, 0, 0, 1, 2]
  {
    NoLength();
    assert BigEndian(1, 7) == BigEndian(0, 6) + [1];
    assert BigEndian(258, 8) == BigEndian(1, 7) + [2];
  }

  function Concat(parts: seq<Bytes>): Bytes {
    if parts == [] then [] else parts[0] + Concat(parts[1..])
  }

  /** A list is encoded record by record, in its own order, exactly if every length in it fits. */
  lemma {:induction false} NodesAreTheirRecords(ns: seq<Node>)
    ensures EncodeNodes(ns).Some? <==> forall n :: n in ns ==> Encodable(n)
    ensures EncodeNodes(ns).Some? ==> EncodeNodes(ns).value == Concat(Records(ns))
  {
    if ns != [] {
      NodesAreTheirRecords(ns[1..]);
      assert forall n :: n in ns <==> n == ns[0] || n in ns[1..];
      FirstRecord(ns);
    }
  }

  function Records(ns: seq<Node>): seq<Bytes> {
    seq(|ns|, i requires 0 <= i < |ns| => EncodeNode(ns[i]))
  }

  lemma FirstRecord(ns: seq<Node>)
    requires ns != []
    ensures Concat(Records(ns)) == EncodeNode(ns[0]) + Concat(Records(ns[1..]))
  {
    assert Records(ns)[1..] == Records(ns[1..]);
  }

  // ---------------------------------------------------------------- domains

  datatype Domain = BlobDomain | FileDomain | DirectoryDomain | InputRootDomain | ManifestDirectoryDomain |
      SymlinkDomain

  function Ascii(s: string): Bytes {
    seq(|s|, i requires 0 <= i < |s| => if s[i] as int < 256 then s[i] as int else 63)
  }

  function DomainText(d: Domain): string {
    match d
    case BlobDomain => "fastidentity.blob.v1\0"
    case FileDomain => "fastidentity.file.v1\0"
    case DirectoryDomain => "fastidentity.directory.v1\0"
    case InputRootDomain => "fastidentity.input-root.v1\0"
    case ManifestDirectoryDomain => "fastidentity.manifest-directory.v1\0"
    case SymlinkDomain => "fastidentity.symlink.v1\0"
  }

  function Message(d: Domain, body: Bytes): Bytes {
    Ascii(DomainText(d)) + body
  }

  lemma DomainByte(d: Domain)
    ensures |DomainText(d)| > 13
    ensures DomainText(d)[13] == match d
      case BlobDomain => 'b' case FileDomain => 'f' case DirectoryDomain => 'd' case InputRootDomain => 'i'
      case ManifestDirectoryDomain => 'm' case SymlinkDomain => 's'
  {
  }

  /** Messages of different domains never coincide; within a domain the body is determined. */
  lemma DomainsSeparate(d: Domain, x: Bytes, e: Domain, y: Bytes)
    requires Message(d, x) == Message(e, y)
    ensures d == e && x == y
  {
    DomainByte(d);
    DomainByte(e);
    assert Message(d, x)[13] == DomainText(d)[13] as int;
    assert Message(e, y)[13] == DomainText(e)[13] as int;
    assert d == e;
    SplitFixed(Ascii(DomainText(d)), x, Ascii(DomainText(e)), y);
  }

  // ---------------------------------------------------------------- digests

  function HashBytes(sha: Sha256, d: Domain, body: Bytes): Digest {
    Digest(sha(Message(d, body)), |body|)
  }

  function HashNodes(sha: Sha256, d: Domain, ns: seq<Node>): Option<Digest> {
    match EncodeNodes(ns)
    case None => None
    case Some(b) => Some(HashBytes(sha, d, b))
  }

  function FileDigest(sha: Sha256, content: Bytes): Digest {
    HashBytes(sha, FileDomain, content)
  }

  /** A hash collision between a message of `a` and a different message of `b`. */
  ghost predicate Collide(sha: Sha256, a: set<Bytes>, b: set<Bytes>) {
    exists x, y :: x in a && y in b && x != y && sha(x) == sha(y)
  }

  /** Equal node-list digests mean equal domain and equal nodes, or exhibit a collision. */
  lemma HashNodesIsBinding(sha: Sha256, d: Domain, ns: seq<Node>, e: Domain, ms: seq<Node>)
    requires EncodeNodes(ns).Some? && EncodeNodes(ms).Some?
    requires HashNodes(sha, d, ns).value.hash == HashNodes(sha, e, ms).value.hash
    ensures (d == e && ns == ms)
         || Collide(sha, {Message(d, EncodeNodes(ns).value)}, {Message(e, EncodeNodes(ms).value)})
  {
    var x, y := Message(d, EncodeNodes(ns).value), Message(e, EncodeNodes(ms).value);
    if x == y {
      DomainsSeparate(d, EncodeNodes(ns).value, e, EncodeNodes(ms).value);
      NodesAreUniquelyDecodable(ns, ms);
    } else {
      assert x in {x} && y in {y};
    }
  }
}

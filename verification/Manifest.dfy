/** The canonical fingerprint of a manifest: the key under which its tree and its handle are kept. */
module Manifests {
  import opened Base
  import opened Encoding
  import opened PathText

  function PathFields(paths: seq<Path>): Bytes {
    if paths == [] then [] else EncodeField(JoinPath(paths[0])) + PathFields(paths[1..])
  }

  function FingerprintMessage(paths: seq<Path>): Bytes {
    Ascii("fastidentity.input-manifest.v1\0") + PathFields(paths)
  }

  function Fingerprint(sha: Sha256, paths: seq<Path>): Hash32 {
    sha(FingerprintMessage(paths))
  }

  /** Two messages with one hash. */
  predicate Collision(sha: Sha256, x: Bytes, y: Bytes) {
    x != y && sha(x) == sha(y)
  }

  /** Paths whose texts a field can hold. */
  ghost predicate Fieldable(paths: seq<Path>) {
    forall p :: p in paths ==> Plain(p) && Fits8(|JoinPath(p)|)
  }

  lemma FieldsAreLong(paths: seq<Path>)
    ensures paths != [] ==> |PathFields(paths)| >= 8
  {
  }

  lemma {:induction false} FieldsAreUniquelyDecodable(a: seq<Path>, b: seq<Path>)
    requires Fieldable(a) && Fieldable(b) && PathFields(a) == PathFields(b)
    ensures a == b
    decreases |a|
  {
    if a != [] && b != [] {
      assert a[0] in a && b[0] in b;
      FieldIsSelfDelimiting(JoinPath(a[0]), PathFields(a[1..]), JoinPath(b[0]), PathFields(b[1..]));
      JoinPathInjective(a[0], b[0]);
      FieldsAreUniquelyDecodable(a[1..], b[1..]);
      assert a == [a[0]] + a[1..] && b == [b[0]] + b[1..];
    } else {
      FieldsAreLong(a);
      FieldsAreLong(b);
    }
  }

  /** Equal fingerprints mean the same paths in the same order, or exhibit a collision. */
  lemma FingerprintIsBinding(sha: Sha256, a: seq<Path>, b: seq<Path>)
    requires Fieldable(a) && Fieldable(b) && Fingerprint(sha, a) == Fingerprint(sha, b)
    ensures a == b || Collision(sha, FingerprintMessage(a), FingerprintMessage(b))
  {
    if FingerprintMessage(a) == FingerprintMessage(b) {
      var domain := Ascii("fastidentity.input-manifest.v1\0");
      SplitFixed(domain, PathFields(a), domain, PathFields(b));
      FieldsAreUniquelyDecodable(a, b);
    }
  }
}

/** `normalize_relative_path`: which texts name a workspace path, and which paths have a text. */
module Normalization {
  import opened Base
  import opened PathText

  const BACKSLASH: byte := 0x5C
  const COLON: byte := 0x3A
  const DOT: Name := [0x2E]
  const DOTDOT: Name := [0x2E, 0x2E]

  /** Backslashes count as slashes. */
  function Slashed(text: Bytes): Bytes {
    seq(|text|, i requires 0 <= i < |text| => if text[i] == BACKSLASH then SLASH else text[i])
  }

  predicate IsLetter(b: byte) {
    0x41 <= b <= 0x5A || 0x61 <= b <= 0x7A
  }

  predicate HasDrive(raw: Bytes) {
    |raw| >= 2 && IsLetter(raw[0]) && raw[1] == COLON
  }

  /** The parts that are neither empty nor a dot. */
  function Named(parts: seq<Name>): Path {
    if parts == [] then []
    else if parts[0] == [] || parts[0] == DOT then Named(parts[1..])
    else [parts[0]] + Named(parts[1..])
  }

  /** The path a text names; `None` where the source raises ValueError. */
  function Normalize(text: Bytes): Option<Path> {
    var raw := Slashed(text);
    if 0 in text || (raw != [] && raw[0] == SLASH) || HasDrive(raw) then None
    else
      var parts := Split(SLASH, raw);
      if DOTDOT in parts then None else Some(Named(parts))
  }

  /** `normalize_relative_path(text, allow_root=False)`. */
  function NormalizeInput(text: Bytes): Option<Path> {
    if Normalize(text) == Some([]) then None else Normalize(text)
  }

  /** A name every text form keeps: in particular without a backslash. */
  predicate PortableName(n: Name) {
    n != [] && n != DOT && n != DOTDOT && 0 !in n && SLASH !in n && BACKSLASH !in n
  }

  /** Portable names, and nothing that looks like a drive in front. */
  predicate Portable(p: Path) {
    (forall n :: n in p ==> PortableName(n)) && (p != [] ==> !HasDrive(p[0]))
  }

  lemma PortableIsPlain(p: Path)
    requires Portable(p)
    ensures Plain(p)
  {
  }

  // ---------------------------------------------------------------- parts of a text

  lemma {:induction false} SplitParts(sep: byte, s: Bytes)
    ensures forall n :: n in Split(sep, s) ==> sep !in n && forall b :: b in n ==> b in s
  {
    if s != [] {
      SplitParts(sep, s[1..]);
      var rest := Split(sep, s[1..]);
      assert s == [s[0]] + s[1..];
      forall n | n in Split(sep, s) ensures sep !in n && forall b :: b in n ==> b in s {
        if s[0] == sep {
          assert n == [] || n in rest;
        } else {
          assert n == [s[0]] + rest[0] || n in rest[1..];
          assert rest == [rest[0]] + rest[1..];
        }
      }
    }
  }

  lemma {:induction false} NamedParts(parts: seq<Name>)
    ensures forall n :: n in Named(parts) ==> n in parts && n != [] && n != DOT
    ensures (forall n :: n in parts ==> n != [] && n != DOT) ==> Named(parts) == parts
  {
    if parts != [] {
      NamedParts(parts[1..]);
      assert parts == [parts[0]] + parts[1..] && parts[0] in parts;
      assert forall n :: n in parts[1..] ==> n in parts;
    }
  }

  lemma {:induction false} JoinedBytes(sep: byte, parts: seq<Bytes>, b: byte)
    requires b in Join(sep, parts)
    ensures b == sep || exists n :: n in parts && b in n
    decreases |parts|
  {
    if |parts| == 1 {
      assert parts[0] in parts;
    } else {
      assert parts[0] in parts;
      if b !in parts[0] && b != sep {
        JoinedBytes(sep, parts[1..], b);
        var n :| n in parts[1..] && b in n;
        assert n in parts;
      }
    }
  }

  lemma SlashedKeeps(text: Bytes)
    requires BACKSLASH !in text
    ensures Slashed(text) == text
  {
    forall i | 0 <= i < |text| ensures text[i] != BACKSLASH {
      assert text[i] in text;
    }
  }

  lemma SlashedBytes(text: Bytes, b: byte)
    requires b in Slashed(text)
    ensures b != BACKSLASH && (b == SLASH || b in text)
  {
    var i :| 0 <= i < |text| && Slashed(text)[i] == b;
    assert text[i] in text;
  }

  /** Only a first name can look like a drive: the byte after a shorter one is a slash. */
  lemma DriveOfText(p: Path)
    requires Plain(p)
    ensures HasDrive(JoinPath(p)) <==> p != [] && HasDrive(p[0])
  {
    if p != [] {
      assert p[0] in p;
      FirstOfText(p);
    }
  }

  // ---------------------------------------------------------------- what normalization keeps

  /** Whatever a text names has portable names. */
  lemma NormalizedNames(text: Bytes)
    requires Normalize(text).Some?
    ensures forall n :: n in Normalize(text).value ==> PortableName(n)
  {
    var raw := Slashed(text);
    var parts := Split(SLASH, raw);
    SplitParts(SLASH, raw);
    NamedParts(parts);
    forall n | n in Named(parts) ensures PortableName(n) {
      if b :| b in n && (b == 0 || b == BACKSLASH) {
        SlashedBytes(text, b);
      }
    }
  }

  lemma PortableText(p: Path)
    requires forall n :: n in p ==> PortableName(n)
    ensures 0 !in JoinPath(p) && BACKSLASH !in JoinPath(p) && (p != [] ==> JoinPath(p) != [] && JoinPath(p)[0] != SLASH)
  {
    if b :| b in JoinPath(p) && (b == 0 || b == BACKSLASH) {
      JoinedBytes(SLASH, p, b);
      assert false;
    }
    if p != [] {
      assert p[0] in p;
      assert JoinPath(p)[0] == p[0][0] && p[0][0] in p[0];
    }
  }

  /** The exact condition for a path to survive its text: portable names, and no drive in front. */
  lemma NormalizeKeepsPortable(p: Path)
    ensures Normalize(JoinPath(p)) == Some(p) <==> Portable(p)
  {
    var text := JoinPath(p);
    if Normalize(text) == Some(p) {
      NormalizedNames(text);
    }
    if forall n :: n in p ==> PortableName(n) {
      PortableText(p);
      SlashedKeeps(text);
      DriveOfText(p);
      NamedParts(p);
      if p == [] {
        assert Split(SLASH, text)[1..] == [];
      } else {
        SplitOfJoin(SLASH, p);
      }
    }
  }

  /** No text names a path with a backslash in one of its names. */
  lemma BackslashHasNoText(p: Path, n: Name, text: Bytes)
    requires n in p && BACKSLASH in n
    ensures Normalize(text) != Some(p)
  {
    if Normalize(text) == Some(p) {
      NormalizedNames(text);
    }
  }

  // ---------------------------------------------------------------- other texts

  /** Empty parts and dots name nothing, every other part names itself, and the order stays. */
  lemma {:induction false} NamedOfConcat(a: seq<Name>, b: seq<Name>)
    ensures Named(a + b) == Named(a) + Named(b)
    ensures Named([[]]) == [] && Named([DOT]) == []
    ensures forall n: Name :: n != [] && n != DOT ==> Named([n]) == [n]
    decreases |a|
  {
    if a == [] {
      assert a + b == b;
    } else {
      NamedOfConcat(a[1..], b);
      assert (a + b)[1..] == a[1..] + b;
    }
  }

  /** A part of a text: it stands between two separators, or an end and a separator, or both ends. */
  ghost predicate PartAt(sep: byte, s: Bytes, x: Bytes, n: Bytes, y: Bytes) {
    s == x + n + y && (x == [] || x[|x| - 1] == sep) && (y == [] || y[0] == sep)
  }

  lemma PartIsSplitOff(sep: byte, s: Bytes, x: Bytes, n: Bytes, y: Bytes)
    requires sep !in n && PartAt(sep, s, x, n, y)
    ensures n in Split(sep, s)
  {
    var t := n + y;
    if y == [] {
      assert t == n;
      SplitFirst(sep, n, []);
    } else {
      assert t == n + [sep] + y[1..];
      SplitFirst(sep, n, y[1..]);
    }
    assert n in Split(sep, t);
    if x != [] {
      assert s == x[..|x| - 1] + [sep] + t;
      SplitConcat(sep, x[..|x| - 1], t);
    } else {
      assert s == t;
    }
  }

  lemma {:induction false} JoinAround(sep: byte, parts: seq<Bytes>, i: nat) returns (x: Bytes, y: Bytes)
    requires i < |parts|
    ensures PartAt(sep, Join(sep, parts), x, parts[i], y)
    decreases |parts|
  {
    if |parts| == 1 {
      x, y := [], [];
    } else if i == 0 {
      x, y := [], [sep] + Join(sep, parts[1..]);
    } else {
      x, y := JoinAround(sep, parts[1..], i - 1);
      x := parts[0] + [sep] + x;
    }
  }

  lemma PartsOfText(sep: byte, s: Bytes, n: Bytes)
    requires sep !in n
    ensures n in Split(sep, s) <==> exists x, y :: PartAt(sep, s, x, n, y)
  {
    if n in Split(sep, s) {
      var i :| 0 <= i < |Split(sep, s)| && Split(sep, s)[i] == n;
      var x, y := JoinAround(sep, Split(sep, s), i);
      JoinOfSplit(sep, s);
    }
    if x, y :| PartAt(sep, s, x, n, y) {
      PartIsSplitOff(sep, s, x, n, y);
    }
  }

  /**
   A text has no normal form exactly if it holds a NUL, starts with a slash of either kind or with
   a drive, or has `..` between two such slashes or ends.
   */
  lemma RefusedTexts(text: Bytes)
    ensures Normalize(text).None? <==>
            || 0 in text
            || (text != [] && (text[0] == SLASH || text[0] == BACKSLASH))
            || (|text| >= 2 && text[1] == COLON && (0x41 <= text[0] <= 0x5A || 0x61 <= text[0] <= 0x7A))
            || exists x, y :: PartAt(SLASH, Slashed(text), x, DOTDOT, y)
  {
    PartsOfText(SLASH, Slashed(text), DOTDOT);
  }

  /**
   Any other text is read part by part: what names nothing is dropped, what is left is the path.
   So `./a`, `a//b`, `a/./b` and `a/` name what they should.
   */
  lemma NormalizeIsNamed(parts: seq<Name>)
    requires parts != [] && forall n :: n in parts ==> SLASH !in n && BACKSLASH !in n && 0 !in n
    ensures Normalize(Join(SLASH, parts)) ==
            if (|parts| > 1 && parts[0] == []) || HasDrive(parts[0]) || DOTDOT in parts then None
            else Some(Named(parts))
  {
    var text := Join(SLASH, parts);
    if b :| b in text && (b == 0 || b == BACKSLASH) {
      JoinedBytes(SLASH, parts, b);
      assert false;
    }
    SlashedKeeps(text);
    SplitOfJoin(SLASH, parts);
    FirstOfText(parts);
  }

  lemma FirstOfText(parts: seq<Name>)
    requires parts != [] && SLASH !in parts[0]
    ensures HasDrive(Join(SLASH, parts)) <==> HasDrive(parts[0])
    ensures Join(SLASH, parts) != [] && Join(SLASH, parts)[0] == SLASH <==> |parts| > 1 && parts[0] == []
  {
    if |parts| > 1 {
      BeforeSlash(parts[0], Join(SLASH, parts[1..]));
      assert Join(SLASH, parts) == parts[0] + [SLASH] + Join(SLASH, parts[1..]);
    } else if parts[0] != [] {
      assert parts[0][0] in parts[0];
    }
  }

  lemma BeforeSlash(n: Name, rest: Bytes)
    requires SLASH !in n
    ensures HasDrive(n + [SLASH] + rest) <==> HasDrive(n)
    ensures (n + [SLASH] + rest)[0] == SLASH <==> n == []
  {
    var text := n + [SLASH] + rest;
    if n != [] {
      assert text[0] == n[0] && n[0] in n;
      assert text[1] == if |n| == 1 then SLASH else n[1];
    }
  }

  /** A backslash anywhere is as good as a slash. */
  lemma BackslashIsSlash(a: Bytes, b: Bytes)
    ensures Normalize(a + [BACKSLASH] + b) == Normalize(a + [SLASH] + b)
  {
    assert Slashed(a + [BACKSLASH] + b) == Slashed(a + [SLASH] + b);
    assert 0 in a + [BACKSLASH] + b <==> 0 in a || 0 in b;
    assert 0 in a + [SLASH] + b <==> 0 in a || 0 in b;
  }
}

/** How many bytes a path takes as a JSON string, kept as it is or with everything escaped. */
module JsonText {
  import opened Base

  // ---------------------------------------------------------------- UTF-8

  predicate Continues(b: byte) {
    0x80 <= b < 0xC0
  }

  /** The length of the first character; `None` where strict UTF-8 has none. */
  function FirstChar(s: Bytes): (n: Option<nat>)
    requires s != []
    ensures n.Some? ==> 1 <= n.value <= |s| && n.value <= 4
    ensures n.Some? ==> forall i | 1 <= i < n.value :: Continues(s[i])
  {
    if s[0] < 0x80 then Some(1)
    else if 0xC2 <= s[0] < 0xE0 && |s| >= 2 && Continues(s[1]) then Some(2)
    else if 0xE0 <= s[0] < 0xF0 && |s| >= 3 && Continues(s[1]) && Continues(s[2])
         && (s[0] == 0xE0 ==> s[1] >= 0xA0) && (s[0] == 0xED ==> s[1] < 0xA0) then Some(3)
    else if 0xF0 <= s[0] < 0xF5 && |s| >= 4 && Continues(s[1]) && Continues(s[2]) && Continues(s[3])
         && (s[0] == 0xF0 ==> s[1] >= 0x90) && (s[0] == 0xF4 ==> s[1] < 0x90) then Some(4)
    else None
  }

  /** No byte would be read as a lone surrogate, so strict encoding does not raise. */
  predicate ValidUtf8(s: Bytes)
    decreases |s|
  {
    s == [] || (FirstChar(s).Some? && ValidUtf8(s[FirstChar(s).value..]))
  }

  /** A character: any code point but the surrogates. */
  type Scalar = c: nat | c < 0xD800 || 0xE000 <= c < 0x110000

  function Utf8(c: Scalar): (s: Bytes)
    ensures 1 <= |s| <= 4
  {
    if c < 0x80 then [c]
    else if c < 0x800 then [0xC0 + c / 64, 0x80 + c % 64]
    else if c < 0x10000 then [0xE0 + c / 64 / 64, 0x80 + c / 64 % 64, 0x80 + c % 64]
    else [0xF0 + c / 64 / 64 / 64, 0x80 + c / 64 / 64 % 64, 0x80 + c / 64 % 64, 0x80 + c % 64]
  }

  lemma Utf8IsFirstChar(c: Scalar, rest: Bytes)
    ensures FirstChar(Utf8(c) + rest) == Some(|Utf8(c)|)
  {
  }

  /** The first character and its length. */
  function ReadUtf8(s: Bytes): Option<(Scalar, nat)>
    requires s != []
  {
    match FirstChar(s)
    case None => None
    case Some(n) =>
      if n == 1 then Some((s[0], 1))
      else if n == 2 then Some((64 * (s[0] as int - 0xC0) + Low(s[1]), 2))
      else if n == 3 then Some((64 * (64 * (s[0] as int - 0xE0) + Low(s[1])) + Low(s[2]), 3))
      else Some((64 * (64 * (64 * (s[0] as int - 0xF0) + Low(s[1])) + Low(s[2])) + Low(s[3]), 4))
  }

  /** What a continuation byte adds. */
  function Low(b: byte): nat
    requires Continues(b)
  {
    b as int - 0x80
  }

  /** The first character of a text, if it has one, is the one whose encoding stands there. */
  lemma FirstCharIsUtf8(s: Bytes)
    requires s != [] && FirstChar(s).Some?
    ensures ReadUtf8(s).Some? && s[..FirstChar(s).value] == Utf8(ReadUtf8(s).value.0)
  {
    var n := FirstChar(s).value;
    var c := ReadUtf8(s).value.0;
    if n == 2 {
      Sextet(s[0] as int - 0xC0, Low(s[1]));
    } else if n == 3 {
      var high := 64 * (s[0] as int - 0xE0) + Low(s[1]);
      Sextet(s[0] as int - 0xE0, Low(s[1]));
      Sextet(high, Low(s[2]));
      assert 0x800 <= c < 0x10000;
    } else if n == 4 {
      var high := 64 * (s[0] as int - 0xF0) + Low(s[1]);
      Sextet(s[0] as int - 0xF0, Low(s[1]));
      Sextet(high, Low(s[2]));
      Sextet(64 * high + Low(s[2]), Low(s[3]));
      assert 0x10000 <= c;
    }
    assert |Utf8(c)| == n;
  }

  lemma Sextet(high: nat, low: nat)
    requires low < 64
    ensures (64 * high + low) / 64 == high && (64 * high + low) % 64 == low
  {
  }

  lemma Utf8IsRead(c: Scalar, rest: Bytes)
    ensures ReadUtf8(Utf8(c) + rest) == Some((c, |Utf8(c)|))
  {
    Utf8IsFirstChar(c, rest);
  }

  function Utf8Text(cs: seq<Scalar>): Bytes {
    if cs == [] then [] else Utf8(cs[0]) + Utf8Text(cs[1..])
  }

  lemma {:induction false} Utf8TextIsValid(cs: seq<Scalar>)
    ensures ValidUtf8(Utf8Text(cs))
  {
    if cs != [] {
      var rest := Utf8Text(cs[1..]);
      Utf8TextIsValid(cs[1..]);
      Utf8IsFirstChar(cs[0], rest);
      assert (Utf8(cs[0]) + rest)[|Utf8(cs[0])|..] == rest;
    }
  }

  lemma {:induction false} ValidHasCharacters(s: Bytes) returns (cs: seq<Scalar>)
    requires ValidUtf8(s)
    ensures s == Utf8Text(cs)
    decreases |s|
  {
    cs := [];
    if s != [] {
      FirstCharIsUtf8(s);
      var n := FirstChar(s).value;
      var rest := ValidHasCharacters(s[n..]);
      cs := [ReadUtf8(s).value.0] + rest;
      assert cs[1..] == rest && s == s[..n] + s[n..];
    }
  }

  /** Valid texts are exactly the encodings of sequences of characters. */
  lemma ValidIsUtf8(s: Bytes)
    ensures ValidUtf8(s) <==> exists cs :: s == Utf8Text(cs)
  {
    if ValidUtf8(s) {
      var cs := ValidHasCharacters(s);
    }
    if cs :| s == Utf8Text(cs) {
      Utf8TextIsValid(cs);
    }
  }

  // ---------------------------------------------------------------- JSON strings

  const QUOTE: byte := 0x22
  const ESCAPE: byte := 0x5C

  /** The letter after the backslash, for the characters that have a short escape. */
  function ShortEscape(c: nat): Option<byte> {
    if c == 0x22 then Some(0x22)
    else if c == 0x5C then Some(0x5C)
    else if c == 0x08 then Some(0x62)
    else if c == 0x09 then Some(0x74)
    else if c == 0x0A then Some(0x6E)
    else if c == 0x0C then Some(0x66)
    else if c == 0x0D then Some(0x72)
    else None
  }

  function HexDigit(n: nat): byte
    requires n < 16
  {
    if n < 10 then 0x30 + n else 0x57 + n
  }

  /** `\uXXXX`. */
  function Unit(n: nat): (s: Bytes)
    requires n < 0x10000
    ensures |s| == 6
  {
    [ESCAPE, 0x75, HexDigit(n / 16 / 16 / 16), HexDigit(n / 16 / 16 % 16), HexDigit(n / 16 % 16), HexDigit(n % 16)]
  }

  /** One character with `ensure_ascii=False`. */
  function Kept(c: Scalar): Bytes {
    if ShortEscape(c).Some? then [ESCAPE, ShortEscape(c).value]
    else if c < 0x20 then Unit(c)
    else Utf8(c)
  }

  /** One character in pure ASCII, with two units for one beyond the basic plane. */
  function Escaped(c: Scalar): Bytes {
    if ShortEscape(c).Some? then [ESCAPE, ShortEscape(c).value]
    else if 0x20 <= c < 0x7F then [c]
    else if c < 0x10000 then Unit(c)
    else Unit(0xD800 + (c - 0x10000) / 1024) + Unit(0xDC00 + (c - 0x10000) % 1024)
  }

  function Text(render: Scalar -> Bytes, cs: seq<Scalar>): Bytes {
    if cs == [] then [] else render(cs[0]) + Text(render, cs[1..])
  }

  function Quoted(body: Bytes): Bytes {
    [QUOTE] + body + [QUOTE]
  }

  function HexValue(b: byte): Option<nat> {
    if 0x30 <= b <= 0x39 then Some(b - 0x30)
    else if 0x61 <= b <= 0x66 then Some(b - 0x57)
    else if 0x41 <= b <= 0x46 then Some(b - 0x37)
    else None
  }

  /** The number after `\u`. */
  function ReadUnit(s: Bytes): (r: Option<nat>)
    ensures r.Some? ==> |s| >= 6 && r.value < 0x10000
  {
    if |s| < 6 || s[0] != ESCAPE || s[1] != 0x75 then None
    else
      match (HexValue(s[2]), HexValue(s[3]), HexValue(s[4]), HexValue(s[5]))
      case (Some(a), Some(b), Some(c), Some(d)) => Some(16 * (16 * (16 * a + b) + c) + d)
      case _ => None
  }

  function ReadShort(b: byte): Option<Scalar> {
    if b == 0x22 || b == 0x5C || b == 0x2F then Some(b)
    else if b == 0x62 then Some(0x08)
    else if b == 0x66 then Some(0x0C)
    else if b == 0x6E then Some(0x0A)
    else if b == 0x72 then Some(0x0D)
    else if b == 0x74 then Some(0x09)
    else None
  }

  /** What a JSON reader makes of the front of a string's body: a character and how many bytes it took. */
  function ReadChar(s: Bytes): (r: Option<(Scalar, nat)>)
    requires s != []
    ensures r.Some? ==> 1 <= r.value.1 <= |s|
  {
    if s[0] < 0x20 || s[0] == QUOTE then None
    else if s[0] != ESCAPE then ReadUtf8(s)
    else if |s| >= 2 && ReadShort(s[1]).Some? then Some((ReadShort(s[1]).value, 2))
    else
      match ReadUnit(s)
      case None => None
      case Some(u) =>
        if u < 0xD800 || 0xE000 <= u then Some((u, 6))
        else
          match ReadUnit(s[6..])
          case None => None
          case Some(v) =>
            if u < 0xDC00 && 0xDC00 <= v < 0xE000 then Some((0x10000 + (u - 0xD800) * 1024 + (v - 0xDC00), 12))
            else None
  }

  lemma UnitIsRead(n: nat, rest: Bytes)
    requires n < 0x10000
    ensures ReadUnit(Unit(n) + rest) == Some(n)
  {
    var s := Unit(n) + rest;
    assert s[..6] == Unit(n);
    forall d: nat | d < 16 ensures HexValue(HexDigit(d)) == Some(d) {
    }
    assert HexValue(s[2]) == Some(n / 16 / 16 / 16) && HexValue(s[3]) == Some(n / 16 / 16 % 16);
    assert HexValue(s[4]) == Some(n / 16 % 16) && HexValue(s[5]) == Some(n % 16);
  }

  /** Both forms of a character read back as that character, whatever follows. */
  lemma CharRoundTrip(c: Scalar, rest: Bytes)
    ensures ReadChar(Kept(c) + rest) == Some((c, |Kept(c)|))
    ensures ReadChar(Escaped(c) + rest) == Some((c, |Escaped(c)|))
  {
    Utf8IsRead(c, rest);
    if ShortEscape(c).None? {
      if c < 0x10000 {
        UnitIsRead(c, rest);
      } else {
        PairIsRead(c, rest);
      }
    }
  }

  lemma PairIsRead(c: Scalar, rest: Bytes)
    requires c >= 0x10000
    ensures ReadChar(Escaped(c) + rest) == Some((c, |Escaped(c)|))
  {
    var u, v := 0xD800 + (c - 0x10000) / 1024, 0xDC00 + (c - 0x10000) % 1024;
    UnitIsRead(u, Unit(v) + rest);
    UnitIsRead(v, rest);
    assert Escaped(c) + rest == Unit(u) + (Unit(v) + rest);
    assert (Unit(u) + (Unit(v) + rest))[6..] == Unit(v) + rest;
  }

  function ReadText(s: Bytes): Option<seq<Scalar>>
    decreases |s|
  {
    if s == [] then Some([])
    else
      match ReadChar(s)
      case None => None
      case Some((c, n)) =>
        match ReadText(s[n..])
        case None => None
        case Some(rest) => Some([c] + rest)
  }

  /** A reader gets the text back from both forms. */
  lemma {:induction false} TextRoundTrip(cs: seq<Scalar>)
    ensures ReadText(Text(Kept, cs)) == Some(cs) && ReadText(Text(Escaped, cs)) == Some(cs)
  {
    if cs != [] {
      TextRoundTrip(cs[1..]);
      var kept, escaped := Text(Kept, cs[1..]), Text(Escaped, cs[1..]);
      CharRoundTrip(cs[0], kept);
      CharRoundTrip(cs[0], escaped);
      assert (Kept(cs[0]) + kept)[|Kept(cs[0])|..] == kept;
      assert (Escaped(cs[0]) + escaped)[|Escaped(cs[0])|..] == escaped;
      assert cs == [cs[0]] + cs[1..];
    }
  }

  function ReadString(s: Bytes): Option<seq<Scalar>> {
    if |s| >= 2 && s[0] == QUOTE && s[|s| - 1] == QUOTE then ReadText(s[1..|s| - 1]) else None
  }

  lemma StringRoundTrip(cs: seq<Scalar>)
    ensures ReadString(Quoted(Text(Kept, cs))) == Some(cs) && ReadString(Quoted(Text(Escaped, cs))) == Some(cs)
  {
    TextRoundTrip(cs);
    forall body: Bytes ensures Quoted(body)[1..|Quoted(body)| - 1] == body {
    }
  }

  // ---------------------------------------------------------------- sizes

  /** What a byte adds to a JSON string that keeps other characters as they are. */
  function KeptSize(b: byte): nat {
    if b == 0x22 || b == 0x5C || b == 0x08 || b == 0x09 || b == 0x0A || b == 0x0C || b == 0x0D then 2
    else if b < 0x20 then 6
    else 1
  }

  /** What it adds to one that is pure ASCII: six for a character, twelve for one beyond the basic plane. */
  function EscapedSize(b: byte): nat {
    if b < 0x7F then KeptSize(b)
    else if Continues(b) then 0
    else if b < 0xF0 then 6
    else 12
  }

  function Total(size: byte -> nat, s: Bytes): nat {
    if s == [] then 0 else size(s[0]) + Total(size, s[1..])
  }

  lemma {:induction false} TotalOfParts(size: byte -> nat, a: Bytes, b: Bytes)
    ensures Total(size, a + b) == Total(size, a) + Total(size, b)
    decreases |a|
  {
    if a == [] {
      assert a + b == b;
    } else {
      assert (a + b)[0] == a[0] && (a + b)[1..] == a[1..] + b;
      TotalOfParts(size, a[1..], b);
    }
  }

  lemma {:induction false} TotalOfSame(size: byte -> nat, b: byte, n: nat)
    ensures Total(size, seq(n, _ => b)) == size(b) * n
  {
    if n > 0 {
      assert seq(n, _ => b)[1..] == seq(n - 1, _ => b);
      TotalOfSame(size, b, n - 1);
    }
  }

  lemma {:induction false} KeptIsNoShorter(s: Bytes)
    ensures |s| <= Total(KeptSize, s)
  {
    if s != [] {
      KeptIsNoShorter(s[1..]);
    }
  }

  lemma CharGrowth(c: Bytes)
    requires c != [] && FirstChar(c) == Some(|c|)
    ensures Total(EscapedSize, c) <= 6 * Total(KeptSize, c)
  {
    Rest(c, 1);
    if |c| > 1 {
      Rest(c, 2);
      if |c| > 2 {
        Rest(c, 3);
        if |c| > 3 {
          Rest(c, 4);
        }
      }
    }
  }

  lemma Rest(c: Bytes, i: nat)
    requires 0 < i <= |c|
    ensures Total(EscapedSize, c[i - 1..]) == EscapedSize(c[i - 1]) + Total(EscapedSize, c[i..])
    ensures Total(KeptSize, c[i - 1..]) == KeptSize(c[i - 1]) + Total(KeptSize, c[i..])
    ensures c[0..] == c && c[|c|..] == []
  {
    assert c[i - 1..][1..] == c[i..];
  }

  lemma FirstAlone(s: Bytes)
    requires s != [] && FirstChar(s).Some?
    ensures FirstChar(s[..FirstChar(s).value]) == FirstChar(s)
  {
  }

  /** Escaping makes valid text at most six times as long. */
  lemma {:induction false} EscapedGrowth(s: Bytes)
    requires ValidUtf8(s)
    ensures Total(EscapedSize, s) <= 6 * Total(KeptSize, s)
    decreases |s|
  {
    if s != [] {
      var n := FirstChar(s).value;
      FirstAlone(s);
      CharGrowth(s[..n]);
      EscapedGrowth(s[n..]);
      assert s == s[..n] + s[n..];
      TotalOfParts(EscapedSize, s[..n], s[n..]);
      TotalOfParts(KeptSize, s[..n], s[n..]);
    }
  }

  // ---------------------------------------------------------------- sizes are lengths

  lemma CharSizes(c: Scalar)
    ensures Total(KeptSize, Utf8(c)) == |Kept(c)| && Total(EscapedSize, Utf8(c)) == |Escaped(c)|
  {
    var s := Utf8(c);
    Rest(s, 1);
    if |s| > 1 {
      Rest(s, 2);
      if |s| > 2 {
        Rest(s, 3);
        if |s| > 3 {
          Rest(s, 4);
        }
      }
    }
  }

  /** The sizes are the lengths of the two JSON forms of the text. */
  lemma {:induction false} SizesAreLengths(cs: seq<Scalar>)
    ensures Total(KeptSize, Utf8Text(cs)) == |Text(Kept, cs)|
    ensures Total(EscapedSize, Utf8Text(cs)) == |Text(Escaped, cs)|
  {
    if cs != [] {
      CharSizes(cs[0]);
      SizesAreLengths(cs[1..]);
      TotalOfParts(KeptSize, Utf8(cs[0]), Utf8Text(cs[1..]));
      TotalOfParts(EscapedSize, Utf8(cs[0]), Utf8Text(cs[1..]));
    }
  }
}

/**
 The overflow codec of the file-digest cache: five stat integers as one canonical decimal
 payload whenever one of them does not fit an SQLite INTEGER column.
 */
module MetadataCodecs {
  import opened Base
  import opened PathText
  import Encoding

  // ---------------------------------------------------------------- decimal text

  const MINUS: byte := 45
  const PLUS: byte := 43
  const COMMA: byte := 44
  const UNDERSCORE: byte := 95
  const ZERO: byte := 48

  predicate IsDigit(b: byte) {
    ZERO <= b <= ZERO + 9
  }

  function Digits(n: nat): (r: Bytes)
    ensures |r| > 0 && forall b :: b in r ==> IsDigit(b)
  {
    if n < 10 then [ZERO + n] else Digits(n / 10) + [ZERO + n % 10]
  }

  /** `str(n)`. */
  function Decimal(n: int): Bytes {
    if n < 0 then [MINUS] + Digits(-n) else Digits(n)
  }

  /** A run of digits, single underscores allowed between two of them. */
  function DigitsValue(s: Bytes): Option<int> {
    if s == [] || !IsDigit(s[|s| - 1]) then None
    else
      var front := s[..|s| - 1];
      var d := s[|s| - 1] - ZERO;
      if front == [] then Some(d)
      else
        match DigitsValue(if front[|front| - 1] == UNDERSCORE then front[..|front| - 1] else front)
        case None => None
        case Some(v) => Some(10 * v + d)
  }

  function StripLeft(s: Bytes): Bytes {
    if s != [] && IsSpace(s[0]) then StripLeft(s[1..]) else s
  }

  function StripRight(s: Bytes): Bytes {
    if s != [] && IsSpace(s[|s| - 1]) then StripRight(s[..|s| - 1]) else s
  }

  /** `int(text)` for ASCII text; `None` where it raises ValueError. */
  function IntOf(text: Bytes): Option<int> {
    var t := StripRight(StripLeft(text));
    if t == [] then None
    else if t[0] == MINUS then
      match DigitsValue(t[1..]) case None => None case Some(v) => Some(-v)
    else if t[0] == PLUS then
      match DigitsValue(t[1..]) case None => None case Some(v) => Some(v)
    else
      match DigitsValue(t) case None => None case Some(v) => Some(v)
  }

  lemma {:induction false} DigitsRoundTrip(n: nat)
    ensures DigitsValue(Digits(n)) == Some(n)
    decreases n
  {
    if n >= 10 {
      DigitsRoundTrip(n / 10);
      var front := Digits(n / 10);
      assert Digits(n)[..|Digits(n)| - 1] == front;
      assert front[|front| - 1] in front;
    }
  }

  lemma NothingToStrip(s: Bytes)
    requires s != [] && !IsSpace(s[0]) && !IsSpace(s[|s| - 1])
    ensures StripRight(StripLeft(s)) == s
  {
  }

  lemma DecimalRoundTrip(n: int)
    ensures IntOf(Decimal(n)) == Some(n)
  {
    var d := if n < 0 then Digits(-n) else Digits(n);
    assert d[0] in d && d[|d| - 1] in d;
    NothingToStrip(Decimal(n));
    DigitsRoundTrip(if n < 0 then -n else n);
    assert n < 0 ==> Decimal(n)[1..] == d;
  }

  // ---------------------------------------------------------------- lengths

  function PowerOfTen(k: nat): (p: nat)
    ensures p > 0
  {
    if k == 0 then 1 else 10 * PowerOfTen(k - 1)
  }

  /** An integer prints in at most `k` digits exactly when it is below ten to the power `k`. */
  lemma {:induction false} DigitCount(n: nat, k: nat)
    requires k > 0
    ensures |Digits(n)| <= k <==> n < PowerOfTen(k)
    decreases k
  {
    if k == 1 {
      assert PowerOfTen(1) == 10;
    } else if n >= 10 {
      DigitCount(n / 10, k - 1);
    } else {
      assert PowerOfTen(k) == 10 * (10 * PowerOfTen(k - 2));
    }
  }

  // ---------------------------------------------------------------- the codec

  const FIELD_COUNT: nat := 5
  const INTEGER_MAX_CHARS: nat := 128
  const OVERFLOW_MAX_BYTES: nat := 644

  /** Device, inode, size, modification time, change time. */
  type Fields = s: seq<int> | |s| == 5 witness [0, 0, 0, 0, 0]

  datatype CodecError = TooLarge | BadPayload | NotAscii | BadCount | BadInteger | NothingOverflows | Negative

  /** The integer columns, and the payload that overrides them when present. */
  datatype Columns = Columns(stored: Fields, overflow: Option<Bytes>)

  predicate IsSqliteInteger(n: int) {
    -0x8000_0000_0000_0000 <= n <= 0x7fff_ffff_ffff_ffff
  }

  predicate AllSqlite(values: Fields) {
    forall i | 0 <= i < 5 :: IsSqliteInteger(values[i])
  }

  function Texts(values: Fields): (r: seq<Bytes>)
    ensures |r| == 5
  {
    seq(5, i requires 0 <= i < 5 => Decimal(values[i]))
  }

  function Payload(values: Fields): Bytes {
    Join(COMMA, Texts(values))
  }

  /** What a column holds: the value itself, or 0 where it would not bind. */
  function Placeholders(values: Fields): Fields {
    seq(5, i requires 0 <= i < 5 => if IsSqliteInteger(values[i]) then values[i] else 0)
  }

  /** `encode_metadata_fields`. */
  function Encode(values: Fields): Result<Columns, CodecError> {
    if AllSqlite(values) then Ok(Columns(values, None))
    else if |Payload(values)| > OVERFLOW_MAX_BYTES then Err(TooLarge)
    else Ok(Columns(Placeholders(values), Some(Payload(values))))
  }

  predicate Ascii(s: Bytes) {
    forall b :: b in s ==> b < 128
  }

  /** `_decode_integer`. */
  function DecodeInteger(text: Bytes): Option<int> {
    if text == [] || |text| > INTEGER_MAX_CHARS then None
    else match IntOf(text)
      case None => None
      case Some(n) => if Decimal(n) == text then Some(n) else None
  }

  /** `decode_overflow_metadata` on a byte payload. */
  function Decode(payload: Bytes): Result<Fields, CodecError> {
    if payload == [] || |payload| > OVERFLOW_MAX_BYTES then Err(BadPayload)
    else if !Ascii(payload) then Err(NotAscii)
    else DecodeParts(Split(COMMA, payload))
  }

  function DecodeParts(parts: seq<Bytes>): Result<Fields, CodecError> {
    if |parts| != FIELD_COUNT then Err(BadCount)
    else if exists i | 0 <= i < 5 :: DecodeInteger(parts[i]).None? then Err(BadInteger)
    else
      var values: Fields := seq(5, i requires 0 <= i < 5 => DecodeInteger(parts[i]).value);
      if AllSqlite(values) then Err(NothingOverflows) else Ok(values)
  }

  predicate Short(n: int) {
    |Decimal(n)| <= INTEGER_MAX_CHARS
  }

  predicate AllShort(values: Fields) {
    forall i | 0 <= i < 5 :: Short(values[i])
  }

  /** A text decodes to `n` exactly when it is the canonical print of `n` and short enough. */
  lemma DecodeIntegerIsExact(text: Bytes, n: int)
    ensures DecodeInteger(text) == Some(n) <==> text == Decimal(n) && Short(n)
  {
    DecimalRoundTrip(n);
  }

  lemma DecimalIsPlain(n: int)
    ensures |Decimal(n)| > 0 && COMMA !in Decimal(n) && Ascii(Decimal(n))
  {
  }

  lemma SqliteIsShort(n: int)
    requires IsSqliteInteger(n)
    ensures |Decimal(n)| <= 20
  {
    assert PowerOfTen(6) == 1000000;
    assert PowerOfTen(12) == 1000000000000;
    assert PowerOfTen(19) == 10000000000000000000;
    DigitCount(if n < 0 then -n else n, 19);
  }

  lemma {:induction false} JoinIsPlain(parts: seq<Bytes>)
    requires forall p :: p in parts ==> Ascii(p)
    ensures Ascii(Join(COMMA, parts))
    decreases |parts|
  {
    if |parts| > 1 {
      JoinIsPlain(parts[1..]);
      assert Ascii(parts[0]);
    } else if |parts| == 1 {
      assert Ascii(parts[0]);
    }
  }

  lemma {:induction false} JoinIsBounded(parts: seq<Bytes>, bound: nat)
    requires |parts| > 0 && forall p :: p in parts ==> |p| <= bound
    ensures |Join(COMMA, parts)| <= bound * |parts| + |parts| - 1
    decreases |parts|
  {
    if |parts| > 1 {
      JoinIsBounded(parts[1..], bound);
      assert bound * |parts| == bound + bound * |parts[1..]|;
    }
  }

  lemma PayloadSplits(values: Fields)
    ensures Split(COMMA, Payload(values)) == Texts(values)
    ensures Payload(values) != [] && Ascii(Payload(values))
    ensures AllShort(values) ==> |Payload(values)| <= OVERFLOW_MAX_BYTES
  {
    var parts := Texts(values);
    forall p | p in parts ensures COMMA !in p && Ascii(p) {
      var i :| 0 <= i < 5 && p == Decimal(values[i]);
      DecimalIsPlain(values[i]);
    }
    SplitOfJoin(COMMA, parts);
    JoinIsPlain(parts);
    DecimalIsPlain(values[0]);
    if AllShort(values) {
      JoinIsBounded(parts, INTEGER_MAX_CHARS);
    }
  }

  lemma TextsDecode(values: Fields)
    ensures DecodeParts(Texts(values)) ==
      if !AllShort(values) then Err(BadInteger) else if AllSqlite(values) then Err(NothingOverflows) else Ok(values)
  {
    var parts := Texts(values);
    forall i | 0 <= i < 5 ensures DecodeInteger(parts[i]) == if Short(values[i]) then Some(values[i]) else None {
      ShortDecodes(values[i]);
    }
    if AllShort(values) {
      assert seq(5, i requires 0 <= i < 5 => DecodeInteger(parts[i]).value) == values;
    } else {
      var i :| 0 <= i < 5 && !Short(values[i]);
      assert DecodeInteger(parts[i]).None?;
    }
  }

  lemma ShortDecodes(n: int)
    ensures DecodeInteger(Decimal(n)) == if Short(n) then Some(n) else None
  {
    DecimalRoundTrip(n);
    DecimalIsPlain(n);
  }

  /**
   Decoding an encoded payload gives the tuple back exactly when every integer prints in at
   most 128 characters, which encoding does not check; it never gives another tuple.
   */
  lemma DecodeOfEncode(values: Fields)
    requires Encode(values).Ok? && Encode(values).value.overflow.Some?
    ensures var payload := Encode(values).value.overflow.value;
            && (Decode(payload) == Ok(values) <==> AllShort(values))
            && (Decode(payload).Ok? ==> Decode(payload) == Ok(values))
  {
    PayloadSplits(values);
    TextsDecode(values);
  }

  /** Encoding fails exactly on tuples that need a payload longer than its bound. */
  lemma EncodeFailure(values: Fields)
    ensures Encode(values).Err? <==> !AllSqlite(values) && |Payload(values)| > OVERFLOW_MAX_BYTES
    ensures AllShort(values) ==> Encode(values).Ok?
    ensures Encode(values).Ok? ==> AllSqlite(Encode(values).value.stored)
    ensures Encode(values).Ok? ==> forall i | 0 <= i < 5 && IsSqliteInteger(values[i]) ::
              Encode(values).value.stored[i] == values[i]
  {
    PayloadSplits(values);
  }

  /** Whatever decoding accepts is the canonical payload of the tuple it decodes to. */
  lemma EncodeOfDecode(payload: Bytes)
    requires Decode(payload).Ok?
    ensures var values := Decode(payload).value;
            && Encode(values) == Ok(Columns(Placeholders(values), Some(payload)))
            && AllShort(values) && !AllSqlite(values)
  {
    var values := Decode(payload).value;
    var parts := Split(COMMA, payload);
    forall i | 0 <= i < 5 ensures parts[i] == Decimal(values[i]) && Short(values[i]) {
      DecodeIntegerIsExact(parts[i], values[i]);
    }
    assert Texts(values) == parts;
    JoinOfSplit(COMMA, payload);
  }

  /** The integers SQLite holds are those of eight bytes in two's complement. */
  lemma SqliteIsEightBytes(n: int)
    ensures IsSqliteInteger(n) <==> 0 <= 2 * n + Encoding.Capacity(8) < 2 * Encoding.Capacity(8)
  {
    assert Encoding.Capacity(4) == 0x1_0000_0000;
  }

  /** Before its five integers are looked at, a payload is refused for its length, or as not ASCII. */
  lemma PayloadRefusals(payload: Bytes)
    ensures Decode(payload) == Err(BadPayload) <==> |payload| == 0 || |payload| > OVERFLOW_MAX_BYTES
    ensures Decode(payload) == Err(NotAscii) <==>
            0 < |payload| <= OVERFLOW_MAX_BYTES && exists b :: b in payload && b >= 0x80
  {
  }

  lemma {:induction false} StripSpaces(a: Bytes, s: Bytes, b: Bytes)
    requires forall c :: c in a + b ==> IsSpace(c)
    requires s != [] && !IsSpace(s[0]) && !IsSpace(s[|s| - 1])
    ensures StripRight(StripLeft(a + s + b)) == s
    decreases |a| + |b|
  {
    var t := a + s + b;
    if a != [] {
      assert t[0] == a[0] && a[0] in a + b && t[1..] == a[1..] + s + b;
      assert forall c :: c in a[1..] + b ==> c in a + b;
      StripSpaces(a[1..], s, b);
    } else if b != [] {
      assert t[|t| - 1] == b[|b| - 1] && b[|b| - 1] in a + b && t[..|t| - 1] == a + s + b[..|b| - 1];
      assert forall c :: c in a + b[..|b| - 1] ==> c in a + b;
      StripSpaces(a, s, b[..|b| - 1]);
      assert StripLeft(t) == t && StripLeft(t[..|t| - 1]) == t[..|t| - 1];
    } else {
      assert t == s;
    }
  }

  lemma {:induction false} DigitAfter(front: Bytes, d: byte)
    requires front != [] && IsDigit(d)
    ensures DigitsValue(front + [d]) ==
            match DigitsValue(if front[|front| - 1] == UNDERSCORE then front[..|front| - 1] else front)
            case None => None
            case Some(v) => Some(10 * v + (d as int - 0x30))
  {
    assert (front + [d])[..|front|] == front;
  }

  /** One more digit; one underscore before it changes nothing, two are too many. */
  lemma {:induction false} OneMoreDigit(s: Bytes, d: byte)
    requires s != [] && s[|s| - 1] != UNDERSCORE && IsDigit(d)
    ensures DigitsValue(s).Some? ==> DigitsValue(s + [d]) == Some(10 * DigitsValue(s).value + (d as int - 0x30))
    ensures DigitsValue(s + [UNDERSCORE] + [d]) == DigitsValue(s + [d])
    ensures DigitsValue(s + [UNDERSCORE, UNDERSCORE] + [d]) == None
  {
    DigitAfter(s, d);
    DigitAfter(s + [UNDERSCORE], d);
    assert (s + [UNDERSCORE])[..|s|] == s;
    DigitAfter(s + [UNDERSCORE, UNDERSCORE], d);
    assert (s + [UNDERSCORE, UNDERSCORE])[..|s| + 1] == s + [UNDERSCORE];
  }

  /**
   `int` reads more than `str` prints: spaces around, a plus sign. Decoding reads with `int` and
   refuses all of it, for only what is printed again comes back.
   */
  lemma LenientTextsAreRefused(n: nat, a: Bytes, b: Bytes)
    requires forall c :: c in a + b ==> IsSpace(c)
    ensures IntOf(a + Digits(n) + b) == Some(n) == IntOf(a + [PLUS] + Digits(n) + b)
    ensures DecodeInteger(a + [PLUS] + Digits(n) + b).None?
    ensures a + b != [] ==> DecodeInteger(a + Digits(n) + b).None?
  {
    var d := Digits(n);
    assert d[0] in d && d[|d| - 1] in d;
    StripSpaces(a, d, b);
    DigitsRoundTrip(n);
    StripSpaces(a, [PLUS] + d, b);
    assert a + ([PLUS] + d) + b == a + [PLUS] + d + b && ([PLUS] + d)[1..] == d;
    assert |a + [PLUS] + d + b| > |d| && (a + b != [] ==> |a + d + b| > |d|);
  }

  lemma OneByteIntegers(b: byte)
    ensures IntOf([b]) == if 0x30 <= b <= 0x39 then Some(b as int - 0x30) else None
  {
    assert [b][1..] == [] && [b][..0] == [];
    if IsSpace(b) {
      assert StripLeft([b]) == StripLeft([b][1..]);
    } else {
      NothingToStrip([b]);
    }
  }

  lemma DigitsGrow(k: nat)
    ensures |Digits(PowerOfTen(k))| == k + 1
  {
    DigitCount(PowerOfTen(k), k + 1);
    if k > 0 {
      DigitCount(PowerOfTen(k), k);
    }
  }

  lemma JoinOfFive(parts: seq<Bytes>)
    requires |parts| == 5
    ensures |Join(COMMA, parts)| == |parts[0]| + |parts[1]| + |parts[2]| + |parts[3]| + |parts[4]| + 4
  {
    var b := parts[1..];
    var c := b[1..];
    var d := c[1..];
    assert |Join(COMMA, d)| == |parts[3]| + 1 + |parts[4]|;
    assert |Join(COMMA, c)| == |parts[2]| + 1 + |Join(COMMA, d)|;
    assert |Join(COMMA, b)| == |parts[1]| + 1 + |Join(COMMA, c)|;
  }

  lemma LongFieldIsStuck(n: int)
    requires INTEGER_MAX_CHARS < |Decimal(n)| <= 636
    ensures var values: Fields := [n, 0, 0, 0, 0];
            && Encode(values) == Ok(Columns([0, 0, 0, 0, 0], Some(Payload(values))))
            && Decode(Payload(values)) == Err(BadInteger)
  {
    var values: Fields := [n, 0, 0, 0, 0];
    if IsSqliteInteger(n) {
      SqliteIsShort(n);
      assert false;
    }
    assert Placeholders(values) == [0, 0, 0, 0, 0];
    JoinOfFive(Texts(values));
    PayloadSplits(values);
    TextsDecode(values);
    assert !Short(values[0]) && !IsSqliteInteger(values[0]);
  }

  lemma IntegerOfLength(k: nat) returns (n: int)
    ensures |Decimal(n)| == k + 1
  {
    n := PowerOfTen(k);
    DigitsGrow(k);
  }

  /** The gap is real: ten to the power 128 encodes, and its own payload does not decode. */
  lemma EncodeAcceptsWhatDecodeRejects()
    ensures exists values: Fields :: Encode(values).Ok? && Encode(values).value.overflow == Some(Payload(values))
                                     && Decode(Payload(values)) == Err(BadInteger)
  {
    var n := IntegerOfLength(INTEGER_MAX_CHARS);
    LongFieldIsStuck(n);
    var values: Fields := [n, 0, 0, 0, 0];
    assert Decode(Payload(values)) == Err(BadInteger);
  }
}

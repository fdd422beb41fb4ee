/** JavaScript strings as UTF-16 code units, and UTF-8 (section 3 of RFC 3629) as TextEncoder and
    TextDecoder have it. */
module Utf8 {
  import opened Bytes
  import opened Sequences

  type Unit = u: int | 0 <= u < 0x1_0000
  type text = seq<Unit>

  predicate High(u: int) {
    0xD800 <= u < 0xDC00
  }

  predicate Low(u: int) {
    0xDC00 <= u < 0xE000
  }

  predicate Surrogate(u: int) {
    0xD800 <= u < 0xE000
  }

  type Scalar = c: int | 0 <= c < 0x11_0000 && !Surrogate(c)

  const REPLACEMENT: Scalar := 0xFFFD
  const BYTE_ORDER_MARK: Scalar := 0xFEFF

  predicate Paired(s: text) {
    |s| >= 2 && High(s[0]) && Low(s[1])
  }

  function Combine(high: Unit, low: Unit): Scalar
    requires High(high) && Low(low)
  {
    0x1_0000 + (high - 0xD800) * 0x400 + (low - 0xDC00)
  }

  /** The conversion to scalar values: each lone surrogate becomes U+FFFD. */
  function Scalars(s: text): seq<Scalar>
    decreases |s|
  {
    if s == [] then []
    else if Paired(s) then [Combine(s[0], s[1])] + Scalars(s[2..])
    else if Surrogate(s[0]) then [REPLACEMENT] + Scalars(s[1..])
    else [s[0]] + Scalars(s[1..])
  }

  /** String.prototype.isWellFormed: no surrogate is alone. */
  predicate WellFormed(s: text)
    decreases |s|
  {
    if s == [] then true
    else if Paired(s) then WellFormed(s[2..])
    else !Surrogate(s[0]) && WellFormed(s[1..])
  }

  function UnitsOf(c: Scalar): text {
    if c < 0x1_0000 then [c] else [0xD800 + (c - 0x1_0000) / 0x400, 0xDC00 + (c - 0x1_0000) % 0x400]
  }

  function Units(v: seq<Scalar>): text {
    if v == [] then [] else UnitsOf(v[0]) + Units(v[1..])
  }

  function EncodeScalar(c: Scalar): (b: bytes)
    ensures 1 <= |b| <= 4
  {
    if c < 0x80 then [c]
    else if c < 0x800 then [0xC0 + c / 64, 0x80 + c % 64]
    else if c < 0x1_0000 then [0xE0 + c / 64 / 64, 0x80 + c / 64 % 64, 0x80 + c % 64]
    else [0xF0 + c / 64 / 64 / 64, 0x80 + c / 64 / 64 % 64, 0x80 + c / 64 % 64, 0x80 + c % 64]
  }

  function Encode(v: seq<Scalar>): bytes {
    if v == [] then [] else EncodeScalar(v[0]) + Encode(v[1..])
  }

  predicate Within(b: bytes, i: nat, low: int, high: int) {
    i < |b| && low <= b[i] <= high
  }

  /** Six more bits, from a continuation byte. */
  function Join(high: nat, continuation: byte): nat {
    high * 64 + continuation % 64
  }

  /** The first scalar value of a non-empty input and the bytes it takes.  A sequence that breaks off gives
      one U+FFFD for its valid beginning, and the offending byte is looked at again. */
  function DecodeFirst(b: bytes): (r: (Scalar, nat))
    requires b != []
    ensures 1 <= r.1 <= |b|
  {
    var x := b[0];
    if x < 0x80 then (x, 1)
    else if 0xC2 <= x <= 0xDF then
      if !Within(b, 1, 0x80, 0xBF) then (REPLACEMENT, 1)
      else (Join(x % 32, b[1]), 2)
    else if 0xE0 <= x <= 0xEF then
      if !Within(b, 1, if x == 0xE0 then 0xA0 else 0x80, if x == 0xED then 0x9F else 0xBF) then (REPLACEMENT, 1)
      else if !Within(b, 2, 0x80, 0xBF) then (REPLACEMENT, 2)
      else (Join(Join(x % 16, b[1]), b[2]), 3)
    else if 0xF0 <= x <= 0xF4 then
      if !Within(b, 1, if x == 0xF0 then 0x90 else 0x80, if x == 0xF4 then 0x8F else 0xBF) then (REPLACEMENT, 1)
      else if !Within(b, 2, 0x80, 0xBF) then (REPLACEMENT, 2)
      else if !Within(b, 3, 0x80, 0xBF) then (REPLACEMENT, 3)
      else (Join(Join(Join(x % 8, b[1]), b[2]), b[3]), 4)
    else (REPLACEMENT, 1)
  }

  /** The decoder of the WHATWG Encoding Standard with its replacement error mode. */
  function Decode(b: bytes): seq<Scalar>
    decreases |b|
  {
    if b == [] then []
    else
      var (c, n) := DecodeFirst(b);
      [c] + Decode(b[n..])
  }

  function WithoutMark(v: seq<Scalar>): seq<Scalar> {
    if v != [] && v[0] == BYTE_ORDER_MARK then v[1..] else v
  }

  /** new TextEncoder().encode(s). */
  function TextEncode(s: text): bytes {
    Encode(Scalars(s))
  }

  /** new TextDecoder().decode(b): one leading byte order mark is dropped. */
  function TextDecode(b: bytes): text {
    Units(WithoutMark(Decode(b)))
  }

  // ----- decoding undoes encoding -----

  lemma Lead(base: int, n: int)
    requires base in {0xC0, 0xE0, 0xF0} && 0 <= n < (if base == 0xC0 then 32 else if base == 0xE0 then 16 else 8)
    ensures (base + n) % (if base == 0xC0 then 32 else if base == 0xE0 then 16 else 8) == n
  {
  }

  lemma Rejoin(c: nat, continuation: byte)
    requires continuation == 0x80 + c % 64
    ensures Join(c / 64, continuation) == c
  {
  }

  lemma First2(c: Scalar, b: bytes)
    requires 0x80 <= c < 0x800 && |b| >= 2 && b[0] == 0xC0 + c / 64 && b[1] == 0x80 + c % 64
    ensures DecodeFirst(b) == (c, 2)
  {
    Lead(0xC0, c / 64);
    Rejoin(c, b[1]);
  }

  /** The ranges of the second byte keep out overlong forms and surrogates. */
  lemma Second3(c: Scalar)
    requires 0x800 <= c < 0x1_0000
    ensures c / 64 / 64 == 0 ==> c / 64 % 64 >= 0x20
    ensures c / 64 / 64 == 13 ==> c / 64 % 64 < 0x20
  {
    var q := c / 64;
    assert q == q / 64 * 64 + q % 64;
    assert c == q * 64 + c % 64 && (c < 0xD800 || 0xE000 <= c) by {
      assert !Surrogate(c);
    }
  }

  lemma First3(c: Scalar, b: bytes)
    requires 0x800 <= c < 0x1_0000 && |b| >= 3
    requires b[0] == 0xE0 + c / 64 / 64 && b[1] == 0x80 + c / 64 % 64 && b[2] == 0x80 + c % 64
    ensures DecodeFirst(b) == (c, 3)
  {
    Lead(0xE0, c / 64 / 64);
    Second3(c);
    Rejoin(c / 64, b[1]);
    Rejoin(c, b[2]);
  }

  lemma First4(c: Scalar, b: bytes)
    requires 0x1_0000 <= c && |b| >= 4
    requires b[0] == 0xF0 + c / 64 / 64 / 64 && b[1] == 0x80 + c / 64 / 64 % 64
    requires b[2] == 0x80 + c / 64 % 64 && b[3] == 0x80 + c % 64
    ensures DecodeFirst(b) == (c, 4)
  {
    Lead(0xF0, c / 64 / 64 / 64);
    Rejoin(c / 64 / 64, b[1]);
    Rejoin(c / 64, b[2]);
    Rejoin(c, b[3]);
  }

  lemma FirstOfEncoded(c: Scalar, b: bytes)
    requires EncodeScalar(c) <= b
    ensures b != [] && DecodeFirst(b) == (c, |EncodeScalar(c)|)
  {
    var e := EncodeScalar(c);
    assert forall i :: 0 <= i < |e| ==> b[i] == e[i];
    if c < 0x80 {
    } else if c < 0x800 {
      First2(c, b);
    } else if c < 0x1_0000 {
      First3(c, b);
    } else {
      First4(c, b);
    }
  }

  lemma DecodeStep(c: Scalar, rest: bytes)
    ensures Decode(EncodeScalar(c) + rest) == [c] + Decode(rest)
  {
    var e := EncodeScalar(c);
    FirstOfEncoded(c, e + rest);
    assert (e + rest)[|e|..] == rest;
  }

  lemma {:induction false} DecodeEncode(v: seq<Scalar>)
    ensures Decode(Encode(v)) == v
  {
    if v == [] {
    } else {
      DecodeEncode(v[1..]);
      DecodeStep(v[0], Encode(v[1..]));
    }
  }

  // ----- code units and scalar values -----

  lemma UnitsOfCombine(high: Unit, low: Unit)
    requires High(high) && Low(low)
    ensures UnitsOf(Combine(high, low)) == [high, low]
  {
  }

  /** The conversion keeps the length, and changes nothing exactly when the string is well-formed. */
  lemma {:induction false} UnitsScalars(s: text)
    ensures |Units(Scalars(s))| == |s|
    ensures Units(Scalars(s)) == s <==> WellFormed(s)
    decreases |s|
  {
    if s == [] {
    } else if Paired(s) {
      UnitsScalars(s[2..]);
      UnitsOfCombine(s[0], s[1]);
      var r := Units(Scalars(s[2..]));
      assert Units(Scalars(s)) == [s[0], s[1]] + r;
      assert s == [s[0], s[1]] + s[2..];
      assert ([s[0], s[1]] + r)[2..] == r;
    } else {
      UnitsScalars(s[1..]);
      var c := if Surrogate(s[0]) then REPLACEMENT else s[0];
      var r := Units(Scalars(s[1..]));
      assert Units(Scalars(s)) == [c] + r;
      assert s == [s[0]] + s[1..];
      assert ([c] + r)[1..] == r;
    }
  }

  predicate MarkedFirst(s: text) {
    s != [] && s[0] == BYTE_ORDER_MARK
  }

  /** The whole trip: lone surrogates become U+FFFD and one leading U+FEFF is lost; any other string comes
      back as it was. */
  lemma TextRoundTripExactly(s: text)
    ensures TextDecode(TextEncode(s)) == s <==> WellFormed(s) && !MarkedFirst(s)
  {
    DecodeEncode(Scalars(s));
    UnitsScalars(s);
    if MarkedFirst(s) {
      assert Scalars(s)[1..] == Scalars(s[1..]);
      UnitsScalars(s[1..]);
    }
  }

  // ----- encoded text cut short -----

  /** A sequence that breaks off at the end of the input gives one U+FFFD. */
  lemma FirstOfTruncated(c: Scalar, m: nat)
    requires 0 < m < |EncodeScalar(c)|
    ensures DecodeFirst(EncodeScalar(c)[..m]) == (REPLACEMENT, m)
  {
    var b := EncodeScalar(c)[..m];
    assert forall i :: 0 <= i < m ==> b[i] == EncodeScalar(c)[i];
    if 0x800 <= c < 0x1_0000 {
      Second3(c);
    }
  }

  lemma TruncatedStep(c: Scalar, m: nat)
    requires 0 < m < |EncodeScalar(c)|
    ensures Decode(EncodeScalar(c)[..m]) == [REPLACEMENT]
  {
    FirstOfTruncated(c, m);
    assert EncodeScalar(c)[..m][m..] == [];
  }

  lemma TakeWithin(e: bytes, rest: bytes, n: nat)
    requires n <= |e + rest|
    ensures (e + rest)[..n] == if n < |e| then e[..n] else e + rest[..n - |e|]
  {
  }

  /** Cut before its end, encoded text decodes to fewer scalar values, and a U+FFFD if the cut fell inside
      one. */
  lemma {:induction false} DecodeCut(v: seq<Scalar>, n: nat) returns (k: nat, mark: bool)
    requires n < |Encode(v)|
    ensures k < |v|
    ensures Decode(Encode(v)[..n]) == v[..k] + (if mark then [REPLACEMENT] else [])
  {
    var e, rest := EncodeScalar(v[0]), Encode(v[1..]);
    TakeWithin(e, rest, n);
    if n == 0 {
      k, mark := 0, false;
    } else if n < |e| {
      k, mark := 0, true;
      TruncatedStep(v[0], n);
    } else {
      k, mark := DecodeCut(v[1..], n - |e|);
      DecodeStep(v[0], rest[..n - |e|]);
      TakeCons(v, k, if mark then [REPLACEMENT] else []);
      k := k + 1;
    }
  }

  lemma TakeCons(v: seq<Scalar>, k: nat, last: seq<Scalar>)
    requires v != [] && k < |v|
    ensures [v[0]] + (v[1..][..k] + last) == v[..k + 1] + last
  {
  }

  lemma UnitsCons(c: Scalar, v: seq<Scalar>)
    ensures Units([c] + v) == UnitsOf(c) + Units(v)
  {
    assert ([c] + v)[1..] == v;
  }

  lemma {:induction false} UnitsAppend(v: seq<Scalar>, w: seq<Scalar>)
    ensures Units(v + w) == Units(v) + Units(w)
  {
    if v == [] {
      assert v + w == w;
    } else {
      UnitsAppend(v[1..], w);
      assert v + w == [v[0]] + (v[1..] + w);
      UnitsCons(v[0], v[1..] + w);
      Associative(UnitsOf(v[0]), Units(v[1..]), Units(w));
    }
  }

  lemma UnitsNonEmpty(v: seq<Scalar>)
    requires v != []
    ensures Units(v) != []
  {
  }

  lemma UnitsPrefix(v: seq<Scalar>, k: nat) returns (j: nat)
    requires k < |v|
    ensures j < |Units(v)| && Units(v[..k]) == Units(v)[..j]
  {
    j := |Units(v[..k])|;
    assert v == v[..k] + v[k..];
    UnitsAppend(v[..k], v[k..]);
    UnitsNonEmpty(v[k..]);
  }

  lemma UnitsMarked(v: seq<Scalar>, mark: bool)
    ensures Units(v + (if mark then [REPLACEMENT] else [])) == Units(v) + (if mark then [REPLACEMENT as Unit] else [])
  {
    UnitsAppend(v, if mark then [REPLACEMENT] else []);
    assert Units([REPLACEMENT]) == [REPLACEMENT as Unit];
  }

  /** The same in code units, for text that does not start with a byte order mark. */
  lemma DecodeTruncated(v: seq<Scalar>, n: nat) returns (j: nat, mark: bool)
    requires n < |Encode(v)| && v[0] != BYTE_ORDER_MARK
    ensures j < |Units(v)|
    ensures TextDecode(Encode(v)[..n]) == Units(v)[..j] + (if mark then [REPLACEMENT as Unit] else [])
  {
    var k;
    k, mark := DecodeCut(v, n);
    var w := v[..k] + (if mark then [REPLACEMENT] else []);
    assert k > 0 ==> w[0] == v[0];
    assert WithoutMark(w) == w;
    UnitsMarked(v[..k], mark);
    j := UnitsPrefix(v, k);
  }
}

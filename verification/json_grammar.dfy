/** What the parser takes, told without it: the grammar of RFC 8259 for objects of strings and integers, as a
    relation between positions in a text. */
module JsonGrammar {
  import opened Json
  import opened Sequences
  import opened Utf8
  import opened Wrappers

  // ----- the grammar -----

  predicate HexForm(u: Unit, n: Nibble) {
    if n < 10 then u == 0x30 + n else u == 0x61 + (n - 10) || u == 0x41 + (n - 10)
  }

  ghost predicate HexForms(t: text, i: nat, u: Unit, a: Nibble, b: Nibble, c: Nibble, d: Nibble) {
    && i + 4 <= |t|
    && HexForm(t[i], a) && HexForm(t[i + 1], b) && HexForm(t[i + 2], c) && HexForm(t[i + 3], d)
    && u == a * 0x1000 + b * 0x100 + c * 0x10 + d
  }

  ghost predicate WritesHex4(t: text, i: nat, u: Unit) {
    exists a: Nibble, b: Nibble, c: Nibble, d: Nibble :: HexForms(t, i, u, a, b, c, d)
  }

  /** Section 7: from i to j one character u stands in a string, as itself or escaped. */
  ghost predicate WritesUnit(t: text, i: nat, u: Unit, j: nat) {
    j <= |t| &&
    (|| (j == i + 1 && t[i] == u && 0x20 <= u && u != 0x22 && u != 0x5C)
     || (j == i + 2 && t[i] == 0x5C &&
         (t[i + 1], u) in {(0x62, 0x08), (0x74, 0x09), (0x6E, 0x0A), (0x66, 0x0C), (0x72, 0x0D),
                           (0x22, 0x22), (0x5C, 0x5C), (0x2F, 0x2F)})
     || (j == i + 6 && t[i] == 0x5C && t[i + 1] == 0x75 && WritesHex4(t, i + 2, u)))
  }

  /** The characters of s and the closing quote. */
  ghost predicate WritesUnits(t: text, i: nat, s: text, j: nat)
    decreases |s|
  {
    if s == [] then i < |t| && t[i] == 0x22 && j == i + 1
    else exists k: nat :: WritesUnit(t, i, s[0], k) && WritesUnits(t, k, s[1..], j)
  }

  ghost predicate WritesString(t: text, i: nat, s: text, j: nat) {
    i < |t| && t[i] == 0x22 && WritesUnits(t, i + 1, s, j)
  }

  /** Section 6, without fraction and exponent: the decimal digits, and nothing that would go on with them. */
  ghost predicate WritesNat(t: text, i: nat, n: nat, j: nat) {
    && At(t, i, Digits(n)) && j == i + |Digits(n)|
    && (j < |t| ==> !(0x30 <= t[j] <= 0x39) && t[j] !in {0x2E, 0x45, 0x65})
  }

  ghost predicate WritesInt(t: text, i: nat, n: int, j: nat) {
    || (n >= 0 && WritesNat(t, i, n, j))
    || (n <= 0 && i < |t| && t[i] == 0x2D && WritesNat(t, i + 1, -n, j))
  }

  ghost predicate WritesValue(t: text, i: nat, v: Value, j: nat) {
    match v
    case Str(s) => WritesString(t, i, s, j)
    case Int(n) => WritesInt(t, i, n, j)
  }

  /** Section 4. */
  ghost predicate WritesMember(t: text, i: nat, m: Member, j: nat) {
    exists k: nat :: WritesString(t, i, m.name, k) && k < |t| && t[k] == 0x3A && WritesValue(t, k + 1, m.value, j)
  }

  ghost predicate WritesMembers(t: text, i: nat, ms: seq<Member>, j: nat)
    decreases |ms|
  {
    ms != [] &&
    exists k: nat ::
      && WritesMember(t, i, ms[0], k) && k < |t|
      && (if |ms| == 1 then t[k] == 0x7D && j == k + 1 else t[k] == 0x2C && WritesMembers(t, k + 1, ms[1..], j))
  }

  ghost predicate WritesObject(t: text, i: nat, ms: seq<Member>, j: nat) {
    && i < |t| && t[i] == 0x7B
    && (if ms == [] then i + 1 < |t| && t[i + 1] == 0x7D && j == i + 2 else WritesMembers(t, i + 1, ms, j))
  }

  // ----- the parser takes exactly the grammar -----

  lemma HexIs(u: Unit, n: Nibble)
    ensures HexValue(u) == Some(n) <==> HexForm(u, n)
  {
  }

  lemma HexSum(a: Nibble, b: Nibble, c: Nibble, d: Nibble)
    ensures FourHex(a, b, c, d) == a * 0x1000 + b * 0x100 + c * 0x10 + d
  {
  }

  lemma Hex4Exactly(t: text, i: nat, u: Unit)
    requires i + 4 <= |t|
    ensures ParseHex4(t, i) == Some(u) <==> WritesHex4(t, i, u)
  {
    if ParseHex4(t, i) == Some(u) {
      var a, b, c, d :=
        HexValue(t[i]).value, HexValue(t[i + 1]).value, HexValue(t[i + 2]).value, HexValue(t[i + 3]).value;
      HexIs(t[i], a);
      HexIs(t[i + 1], b);
      HexIs(t[i + 2], c);
      HexIs(t[i + 3], d);
      HexSum(a, b, c, d);
      assert HexForms(t, i, u, a, b, c, d);
    }
    forall a: Nibble, b: Nibble, c: Nibble, d: Nibble | HexForms(t, i, u, a, b, c, d)
      ensures ParseHex4(t, i) == Some(u)
    {
      HexIs(t[i], a);
      HexIs(t[i + 1], b);
      HexIs(t[i + 2], c);
      HexIs(t[i + 3], d);
      HexSum(a, b, c, d);
    }
  }

  lemma UnitExactly(t: text, i: nat, u: Unit, j: nat)
    requires i < |t|
    ensures ParseUnit(t, i) == Some(Parsed(u, j)) <==> WritesUnit(t, i, u, j)
  {
    if i + 6 <= |t| {
      Hex4Exactly(t, i + 2, u);
    }
  }

  lemma WritesUnitStarts(t: text, i: nat, u: Unit, j: nat)
    requires WritesUnit(t, i, u, j)
    ensures i < j <= |t| && t[i] != 0x22
  {
  }

  lemma {:induction false} UnitsParsed(t: text, i: nat, s: text, j: nat)
    requires ParseUnits(t, i) == Some(Parsed(s, j))
    ensures WritesUnits(t, i, s, j)
    decreases |s|
  {
    if t[i] == QUOTE {
    } else {
      var u := ParseUnit(t, i).value;
      var rest := ParseUnits(t, u.next).value;
      assert s == [u.value] + rest.value && s[1..] == rest.value;
      UnitExactly(t, i, u.value, u.next);
      UnitsParsed(t, u.next, s[1..], j);
      assert WritesUnit(t, i, s[0], u.next) && WritesUnits(t, u.next, s[1..], j);
    }
  }

  lemma {:induction false} UnitsWritten(t: text, i: nat, s: text, j: nat)
    requires WritesUnits(t, i, s, j)
    ensures ParseUnits(t, i) == Some(Parsed(s, j))
    decreases |s|
  {
    if s == [] {
    } else {
      var k: nat :| WritesUnit(t, i, s[0], k) && WritesUnits(t, k, s[1..], j);
      WritesUnitStarts(t, i, s[0], k);
      UnitExactly(t, i, s[0], k);
      UnitsWritten(t, k, s[1..], j);
      UnitsStep(t, i, k, s[0], s[1..], j);
      assert s == [s[0]] + s[1..];
    }
  }

  lemma UnitsExactly(t: text, i: nat, s: text, j: nat)
    ensures ParseUnits(t, i) == Some(Parsed(s, j)) <==> WritesUnits(t, i, s, j)
  {
    if ParseUnits(t, i) == Some(Parsed(s, j)) {
      UnitsParsed(t, i, s, j);
    }
    if WritesUnits(t, i, s, j) {
      UnitsWritten(t, i, s, j);
    }
  }

  lemma StringExactly(t: text, i: nat, s: text, j: nat)
    ensures ParseString(t, i) == Some(Parsed(s, j)) <==> WritesString(t, i, s, j)
  {
    UnitsExactly(t, i + 1, s, j);
  }

  lemma DigitsSnoc(n: nat, d: nat)
    requires n > 0 && d < 10
    ensures Digits(10 * n + d) == Digits(n) + [ZERO + d]
  {
    assert (10 * n + d) / 10 == n && (10 * n + d) % 10 == d;
  }

  /** Having read the digits of a positive number, going on reads those of the whole. */
  lemma {:induction false} DigitsStand(t: text, k: nat, i: nat, before: nat)
    requires before > 0 && k <= i <= |t| && At(t, k, Digits(before)) && i == k + |Digits(before)|
    ensures var d := ParseDigits(t, i, before);
      d.value > 0 && At(t, k, Digits(d.value)) && d.next == k + |Digits(d.value)|
    decreases |t| - i
  {
    if i == |t| || !IsDigit(t[i]) {
    } else {
      var d := t[i] - ZERO;
      DigitsSnoc(before, d);
      assert At(t, i, [ZERO + d]);
      AtAppend(t, k, Digits(before), [ZERO + d]);
      DigitsStand(t, k, i + 1, 10 * before + d);
    }
  }

  lemma NatReads(t: text, i: nat)
    requires ParseNat(t, i).Some?
    ensures WritesNat(t, i, ParseNat(t, i).value.value, ParseNat(t, i).value.next)
  {
    var d := t[i] - ZERO;
    assert At(t, i, [ZERO + d]) && Digits(d) == [ZERO + d];
    if d > 0 {
      DigitsStand(t, i, i + 1, d);
    }
  }

  lemma NatExactly(t: text, i: nat, n: nat, j: nat)
    ensures ParseNat(t, i) == Some(Parsed(n, j)) <==> WritesNat(t, i, n, j)
  {
    if ParseNat(t, i) == Some(Parsed(n, j)) {
      NatReads(t, i);
    }
    if WritesNat(t, i, n, j) {
      ParseDigitsAt(t, i, n, j);
    }
  }

  lemma NatStarts(t: text, i: nat, n: nat, j: nat)
    requires WritesNat(t, i, n, j)
    ensures i < |t| && 0x30 <= t[i] <= 0x39
  {
    DigitsShape(n);
    AtIndex(t, i, Digits(n), 0);
  }

  lemma IntExactly(t: text, i: nat, n: int, j: nat)
    ensures ParseInt(t, i) == Some(Parsed(n, j)) <==> WritesInt(t, i, n, j)
  {
    if i < |t| && t[i] == MINUS {
      if n <= 0 {
        NatExactly(t, i + 1, -n, j);
      }
      if n >= 0 && WritesNat(t, i, n, j) {
        NatStarts(t, i, n, j);
      }
    } else if n >= 0 {
      NatExactly(t, i, n, j);
    }
  }

  lemma ValueExactly(t: text, i: nat, v: Value, j: nat)
    ensures ParseValue(t, i) == Some(Parsed(v, j)) <==> WritesValue(t, i, v, j)
  {
    match v
    case Str(s) => StringExactly(t, i, s, j);
    case Int(n) =>
      IntExactly(t, i, n, j);
      if WritesInt(t, i, n, j) {
        if n >= 0 && WritesNat(t, i, n, j) {
          NatStarts(t, i, n, j);
        }
      }
  }

  lemma MemberExactly(t: text, i: nat, m: Member, j: nat)
    ensures ParseMember(t, i) == Some(Parsed(m, j)) <==> WritesMember(t, i, m, j)
  {
    if ParseMember(t, i) == Some(Parsed(m, j)) {
      var name := ParseString(t, i).value;
      StringExactly(t, i, m.name, name.next);
      ValueExactly(t, name.next + 1, m.value, j);
    }
    if WritesMember(t, i, m, j) {
      var k: nat :| WritesString(t, i, m.name, k) && k < |t| && t[k] == 0x3A && WritesValue(t, k + 1, m.value, j);
      StringExactly(t, i, m.name, k);
      ValueExactly(t, k + 1, m.value, j);
    }
  }

  lemma MembersNonEmpty(t: text, i: nat)
    requires ParseMembers(t, i).Some?
    ensures ParseMembers(t, i).value.value != []
  {
  }

  /** How a list of members has been read. */
  lemma MembersInverted(t: text, i: nat, ms: seq<Member>, j: nat) returns (k: nat)
    requires ParseMembers(t, i) == Some(Parsed(ms, j))
    ensures ms != [] && ParseMember(t, i) == Some(Parsed(ms[0], k)) && k < |t|
    ensures |ms| == 1 ==> t[k] == CLOSE && j == k + 1
    ensures |ms| > 1 ==> t[k] == COMMA && ParseMembers(t, k + 1) == Some(Parsed(ms[1..], j))
  {
    k := ParseMember(t, i).value.next;
    if t[k] != CLOSE {
      MembersNonEmpty(t, k + 1);
      var rest := ParseMembers(t, k + 1).value.value;
      assert ms == [ms[0]] + rest && ms[1..] == rest;
    }
  }

  lemma MembersStand(t: text, i: nat, ms: seq<Member>, k: nat, j: nat)
    requires ms != [] && WritesMember(t, i, ms[0], k) && k < |t|
    requires if |ms| == 1 then t[k] == 0x7D && j == k + 1 else t[k] == 0x2C && WritesMembers(t, k + 1, ms[1..], j)
    ensures WritesMembers(t, i, ms, j)
  {
  }

  lemma MembersParted(t: text, i: nat, ms: seq<Member>, j: nat) returns (k: nat)
    requires WritesMembers(t, i, ms, j)
    ensures ms != [] && WritesMember(t, i, ms[0], k) && k < |t|
    ensures if |ms| == 1 then t[k] == 0x7D && j == k + 1 else t[k] == 0x2C && WritesMembers(t, k + 1, ms[1..], j)
  {
    k :|
      && WritesMember(t, i, ms[0], k) && k < |t|
      && (if |ms| == 1 then t[k] == 0x7D && j == k + 1 else t[k] == 0x2C && WritesMembers(t, k + 1, ms[1..], j));
  }

  lemma {:induction false} MembersParsed(t: text, i: nat, ms: seq<Member>, j: nat)
    requires ParseMembers(t, i) == Some(Parsed(ms, j))
    ensures WritesMembers(t, i, ms, j)
    decreases |ms|
  {
    var k := MembersInverted(t, i, ms, j);
    MemberExactly(t, i, ms[0], k);
    if |ms| == 1 {
    } else {
      MembersParsed(t, k + 1, ms[1..], j);
    }
    MembersStand(t, i, ms, k, j);
  }

  lemma LastMember(t: text, i: nat, ms: seq<Member>, k: nat, j: nat)
    requires |ms| == 1 && ParseMember(t, i) == Some(Parsed(ms[0], k)) && k < |t| && t[k] == CLOSE && j == k + 1
    ensures ParseMembers(t, i) == Some(Parsed(ms, j))
  {
    assert ms == [ms[0]];
  }

  lemma OneMoreMember(t: text, i: nat, ms: seq<Member>, k: nat, j: nat)
    requires |ms| > 1 && ParseMember(t, i) == Some(Parsed(ms[0], k)) && k < |t| && t[k] == COMMA
    requires ParseMembers(t, k + 1) == Some(Parsed(ms[1..], j))
    ensures ParseMembers(t, i) == Some(Parsed(ms, j))
  {
    assert ms == [ms[0]] + ms[1..];
  }

  lemma MemberWritten(t: text, i: nat, m: Member, k: nat)
    requires WritesMember(t, i, m, k)
    ensures ParseMember(t, i) == Some(Parsed(m, k))
  {
    MemberExactly(t, i, m, k);
  }

  lemma {:induction false} MembersWritten(t: text, i: nat, ms: seq<Member>, j: nat)
    requires WritesMembers(t, i, ms, j)
    ensures ParseMembers(t, i) == Some(Parsed(ms, j))
    decreases |ms|
  {
    var k := MembersParted(t, i, ms, j);
    MemberWritten(t, i, ms[0], k);
    if |ms| == 1 {
      LastMember(t, i, ms, k, j);
    } else {
      MembersWritten(t, k + 1, ms[1..], j);
      OneMoreMember(t, i, ms, k, j);
    }
  }

  lemma MembersExactly(t: text, i: nat, ms: seq<Member>, j: nat)
    ensures ParseMembers(t, i) == Some(Parsed(ms, j)) <==> WritesMembers(t, i, ms, j)
  {
    if ParseMembers(t, i) == Some(Parsed(ms, j)) {
      MembersParsed(t, i, ms, j);
    }
    if WritesMembers(t, i, ms, j) {
      MembersWritten(t, i, ms, j);
    }
  }

  lemma MembersStartQuoted(t: text, i: nat, ms: seq<Member>, j: nat)
    requires WritesMembers(t, i, ms, j)
    ensures i < |t| && t[i] == 0x22
  {
    var k: nat :| WritesMember(t, i, ms[0], k);
  }

  lemma ObjectParsed(t: text, i: nat, ms: seq<Member>, j: nat)
    requires ParseObject(t, i) == Some(Parsed(ms, j))
    ensures WritesObject(t, i, ms, j)
  {
    if t[i + 1] != CLOSE {
      MembersParsed(t, i + 1, ms, j);
      MembersNonEmpty(t, i + 1);
    }
  }

  lemma ObjectWritten(t: text, i: nat, ms: seq<Member>, j: nat)
    requires WritesObject(t, i, ms, j)
    ensures ParseObject(t, i) == Some(Parsed(ms, j))
  {
    if ms != [] {
      MembersStartQuoted(t, i + 1, ms, j);
      MembersWritten(t, i + 1, ms, j);
    }
  }

  lemma ObjectExactly(t: text, i: nat, ms: seq<Member>, j: nat)
    ensures ParseObject(t, i) == Some(Parsed(ms, j)) <==> WritesObject(t, i, ms, j)
  {
    if ParseObject(t, i) == Some(Parsed(ms, j)) {
      ObjectParsed(t, i, ms, j);
    }
    if WritesObject(t, i, ms, j) {
      ObjectWritten(t, i, ms, j);
    }
  }

  /** JSON.parse gives these members exactly when the text is an object that the grammar derives from them, and
      white space. */
  lemma ParseExactly(t: text, ms: seq<Member>)
    ensures Parse(t) == Some(ms) <==>
      exists j: nat :: WritesObject(t, 0, ms, j) && forall k :: j <= k < |t| ==> t[k] in {0x20, 0x09, 0x0A, 0x0D}
  {
    if Parse(t) == Some(ms) {
      ObjectExactly(t, 0, ms, ParseObject(t, 0).value.next);
    }
    forall j: nat |
      WritesObject(t, 0, ms, j) && forall k :: j <= k < |t| ==> t[k] in {0x20, 0x09, 0x0A, 0x0D}
      ensures Parse(t) == Some(ms)
    {
      ObjectExactly(t, 0, ms, j);
    }
  }

  /** How JSON.stringify writes a character: short escapes, lower-case hexadecimal for the other controls and
      for lone surrogates, and everything else as it is. */
  lemma EscapeExactly(u: Unit)
    ensures Escape(u) ==
      if u == 0x08 then [0x5C, 0x62]
      else if u == 0x09 then [0x5C, 0x74]
      else if u == 0x0A then [0x5C, 0x6E]
      else if u == 0x0C then [0x5C, 0x66]
      else if u == 0x0D then [0x5C, 0x72]
      else if u == 0x22 then [0x5C, 0x22]
      else if u == 0x5C then [0x5C, 0x5C]
      else if u < 0x20 || 0xD800 <= u <= 0xDFFF then Hex4(u)
      else [u]
  {
  }
}

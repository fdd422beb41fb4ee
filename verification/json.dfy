/** JSON (RFC 8259) as far as the program needs it: objects whose members are strings and integers, written
    without white space. */
module Json {
  import opened Bytes
  import opened Utf8
  import opened Wrappers
  import opened Sequences

  const QUOTE: Unit := 0x22
  const BACKSLASH: Unit := 0x5C
  const LETTER_U: Unit := 0x75
  const OPEN: Unit := 0x7B
  const CLOSE: Unit := 0x7D
  const COLON: Unit := 0x3A
  const COMMA: Unit := 0x2C
  const ZERO: Unit := 0x30
  const MINUS: Unit := 0x2D

  type Nibble = n: int | 0 <= n < 16

  function HexDigit(n: Nibble): Unit {
    if n < 10 then 0x30 + n else 0x61 + (n - 10)
  }

  function HexValue(u: Unit): Option<Nibble> {
    if 0x30 <= u <= 0x39 then Some(u - 0x30)
    else if 0x61 <= u <= 0x66 then Some(u - 0x61 + 10)
    else if 0x41 <= u <= 0x46 then Some(u - 0x41 + 10)
    else None
  }

  // ----- JSON.stringify -----

  /** The letter of a two-character escape. */
  function ShortEscape(u: Unit): Option<Unit> {
    if u == 0x08 then Some(0x62)
    else if u == 0x09 then Some(0x74)
    else if u == 0x0A then Some(0x6E)
    else if u == 0x0C then Some(0x66)
    else if u == 0x0D then Some(0x72)
    else if u == QUOTE || u == BACKSLASH then Some(u)
    else None
  }

  function Hex4(u: Unit): text {
    [BACKSLASH, LETTER_U,
     HexDigit(u / 16 / 16 / 16), HexDigit(u / 16 / 16 % 16), HexDigit(u / 16 % 16), HexDigit(u % 16)]
  }

  function Escape(u: Unit): text {
    if ShortEscape(u).Some? then [BACKSLASH, ShortEscape(u).value]
    else if u < 0x20 || Surrogate(u) then Hex4(u)
    else [u]
  }

  /** Surrogate pairs stay as they are; a lone surrogate is escaped. */
  function EscapeAll(s: text): text
    decreases |s|
  {
    if s == [] then []
    else if Paired(s) then [s[0], s[1]] + EscapeAll(s[2..])
    else Escape(s[0]) + EscapeAll(s[1..])
  }

  function Quote(s: text): text {
    [QUOTE] + EscapeAll(s) + [QUOTE]
  }

  /** A number in decimal. */
  function Digits(n: nat): text {
    if n < 10 then [ZERO + n] else Digits(n / 10) + [ZERO + n % 10]
  }

  function ShowInt(n: int): text {
    if n < 0 then [MINUS] + Digits(-n) else Digits(n)
  }

  datatype Value = Str(text: text) | Int(n: int)

  function ShowValue(v: Value): text {
    match v
    case Str(s) => Quote(s)
    case Int(n) => ShowInt(n)
  }

  datatype Member = Member(name: text, value: Value)

  function ShowMember(m: Member): text {
    Quote(m.name) + [COLON] + ShowValue(m.value)
  }

  function ShowMembers(ms: seq<Member>): text {
    if ms == [] then [CLOSE]
    else if |ms| == 1 then ShowMember(ms[0]) + [CLOSE]
    else ShowMember(ms[0]) + [COMMA] + ShowMembers(ms[1..])
  }

  /** JSON.stringify of an object, and Go's Encode of one but for the newline. */
  function Stringify(ms: seq<Member>): text {
    [OPEN] + ShowMembers(ms)
  }

  // ----- JSON.parse -----

  datatype Parsed<T> = Parsed(value: T, next: nat)

  function LongEscape(letter: Unit): Option<Unit> {
    if letter == 0x62 then Some(0x08)
    else if letter == 0x74 then Some(0x09)
    else if letter == 0x6E then Some(0x0A)
    else if letter == 0x66 then Some(0x0C)
    else if letter == 0x72 then Some(0x0D)
    else if letter == QUOTE || letter == BACKSLASH || letter == 0x2F then Some(letter)
    else None
  }

  function FourHex(a: Nibble, b: Nibble, c: Nibble, d: Nibble): Unit {
    ((a * 16 + b) * 16 + c) * 16 + d
  }

  function ParseHex4(t: text, i: nat): Option<Unit>
    requires i + 4 <= |t|
  {
    var a, b, c, d := HexValue(t[i]), HexValue(t[i + 1]), HexValue(t[i + 2]), HexValue(t[i + 3]);
    if a.Some? && b.Some? && c.Some? && d.Some? then Some(FourHex(a.value, b.value, c.value, d.value)) else None
  }

  /** One character of a string, escaped or not; not the closing quote. */
  function ParseUnit(t: text, i: nat): (r: Option<Parsed<Unit>>)
    requires i < |t|
    ensures r.Some? ==> i < r.value.next <= |t|
  {
    if t[i] < 0x20 || t[i] == QUOTE then None
    else if t[i] != BACKSLASH then Some(Parsed(t[i], i + 1))
    else if i + 1 < |t| && LongEscape(t[i + 1]).Some? then Some(Parsed(LongEscape(t[i + 1]).value, i + 2))
    else if i + 6 <= |t| && t[i + 1] == LETTER_U && ParseHex4(t, i + 2).Some? then
      Some(Parsed(ParseHex4(t, i + 2).value, i + 6))
    else None
  }

  function ParseUnits(t: text, i: nat): (r: Option<Parsed<text>>)
    ensures r.Some? ==> i < r.value.next <= |t|
    decreases |t| - i
  {
    if i >= |t| then None
    else if t[i] == QUOTE then Some(Parsed([], i + 1))
    else
      match ParseUnit(t, i)
      case None => None
      case Some(u) =>
        match ParseUnits(t, u.next)
        case None => None
        case Some(rest) => Some(Parsed([u.value] + rest.value, rest.next))
  }

  function ParseString(t: text, i: nat): (r: Option<Parsed<text>>)
    ensures r.Some? ==> i < r.value.next <= |t|
  {
    if i < |t| && t[i] == QUOTE then ParseUnits(t, i + 1) else None
  }

  predicate IsDigit(u: Unit) {
    ZERO <= u < ZERO + 10
  }

  function ParseDigits(t: text, i: nat, before: nat): (r: Parsed<nat>)
    requires i <= |t|
    ensures i <= r.next <= |t| && (r.next == |t| || !IsDigit(t[r.next]))
    decreases |t| - i
  {
    if i < |t| && IsDigit(t[i]) then ParseDigits(t, i + 1, 10 * before + (t[i] - ZERO)) else Parsed(before, i)
  }

  /** A fraction or an exponent follows. */
  predicate NotInteger(u: Unit) {
    u == 0x2E || u == 0x45 || u == 0x65
  }

  /** Digits without a leading zero; a fraction or an exponent is not taken. */
  function ParseNat(t: text, i: nat): (r: Option<Parsed<nat>>)
    ensures r.Some? ==> i < r.value.next <= |t|
  {
    if i < |t| && IsDigit(t[i]) then
      var d := ParseDigits(t, i + 1, t[i] - ZERO);
      if (t[i] == ZERO && d.next > i + 1) || (d.next < |t| && NotInteger(t[d.next])) then None else Some(d)
    else None
  }

  function ParseInt(t: text, i: nat): (r: Option<Parsed<int>>)
    ensures r.Some? ==> i < r.value.next <= |t|
  {
    if i < |t| && t[i] == MINUS then
      match ParseNat(t, i + 1)
      case None => None
      case Some(n) => Some(Parsed(0 - n.value, n.next))
    else
      match ParseNat(t, i)
      case None => None
      case Some(n) => Some(Parsed(n.value, n.next))
  }

  function ParseValue(t: text, i: nat): (r: Option<Parsed<Value>>)
    ensures r.Some? ==> i < r.value.next <= |t|
  {
    if i < |t| && t[i] == QUOTE then
      match ParseString(t, i)
      case None => None
      case Some(s) => Some(Parsed(Str(s.value), s.next))
    else
      match ParseInt(t, i)
      case None => None
      case Some(n) => Some(Parsed(Int(n.value), n.next))
  }

  function ParseMember(t: text, i: nat): (r: Option<Parsed<Member>>)
    ensures r.Some? ==> i < r.value.next <= |t|
  {
    match ParseString(t, i)
    case None => None
    case Some(name) =>
      if name.next < |t| && t[name.next] == COLON then
        match ParseValue(t, name.next + 1)
        case None => None
        case Some(value) => Some(Parsed(Member(name.value, value.value), value.next))
      else None
  }

  function ParseMembers(t: text, i: nat): (r: Option<Parsed<seq<Member>>>)
    ensures r.Some? ==> i < r.value.next <= |t| && t[r.value.next - 1] == CLOSE
    decreases |t| - i
  {
    match ParseMember(t, i)
    case None => None
    case Some(m) =>
      if m.next < |t| && t[m.next] == CLOSE then Some(Parsed([m.value], m.next + 1))
      else if m.next < |t| && t[m.next] == COMMA then
        match ParseMembers(t, m.next + 1)
        case None => None
        case Some(rest) => Some(Parsed([m.value] + rest.value, rest.next))
      else None
  }

  function ParseObject(t: text, i: nat): (r: Option<Parsed<seq<Member>>>)
    ensures r.Some? ==> i + 1 < r.value.next <= |t| && t[r.value.next - 1] == CLOSE
  {
    if i < |t| && t[i] == OPEN then
      if i + 1 < |t| && t[i + 1] == CLOSE then Some(Parsed([], i + 2)) else ParseMembers(t, i + 1)
    else None
  }

  /** Nothing but white space from i on. */
  predicate Blank(t: text, i: nat) {
    forall k :: i <= k < |t| ==> t[k] in {0x20, 0x09, 0x0A, 0x0D}
  }

  /** JSON.parse: only white space may follow the object. */
  function Parse(t: text): Option<seq<Member>> {
    match ParseObject(t, 0)
    case Some(o) => if Blank(t, o.next) then Some(o.value) else None
    case None => None
  }

  /** Property access: the last member of that name, or undefined. */
  function Get(ms: seq<Member>, name: text): Option<Value> {
    if ms == [] then None
    else if ms[|ms| - 1].name == name then Some(ms[|ms| - 1].value)
    else Get(ms[..|ms| - 1], name)
  }

  // ----- parsing undoes stringifying -----

  lemma HexValueDigit(n: Nibble)
    ensures HexValue(HexDigit(n)) == Some(n)
  {
  }

  lemma HexJoins(u: Unit)
    ensures FourHex(u / 16 / 16 / 16, u / 16 / 16 % 16, u / 16 % 16, u % 16) == u
  {
  }

  lemma ParseEscape(t: text, i: nat, u: Unit)
    requires At(t, i, Escape(u))
    ensures i < |t| && t[i] != QUOTE
    ensures ParseUnit(t, i) == Some(Parsed(u, i + |Escape(u)|))
  {
    var e := Escape(u);
    assert t[i + 0] == e[0];
    if ShortEscape(u).Some? {
      assert t[i + 1] == e[1];
    } else if u < 0x20 || Surrogate(u) {
      assert t[i + 1] == e[1] && t[i + 2] == e[2] && t[i + 3] == e[3] && t[i + 4] == e[4] && t[i + 5] == e[5];
      HexValueDigit(u / 16 / 16 / 16);
      HexValueDigit(u / 16 / 16 % 16);
      HexValueDigit(u / 16 % 16);
      HexValueDigit(u % 16);
      HexJoins(u);
    }
  }

  lemma UnitsStep(t: text, i: nat, j: nat, u: Unit, s: text, n: nat)
    requires i < |t| && t[i] != QUOTE
    requires ParseUnit(t, i) == Some(Parsed(u, j)) && ParseUnits(t, j) == Some(Parsed(s, n))
    ensures ParseUnits(t, i) == Some(Parsed([u] + s, n))
  {
  }

  lemma ParsePair(t: text, i: nat, high: Unit, low: Unit)
    requires i + 1 < |t| && t[i] == high && t[i + 1] == low && High(high) && Low(low)
    ensures t[i] != QUOTE && t[i + 1] != QUOTE
    ensures ParseUnit(t, i) == Some(Parsed(high, i + 1)) && ParseUnit(t, i + 1) == Some(Parsed(low, i + 2))
  {
  }

  lemma AtPair(t: text, i: nat, high: Unit, low: Unit, rest: text, last: text)
    requires At(t, i, [high, low] + rest + last)
    ensures i + 1 < |t| && t[i] == high && t[i + 1] == low && At(t, i + 2, rest + last)
  {
    assert [high, low] + rest + last == [high] + ([low] + (rest + last));
    AtHead(t, i, high, [low] + (rest + last));
    AtHead(t, i + 1, low, rest + last);
  }

  lemma AtFirst(t: text, i: nat, first: text, rest: text, last: text)
    requires At(t, i, first + rest + last)
    ensures At(t, i, first) && At(t, i + |first|, rest + last)
  {
    assert first + rest + last == first + (rest + last);
    AtSplit(t, i, first, rest + last);
  }

  lemma PairStep(t: text, i: nat, s: text, n: nat)
    requires Paired(s) && i + 1 < |t| && t[i] == s[0] && t[i + 1] == s[1]
    requires ParseUnits(t, i + 2) == Some(Parsed(s[2..], n))
    ensures ParseUnits(t, i) == Some(Parsed(s, n))
  {
    ParsePair(t, i, s[0], s[1]);
    assert s[1..] == [s[1]] + s[2..];
    UnitsStep(t, i + 1, i + 2, s[1], s[2..], n);
    assert s == [s[0]] + s[1..];
    UnitsStep(t, i, i + 1, s[0], s[1..], n);
  }

  lemma EscapeStep(t: text, i: nat, s: text, n: nat)
    requires s != [] && At(t, i, Escape(s[0]))
    requires ParseUnits(t, i + |Escape(s[0])|) == Some(Parsed(s[1..], n))
    ensures ParseUnits(t, i) == Some(Parsed(s, n))
  {
    ParseEscape(t, i, s[0]);
    assert s == [s[0]] + s[1..];
    UnitsStep(t, i, i + |Escape(s[0])|, s[0], s[1..], n);
  }

  /** At position i stands s, escaped, and its closing quote, up to j. */
  ghost predicate Spells(t: text, i: nat, s: text, j: nat)
    decreases |s|
  {
    if s == [] then i < |t| && t[i] == QUOTE && j == i + 1
    else if Paired(s) then i + 1 < |t| && t[i] == s[0] && t[i + 1] == s[1] && Spells(t, i + 2, s[2..], j)
    else At(t, i, Escape(s[0])) && Spells(t, i + |Escape(s[0])|, s[1..], j)
  }

  lemma {:induction false} AtSpells(t: text, i: nat, s: text, e: text, j: nat)
    requires e == EscapeAll(s) && At(t, i, e + [QUOTE]) && j == i + |e| + 1
    ensures Spells(t, i, s, j)
    decreases |s|
  {
    if s == [] {
      assert e + [QUOTE] == [QUOTE];
      AtOne(t, i, QUOTE);
    } else if Paired(s) {
      AtPair(t, i, s[0], s[1], EscapeAll(s[2..]), [QUOTE]);
      AtSpells(t, i + 2, s[2..], EscapeAll(s[2..]), j);
    } else {
      AtFirst(t, i, Escape(s[0]), EscapeAll(s[1..]), [QUOTE]);
      AtSpells(t, i + |Escape(s[0])|, s[1..], EscapeAll(s[1..]), j);
    }
  }

  lemma {:induction false} ParseSpelled(t: text, i: nat, s: text, j: nat)
    requires Spells(t, i, s, j)
    ensures ParseUnits(t, i) == Some(Parsed(s, j))
    decreases |s|
  {
    if s == [] {
    } else if Paired(s) {
      ParseSpelled(t, i + 2, s[2..], j);
      PairStep(t, i, s, j);
    } else {
      ParseSpelled(t, i + |Escape(s[0])|, s[1..], j);
      EscapeStep(t, i, s, j);
    }
  }

  lemma ParseQuoted(t: text, i: nat, s: text, j: nat)
    requires At(t, i, Quote(s)) && j == i + |Quote(s)|
    ensures ParseString(t, i) == Some(Parsed(s, j))
  {
    AtFirst(t, i, [QUOTE], EscapeAll(s), [QUOTE]);
    AtOne(t, i, QUOTE);
    AtSpells(t, i + 1, s, EscapeAll(s), j);
    ParseSpelled(t, i + 1, s, j);
  }

  lemma {:induction false} DigitsShape(n: nat)
    ensures forall i :: 0 <= i < |Digits(n)| ==> IsDigit(Digits(n)[i])
    ensures |Digits(n)| >= 1 && (|Digits(n)| > 1 ==> Digits(n)[0] != ZERO)
    ensures |Digits(n)| == 1 <==> n < 10
    ensures n > 0 ==> Digits(n)[0] != ZERO
  {
    if n < 10 {
    } else {
      DigitsShape(n / 10);
    }
  }

  lemma DigitsStep(t: text, i: nat, before: nat, d: nat)
    requires i < |t| && d < 10 && t[i] == ZERO + d
    ensures ParseDigits(t, i, before) == ParseDigits(t, i + 1, 10 * before + d)
  {
  }

  /** Reading the digits of n makes n out of nothing. */
  lemma {:induction false} DigitsRead(t: text, i: nat, n: nat, j: nat)
    requires At(t, i, Digits(n)) && j == i + |Digits(n)|
    ensures ParseDigits(t, i, 0) == ParseDigits(t, j, n)
  {
    if n < 10 {
      AtOne(t, i, ZERO + n);
      DigitsStep(t, i, 0, n);
    } else {
      AtSplit(t, i, Digits(n / 10), [ZERO + n % 10]);
      AtOne(t, j - 1, ZERO + n % 10);
      DigitsRead(t, i, n / 10, j - 1);
      DigitsStep(t, j - 1, n / 10, n % 10);
      assert 10 * (n / 10) + n % 10 == n;
    }
  }

  lemma ParseDigitsAt(t: text, i: nat, n: nat, j: nat)
    requires At(t, i, Digits(n)) && j == i + |Digits(n)|
    requires j < |t| ==> !IsDigit(t[j]) && !NotInteger(t[j])
    ensures i < |t| && IsDigit(t[i]) && ParseNat(t, i) == Some(Parsed(n, j))
  {
    DigitsShape(n);
    DigitsRead(t, i, n, j);
    assert t[i + 0] == Digits(n)[0];
    DigitsStep(t, i, 0, t[i] - ZERO);
  }

  /** What stands behind a value in an object. */
  predicate Follows(t: text, j: nat) {
    j < |t| && (t[j] == COMMA || t[j] == CLOSE)
  }

  lemma ParseIntAt(t: text, i: nat, n: int, j: nat)
    requires At(t, i, ShowInt(n)) && j == i + |ShowInt(n)| && Follows(t, j)
    ensures i < |t| && t[i] != QUOTE && ParseInt(t, i) == Some(Parsed(n, j))
  {
    if n < 0 {
      AtHead(t, i, MINUS, Digits(-n));
      ParseDigitsAt(t, i + 1, -n, j);
    } else {
      ParseDigitsAt(t, i, n, j);
    }
  }

  lemma ParseValueAt(t: text, i: nat, v: Value, j: nat)
    requires At(t, i, ShowValue(v)) && j == i + |ShowValue(v)| && Follows(t, j)
    ensures ParseValue(t, i) == Some(Parsed(v, j))
  {
    match v
    case Str(s) =>
      AtFirst(t, i, [QUOTE], EscapeAll(s), [QUOTE]);
      AtOne(t, i, QUOTE);
      ParseQuoted(t, i, s, j);
    case Int(n) =>
      ParseIntAt(t, i, n, j);
  }

  lemma ParseShown(t: text, i: nat, m: Member, j: nat)
    requires At(t, i, ShowMember(m)) && j == i + |ShowMember(m)| && Follows(t, j)
    ensures ParseMember(t, i) == Some(Parsed(m, j))
  {
    var n := i + |Quote(m.name)|;
    AtFirst(t, i, Quote(m.name), [COLON], ShowValue(m.value));
    AtHead(t, n, COLON, ShowValue(m.value));
    ParseQuoted(t, i, m.name, n);
    ParseValueAt(t, n + 1, m.value, j);
  }

  /** At position i the parser reads one member after another, and a closing brace, up to j. */
  ghost predicate Lists(t: text, i: nat, ms: seq<Member>, j: nat)
    requires ms != []
    decreases |ms|
  {
    var m := ParseMember(t, i);
    && m.Some? && m.value.value == ms[0] && m.value.next < |t|
    && (if |ms| == 1 then t[m.value.next] == CLOSE && j == m.value.next + 1
        else t[m.value.next] == COMMA && Lists(t, m.value.next + 1, ms[1..], j))
  }

  lemma AtJoined(t: text, i: nat, w: text, u: Unit, rest: text)
    requires At(t, i, w + [u] + rest)
    ensures At(t, i, w) && i + |w| < |t| && t[i + |w|] == u && At(t, i + |w| + 1, rest)
  {
    AtFirst(t, i, w, [u], rest);
    AtHead(t, i + |w|, u, rest);
  }

  /** The member w and what separates it from the rest. */
  lemma AtMembers(t: text, i: nat, ms: seq<Member>, w: text)
    requires ms != [] && At(t, i, ShowMembers(ms)) && w == ShowMember(ms[0])
    ensures At(t, i, w) && i + |w| < |t|
    ensures |ms| == 1 ==> t[i + |w|] == CLOSE && |ShowMembers(ms)| == |w| + 1
    ensures |ms| > 1 ==> t[i + |w|] == COMMA && At(t, i + |w| + 1, ShowMembers(ms[1..]))
                         && |ShowMembers(ms)| == |w| + 1 + |ShowMembers(ms[1..])|
  {
    if |ms| == 1 {
      assert w + [CLOSE] == w + [CLOSE] + [];
      AtJoined(t, i, w, CLOSE, []);
    } else {
      AtJoined(t, i, w, COMMA, ShowMembers(ms[1..]));
    }
  }

  lemma ListsOne(t: text, i: nat, ms: seq<Member>, n: nat, j: nat)
    requires |ms| == 1 && ParseMember(t, i) == Some(Parsed(ms[0], n)) && n < |t| && t[n] == CLOSE && j == n + 1
    ensures Lists(t, i, ms, j)
  {
  }

  lemma ListsMore(t: text, i: nat, ms: seq<Member>, n: nat, j: nat)
    requires |ms| > 1 && ParseMember(t, i) == Some(Parsed(ms[0], n)) && n < |t| && t[n] == COMMA
    requires Lists(t, n + 1, ms[1..], j)
    ensures Lists(t, i, ms, j)
  {
  }

  lemma {:induction false} AtLists(t: text, i: nat, ms: seq<Member>, j: nat)
    requires ms != [] && At(t, i, ShowMembers(ms)) && j == i + |ShowMembers(ms)|
    ensures Lists(t, i, ms, j)
    decreases |ms|
  {
    var w := ShowMember(ms[0]);
    var n := i + |w|;
    AtMembers(t, i, ms, w);
    ParseShown(t, i, ms[0], n);
    if |ms| == 1 {
      ListsOne(t, i, ms, n, j);
    } else {
      AtLists(t, n + 1, ms[1..], j);
      ListsMore(t, i, ms, n, j);
    }
  }

  lemma {:induction false} ParseListed(t: text, i: nat, ms: seq<Member>, j: nat)
    requires ms != [] && Lists(t, i, ms, j)
    ensures ParseMembers(t, i) == Some(Parsed(ms, j))
    decreases |ms|
  {
    if |ms| == 1 {
      assert ms == [ms[0]];
    } else {
      ParseListed(t, ParseMember(t, i).value.next + 1, ms[1..], j);
      assert ms == [ms[0]] + ms[1..];
    }
  }

  lemma ShowStartsQuoted(t: text, i: nat, ms: seq<Member>)
    requires ms != [] && At(t, i, ShowMembers(ms))
    ensures i < |t| && t[i] == QUOTE
  {
    var w := ShowMembers(ms);
    assert w[0] == QUOTE;
    AtIndex(t, i, w, 0);
  }

  /** Whatever text follows, the parser finds the object and where it ends. */
  lemma ParseStringified(t: text, i: nat, ms: seq<Member>, j: nat)
    requires At(t, i, Stringify(ms)) && j == i + |Stringify(ms)|
    ensures ParseObject(t, i) == Some(Parsed(ms, j))
  {
    AtHead(t, i, OPEN, ShowMembers(ms));
    if ms == [] {
      AtOne(t, i + 1, CLOSE);
    } else {
      ShowStartsQuoted(t, i + 1, ms);
      AtLists(t, i + 1, ms, j);
      ParseListed(t, i + 1, ms, j);
    }
  }

  /** Every string survives: quotes, backslashes, control characters and lone surrogates. */
  lemma ParseRoundTrip(ms: seq<Member>)
    ensures Parse(Stringify(ms)) == Some(ms)
  {
    ParseStringified(Stringify(ms), 0, ms, |Stringify(ms)|);
  }

  /** White space may follow. */
  lemma ParseBeforeSpace(ms: seq<Member>, space: text)
    requires Blank(space, 0)
    ensures Parse(Stringify(ms) + space) == Some(ms)
  {
    var s := Stringify(ms);
    AtPrefix(s, space);
    ParseStringified(s + space, 0, ms, |s|);
    forall k | |s| <= k < |s + space| ensures (s + space)[k] in {0x20, 0x09, 0x0A, 0x0D} {
      assert (s + space)[k] == space[k - |s|];
    }
  }

  // ----- what is stringified is well-formed -----

  lemma {:induction false} WellFormedAppend(a: text, b: text)
    requires WellFormed(a) && WellFormed(b)
    ensures WellFormed(a + b)
    decreases |a|
  {
    if a == [] {
      assert a + b == b;
    } else if Paired(a) {
      WellFormedAppend(a[2..], b);
      assert (a + b)[2..] == a[2..] + b;
    } else {
      WellFormedAppend(a[1..], b);
      assert (a + b)[1..] == a[1..] + b;
    }
  }

  lemma WellFormedPlain(u: Unit)
    requires !Surrogate(u)
    ensures WellFormed([u])
  {
  }

  lemma {:induction false} NoSurrogates(s: text)
    requires forall i :: 0 <= i < |s| ==> !Surrogate(s[i])
    ensures WellFormed(s)
  {
    if s == [] {
    } else {
      NoSurrogates(s[1..]);
    }
  }

  lemma {:induction false} EscapedWellFormed(s: text)
    ensures WellFormed(EscapeAll(s))
    decreases |s|
  {
    if s == [] {
    } else if Paired(s) {
      EscapedWellFormed(s[2..]);
      var pair := [s[0], s[1]];
      assert WellFormed(pair[2..]);
      WellFormedAppend(pair, EscapeAll(s[2..]));
    } else {
      EscapedWellFormed(s[1..]);
      NoSurrogates(Escape(s[0]));
      WellFormedAppend(Escape(s[0]), EscapeAll(s[1..]));
    }
  }

  lemma QuotedWellFormed(s: text)
    ensures WellFormed(Quote(s))
  {
    EscapedWellFormed(s);
    WellFormedPlain(QUOTE);
    WellFormedAppend([QUOTE], EscapeAll(s));
    WellFormedAppend([QUOTE] + EscapeAll(s), [QUOTE]);
  }

  lemma ValueWellFormed(v: Value)
    ensures WellFormed(ShowValue(v))
  {
    match v
    case Str(s) => QuotedWellFormed(s);
    case Int(n) =>
      DigitsShape(if n < 0 then -n else n);
      NoSurrogates(ShowInt(n));
  }

  lemma ShownWellFormed(m: Member)
    ensures WellFormed(ShowMember(m))
  {
    QuotedWellFormed(m.name);
    ValueWellFormed(m.value);
    WellFormedPlain(COLON);
    WellFormedAppend(Quote(m.name), [COLON]);
    WellFormedAppend(Quote(m.name) + [COLON], ShowValue(m.value));
  }

  lemma {:induction false} MembersWellFormed(ms: seq<Member>)
    ensures WellFormed(ShowMembers(ms))
  {
    WellFormedPlain(CLOSE);
    WellFormedPlain(COMMA);
    if ms == [] {
    } else {
      var a := ShowMember(ms[0]);
      ShownWellFormed(ms[0]);
      WellFormedAppend(a, [CLOSE]);
      MembersWellFormed(ms[1..]);
      WellFormedAppend(a, [COMMA]);
      WellFormedAppend(a + [COMMA], ShowMembers(ms[1..]));
    }
  }

  lemma StringifiedWellFormed(ms: seq<Member>)
    ensures WellFormed(Stringify(ms))
  {
    WellFormedPlain(OPEN);
    MembersWellFormed(ms);
    WellFormedAppend([OPEN], ShowMembers(ms));
  }

  /** So UTF-8 carries it unchanged. */
  lemma StringifiedSurvivesUtf8(ms: seq<Member>)
    ensures TextDecode(TextEncode(Stringify(ms))) == Stringify(ms)
  {
    StringifiedWellFormed(ms);
    TextRoundTripExactly(Stringify(ms));
  }

  // ----- no beginning of an object is an object -----

  /** The texts are the same as far as n. */
  predicate Agree(p: text, t: text, n: nat) {
    n <= |p| && n <= |t| && forall k :: 0 <= k < n ==> p[k] == t[k]
  }

  lemma UnitStable(p: text, t: text, i: nat)
    requires i < |p| && ParseUnit(p, i).Some? && Agree(p, t, ParseUnit(p, i).value.next)
    ensures i < |t| && ParseUnit(t, i) == ParseUnit(p, i)
  {
  }

  lemma {:induction false} UnitsStable(p: text, t: text, i: nat)
    requires ParseUnits(p, i).Some? && Agree(p, t, ParseUnits(p, i).value.next)
    ensures ParseUnits(t, i) == ParseUnits(p, i)
    decreases |p| - i
  {
    assert p[i] == t[i];
    if p[i] == QUOTE {
    } else {
      UnitStable(p, t, i);
      UnitsStable(p, t, ParseUnit(p, i).value.next);
    }
  }

  lemma StringStable(p: text, t: text, i: nat)
    requires ParseString(p, i).Some? && Agree(p, t, ParseString(p, i).value.next)
    ensures ParseString(t, i) == ParseString(p, i)
  {
    UnitsStable(p, t, i + 1);
  }

  lemma {:induction false} DigitsStable(p: text, t: text, i: nat, before: nat)
    requires i <= |p| && ParseDigits(p, i, before).next < |p| && Agree(p, t, ParseDigits(p, i, before).next + 1)
    ensures i <= |t| && ParseDigits(t, i, before) == ParseDigits(p, i, before)
    decreases |p| - i
  {
    assert p[i] == t[i];
    if !IsDigit(p[i]) {
    } else {
      DigitsStable(p, t, i + 1, 10 * before + (p[i] - ZERO));
    }
  }

  lemma NatStable(p: text, t: text, i: nat)
    requires ParseNat(p, i).Some? && ParseNat(p, i).value.next < |p| && Agree(p, t, ParseNat(p, i).value.next + 1)
    ensures ParseNat(t, i) == ParseNat(p, i)
  {
    assert p[i] == t[i];
    DigitsStable(p, t, i + 1, p[i] - ZERO);
  }

  lemma IntStable(p: text, t: text, i: nat)
    requires ParseInt(p, i).Some? && ParseInt(p, i).value.next < |p| && Agree(p, t, ParseInt(p, i).value.next + 1)
    ensures ParseInt(t, i) == ParseInt(p, i)
  {
    assert p[i] == t[i];
    NatStable(p, t, if p[i] == MINUS then i + 1 else i);
  }

  lemma ValueStable(p: text, t: text, i: nat)
    requires ParseValue(p, i).Some? && ParseValue(p, i).value.next < |p| && Agree(p, t, ParseValue(p, i).value.next + 1)
    ensures ParseValue(t, i) == ParseValue(p, i)
  {
    assert p[i] == t[i];
    if p[i] == QUOTE {
      StringStable(p, t, i);
    } else {
      IntStable(p, t, i);
    }
  }

  lemma MemberStable(p: text, t: text, i: nat)
    requires ParseMember(p, i).Some? && ParseMember(p, i).value.next < |p|
    requires Agree(p, t, ParseMember(p, i).value.next + 1)
    ensures ParseMember(t, i) == ParseMember(p, i)
  {
    StringStable(p, t, i);
    var name := ParseString(p, i).value;
    assert p[name.next] == t[name.next];
    ValueStable(p, t, name.next + 1);
  }

  lemma {:induction false} MembersStable(p: text, t: text, i: nat)
    requires ParseMembers(p, i).Some? && Agree(p, t, ParseMembers(p, i).value.next)
    ensures ParseMembers(t, i) == ParseMembers(p, i)
    decreases |p| - i
  {
    MemberStable(p, t, i);
    var next := ParseMember(p, i).value.next;
    assert p[next] == t[next];
    if p[next] == CLOSE {
    } else {
      MembersStable(p, t, next + 1);
    }
  }

  lemma ObjectStable(p: text, t: text, i: nat)
    requires ParseObject(p, i).Some? && Agree(p, t, ParseObject(p, i).value.next)
    ensures ParseObject(t, i) == ParseObject(p, i)
  {
    assert p[i] == t[i] && p[i + 1] == t[i + 1];
    if p[i + 1] != CLOSE {
      MembersStable(p, t, i + 1);
    }
  }

  /** An object read from a text cut at k, with or without a U+FFFD behind the cut, lies before the cut. */
  lemma EndsBeforeCut(p: text, t: text, k: nat)
    requires k <= |t| && k <= |p| <= k + 1 && p[..k] == t[..k] && (|p| == k + 1 ==> p[k] == REPLACEMENT)
    requires ParseObject(p, 0).Some? && Blank(p, ParseObject(p, 0).value.next)
    ensures Agree(p, t, ParseObject(p, 0).value.next) && ParseObject(p, 0).value.next <= k
  {
    var next := ParseObject(p, 0).value.next;
    assert p[next - 1] == CLOSE;
    assert next <= k;
    forall i | 0 <= i < next ensures p[i] == t[i] {
      assert p[..k][i] == t[..k][i];
    }
  }

  /** A text cut short, with or without a U+FFFD where the cut fell, no longer parses. */
  lemma TruncatedFails(ms: seq<Member>, k: nat, mark: bool)
    requires k < |Stringify(ms)|
    ensures Parse(Stringify(ms)[..k] + (if mark then [REPLACEMENT as Unit] else [])).None?
  {
    var t := Stringify(ms);
    var p := t[..k] + (if mark then [REPLACEMENT as Unit] else []);
    if Parse(p).Some? {
      assert p[..k] == t[..k];
      EndsBeforeCut(p, t, k);
      ObjectStable(p, t, 0);
      ParseStringified(t, 0, ms, |t|);
    }
  }
}

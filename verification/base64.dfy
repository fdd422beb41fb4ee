/** Base64 (sections 4 and 5 of RFC 4648) as the browser and the server have it. */
module Base64 {
  import opened Bytes
  import opened Sequences
  import opened Wrappers

  type Sextet = x: int | 0 <= x < 64

  function Digit(x: Sextet): char {
    if x < 26 then ('A' as int + x) as char
    else if x < 52 then ('a' as int + (x - 26)) as char
    else if x < 62 then ('0' as int + (x - 52)) as char
    else if x == 62 then '+'
    else '/'
  }

  function Value(ch: char): Option<Sextet> {
    if 'A' <= ch <= 'Z' then Some(ch as int - 'A' as int)
    else if 'a' <= ch <= 'z' then Some(ch as int - 'a' as int + 26)
    else if '0' <= ch <= '9' then Some(ch as int - '0' as int + 52)
    else if ch == '+' then Some(62)
    else if ch == '/' then Some(63)
    else None
  }

  lemma DigitValue(x: Sextet)
    ensures Value(Digit(x)) == Some(x) && Digit(x) !in {'=', '-', '_'}
  {
  }

  /** A character has a value exactly when it is a digit. */
  lemma ValueExactly(ch: char, x: Sextet)
    ensures Value(ch) == Some(x) <==> ch == Digit(x)
  {
  }

  /** Three bytes as four groups of six bits. */
  function Quad(x: byte, y: byte, z: byte): (v: seq<Sextet>)
    ensures |v| == 4
  {
    [x / 4, x % 4 * 16 + y / 16, y % 16 * 4 + z / 64, z % 64]
  }

  /** Bytes as groups of six bits, the last group filled with zeros. */
  function Sextets(b: bytes): seq<Sextet> {
    if |b| == 0 then []
    else if |b| == 1 then Quad(b[0], 0, 0)[..2]
    else if |b| == 2 then Quad(b[0], b[1], 0)[..3]
    else Quad(b[0], b[1], b[2]) + Sextets(b[3..])
  }

  function First(a: Sextet, b: Sextet): byte {
    a * 4 + b / 16
  }

  function Second(b: Sextet, c: Sextet): byte {
    b % 16 * 16 + c / 4
  }

  function Third(c: Sextet, d: Sextet): byte {
    c % 4 * 64 + d
  }

  /** Groups of six bits as bytes, bits left over discarded. */
  function Octets(v: seq<Sextet>): bytes {
    if |v| < 2 then []
    else if |v| == 2 then [First(v[0], v[1])]
    else if |v| == 3 then [First(v[0], v[1]), Second(v[1], v[2])]
    else [First(v[0], v[1]), Second(v[1], v[2]), Third(v[2], v[3])] + Octets(v[4..])
  }

  function Chars(v: seq<Sextet>): string {
    seq(|v|, i requires 0 <= i < |v| => Digit(v[i]))
  }

  predicate AllDigits(s: string) {
    forall i :: 0 <= i < |s| ==> Value(s[i]).Some?
  }

  function Values(s: string): seq<Sextet>
    requires AllDigits(s)
  {
    seq(|s|, i requires 0 <= i < |s| => Value(s[i]).value)
  }

  /** The encoding without its padding. */
  function Unpadded(b: bytes): string {
    Chars(Sextets(b))
  }

  function Padding(n: nat): string {
    if n % 3 == 1 then "==" else if n % 3 == 2 then "=" else ""
  }

  /** btoa, and Go's StdEncoding.EncodeToString. */
  function Encode(b: bytes): string {
    Unpadded(b) + Padding(|b|)
  }

  /** Decode digits without padding. */
  function DecodeDigits(s: string): Option<bytes> {
    if AllDigits(s) && |s| % 4 != 1 then Some(Octets(Values(s))) else None
  }

  function Without(s: string, drop: set<char>): string {
    if s == "" then "" else (if s[0] in drop then "" else [s[0]]) + Without(s[1..], drop)
  }

  const ASCII_WHITESPACE: set<char> := {'\t', '\n', '\U{0C}', '\r', ' '}

  /** Up to two padding characters off the end of a text whose length is a multiple of four. */
  function Unpad(s: string): string {
    var n := |s|;
    if n == 0 || n % 4 != 0 || s[n - 1] != '=' then s
    else if s[n - 2] != '=' then s[..n - 1]
    else s[..n - 2]
  }

  /** atob: the forgiving decoder of the WHATWG Infra Standard. */
  function Atob(s: string): Option<bytes> {
    DecodeDigits(Unpad(Without(s, ASCII_WHITESPACE)))
  }

  /** Go's StdEncoding.DecodeString: newlines are skipped and the padding must be there. */
  function GoDecode(s: string): Option<bytes> {
    var t := Without(s, {'\r', '\n'});
    if |t| % 4 == 0 then DecodeDigits(Unpad(t)) else None
  }

  // ----- decoding undoes encoding -----

  lemma Cut16(high: nat, low: nat)
    requires low < 16
    ensures (high * 16 + low) / 16 == high && (high * 16 + low) % 16 == low
  {
  }

  lemma Cut4(high: nat, low: nat)
    requires low < 4
    ensures (high * 4 + low) / 4 == high && (high * 4 + low) % 4 == low
  {
  }

  lemma FirstIs(x: byte, low: nat)
    requires low < 16
    ensures First(x / 4, x % 4 * 16 + low) == x
  {
    Cut16(x % 4, low);
  }

  lemma SecondIs(high: nat, y: byte, low: nat)
    requires high < 4 && low < 4
    ensures Second(high * 16 + y / 16, y % 16 * 4 + low) == y
  {
    Cut16(high, y / 16);
    Cut4(y % 16, low);
  }

  /** Three bytes cut into four groups of six bits, and joined again. */
  lemma QuadJoins(x: byte, y: byte, z: byte)
    ensures var v := Quad(x, y, z); First(v[0], v[1]) == x && Second(v[1], v[2]) == y && Third(v[2], v[3]) == z
  {
    FirstIs(x, y / 16);
    SecondIs(x % 4, y, z / 64);
    Cut4(y % 16, z / 64);
  }

  lemma OctetsQuad(v: seq<Sextet>, rest: seq<Sextet>)
    requires |v| == 4
    ensures Octets(v + rest) == [First(v[0], v[1]), Second(v[1], v[2]), Third(v[2], v[3])] + Octets(rest)
    ensures Octets(v[..2]) == [First(v[0], v[1])]
    ensures Octets(v[..3]) == [First(v[0], v[1]), Second(v[1], v[2])]
  {
    assert (v + rest)[4..] == rest;
  }

  /** One to three bytes and what follows: the first groups join to those bytes. */
  lemma OctetsHead(x: byte, y: byte, z: byte, rest: seq<Sextet>)
    ensures Octets(Quad(x, y, z) + rest) == [x, y, z] + Octets(rest)
    ensures Octets(Quad(x, y, z)[..2]) == [x]
    ensures Octets(Quad(x, y, z)[..3]) == [x, y]
  {
    QuadJoins(x, y, z);
    OctetsQuad(Quad(x, y, z), rest);
  }

  lemma {:induction false} OctetsSextets(b: bytes)
    ensures Octets(Sextets(b)) == b
    decreases |b|
  {
    if |b| == 1 {
      OctetsHead(b[0], 0, 0, []);
    } else if |b| == 2 {
      OctetsHead(b[0], b[1], 0, []);
    } else if |b| >= 3 {
      OctetsSextets(b[3..]);
      OctetsHead(b[0], b[1], b[2], Sextets(b[3..]));
      assert b == [b[0], b[1], b[2]] + b[3..];
    }
  }

  /** Bytes make groups of four characters, the last one padded. */
  function Groups(n: nat): nat {
    if n >= 3 then 1 + Groups(n - 3) else if n == 0 then 0 else 1
  }

  lemma PaddingStep(n: nat)
    ensures Padding(n + 3) == Padding(n)
  {
  }

  lemma {:induction false} SextetsFill(b: bytes)
    ensures |Sextets(b)| + |Padding(|b|)| == 4 * Groups(|b|)
    decreases |b|
  {
    if |b| < 3 {
    } else {
      SextetsFill(b[3..]);
      PaddingStep(|b| - 3);
    }
  }

  lemma QuadLast(x: byte, y: byte)
    ensures Quad(x, 0, 0)[1] % 16 == 0 && Quad(x, y, 0)[2] % 4 == 0
  {
    Cut16(x % 4, 0);
    Cut4(y % 16, 0);
  }

  lemma SextetsMore(b: bytes)
    requires |b| > 3
    ensures |Sextets(b)| > 4 && Sextets(b)[|Sextets(b)| - 1] == Sextets(b[3..])[|Sextets(b[3..])| - 1]
  {
    var rest := Sextets(b[3..]);
    assert |rest| > 0;
    assert Sextets(b) == Quad(b[0], b[1], b[2]) + rest;
  }

  lemma ThreeLess(n: nat)
    requires n >= 3
    ensures (n - 3) % 3 == n % 3
  {
  }

  /** The bits that fill the last group of six are zeros. */
  lemma {:induction false} FilledWithZeros(b: bytes)
    requires |b| % 3 != 0
    ensures Sextets(b) != []
    ensures Sextets(b)[|Sextets(b)| - 1] % (if |b| % 3 == 1 then 16 else 4) == 0
    decreases |b|
  {
    if |b| < 3 {
      QuadLast(b[0], if |b| == 2 then b[1] else 0);
    } else {
      ThreeLess(|b|);
      SextetsMore(b);
      FilledWithZeros(b[3..]);
    }
  }

  lemma ThirdsStep(n: nat)
    ensures (n + 3 + 2) / 3 == (n + 2) / 3 + 1 && (4 * (n + 3) + 2) / 3 == (4 * n + 2) / 3 + 4
  {
  }

  lemma {:induction false} GroupsIs(n: nat)
    ensures Groups(n) == (n + 2) / 3 && 4 * Groups(n) == (4 * n + 2) / 3 + |Padding(n)|
  {
    if n < 3 {
    } else {
      GroupsIs(n - 3);
      ThirdsStep(n - 3);
      PaddingStep(n - 3);
    }
  }

  lemma FourGroups(n: nat, groups: nat, padding: nat)
    requires n + padding == 4 * groups && padding <= 2
    ensures (n + padding) % 4 == 0 && n % 4 != 1
  {
  }

  lemma ValuesChars(v: seq<Sextet>)
    ensures AllDigits(Chars(v)) && Values(Chars(v)) == v
  {
    forall i | 0 <= i < |v| ensures Value(Chars(v)[i]) == Some(v[i]) {
      DigitValue(v[i]);
    }
  }

  lemma UnpaddedRoundTrip(b: bytes)
    ensures |Unpadded(b)| + |Padding(|b|)| == 4 * Groups(|b|)
    ensures AllDigits(Unpadded(b)) && DecodeDigits(Unpadded(b)) == Some(b)
  {
    SextetsFill(b);
    FourGroups(|Sextets(b)|, Groups(|b|), |Padding(|b|)|);
    OctetsSextets(b);
    ValuesChars(Sextets(b));
  }

  /** Unpadding takes off exactly what padding has put on. */
  lemma UnpadPadded(u: string, p: string)
    requires AllDigits(u) && p in {"", "=", "=="} && (|u| + |p|) % 4 == 0
    ensures Unpad(u + p) == u
  {
    var s := u + p;
    assert s[..|u|] == u;
    assert |u| > 0 ==> s[|u| - 1] == u[|u| - 1] && Value(u[|u| - 1]).Some?;
  }

  lemma {:induction false} WithoutNothing(s: string, drop: set<char>)
    requires forall i :: 0 <= i < |s| ==> s[i] !in drop
    ensures Without(s, drop) == s
  {
    if s == "" {
    } else {
      WithoutNothing(s[1..], drop);
    }
  }

  predicate IsText(s: string) {
    forall i :: 0 <= i < |s| ==> Value(s[i]).Some? || s[i] == '='
  }

  lemma NotSpace(ch: char)
    requires Value(ch).Some? || ch == '='
    ensures ch !in ASCII_WHITESPACE
  {
  }

  lemma TextHasNoSpace(s: string)
    requires IsText(s)
    ensures forall i :: 0 <= i < |s| ==> s[i] !in ASCII_WHITESPACE
  {
    forall i | 0 <= i < |s| ensures s[i] !in ASCII_WHITESPACE {
      NotSpace(s[i]);
    }
  }

  lemma DigitsThenPadding(u: string, p: string)
    requires AllDigits(u) && p in {"", "=", "=="}
    ensures IsText(u + p)
  {
    forall i | 0 <= i < |u + p| ensures Value((u + p)[i]).Some? || (u + p)[i] == '=' {
      assert i < |u| ==> (u + p)[i] == u[i];
    }
  }

  lemma EncodeIsText(b: bytes)
    ensures IsText(Encode(b))
  {
    UnpaddedRoundTrip(b);
    DigitsThenPadding(Unpadded(b), Padding(|b|));
  }

  lemma EncodeLength(b: bytes)
    ensures |Encode(b)| == 4 * ((|b| + 2) / 3)
  {
    UnpaddedRoundTrip(b);
    GroupsIs(|b|);
  }

  lemma UnpadEncode(b: bytes)
    ensures |Encode(b)| % 4 == 0 && Unpad(Encode(b)) == Unpadded(b)
  {
    UnpaddedRoundTrip(b);
    FourGroups(|Unpadded(b)|, Groups(|b|), |Padding(|b|)|);
    UnpadPadded(Unpadded(b), Padding(|b|));
  }

  /** What the browser encodes both the browser and the server decode to the same bytes. */
  lemma EncodeRoundTrip(b: bytes)
    ensures |Encode(b)| == 4 * ((|b| + 2) / 3)
    ensures Atob(Encode(b)) == Some(b) && GoDecode(Encode(b)) == Some(b)
  {
    UnpaddedRoundTrip(b);
    EncodeLength(b);
    UnpadEncode(b);
    EncodeIsText(b);
    TextHasNoSpace(Encode(b));
    WithoutNothing(Encode(b), ASCII_WHITESPACE);
    WithoutNothing(Encode(b), {'\r', '\n'});
  }

  // ----- the decoders on any text -----

  lemma {:induction false} WithoutTwice(s: string, few: set<char>, many: set<char>)
    requires few <= many
    ensures Without(Without(s, few), many) == Without(s, many)
  {
    if s == "" {
    } else {
      WithoutTwice(s[1..], few, many);
      var rest := Without(s[1..], few);
      if s[0] in few {
        assert Without(s, few) == rest;
      } else {
        assert ([s[0]] + rest)[1..] == rest;
      }
    }
  }

  lemma UnpadKeepsDigits(t: string)
    requires AllDigits(Unpad(t))
    ensures IsText(t)
  {
    var u := Unpad(t);
    forall i | 0 <= i < |t| ensures Value(t[i]).Some? || t[i] == '=' {
      if i < |u| {
        assert t[i] == u[i];
      } else {
        assert t[i] == t[|u|..][i - |u|];
      }
    }
  }

  /** Digits and up to two padding characters behind them. */
  ghost predicate DigitsAndPadding(t: string, u: string, p: string) {
    t == u + p && AllDigits(u) && p in {"", "=", "=="}
  }

  lemma UnpadParts(t: string) returns (p: string)
    ensures t == Unpad(t) + p && p in {"", "=", "=="}
  {
    var n := |t|;
    p := t[|Unpad(t)|..];
    if |Unpad(t)| == n - 2 {
      assert p == [t[n - 2], t[n - 1]] == "==";
    } else if |Unpad(t)| == n - 1 {
      assert p == [t[n - 1]] == "=";
    }
  }

  lemma PartsDecode(t: string, u: string, p: string)
    requires |t| % 4 == 0 && DigitsAndPadding(t, u, p)
    ensures DecodeDigits(Unpad(t)) == Some(Octets(Values(u)))
  {
    UnpadPadded(u, p);
    NotOneMore(|u|, |p|);
  }

  lemma NotOneMore(n: nat, padding: nat)
    requires (n + padding) % 4 == 0 && padding <= 2
    ensures n % 4 != 1
  {
  }

  ghost predicate HasParts(t: string) {
    exists u, p :: DigitsAndPadding(t, u, p)
  }

  lemma PaddedTextExactly(t: string)
    requires |t| % 4 == 0
    ensures DecodeDigits(Unpad(t)).Some? <==> HasParts(t)
  {
    if DecodeDigits(Unpad(t)).Some? {
      var p := UnpadParts(t);
      assert DigitsAndPadding(t, Unpad(t), p);
    }
    if HasParts(t) {
      var u, p :| DigitsAndPadding(t, u, p);
      PartsDecode(t, u, p);
    }
  }

  /** Go's decoder takes exactly the texts that, line breaks left out, are digits and padding to a multiple of
      four, and reads the digits. */
  lemma GoDecodeExactly(s: string, u: string, p: string)
    ensures var t := Without(s, {'\r', '\n'});
      && (GoDecode(s).Some? <==> |t| % 4 == 0 && HasParts(t))
      && (GoDecode(s).Some? && DigitsAndPadding(t, u, p) ==> GoDecode(s) == Some(Octets(Values(u))))
  {
    var t := Without(s, {'\r', '\n'});
    if |t| % 4 == 0 {
      PaddedTextExactly(t);
      if DigitsAndPadding(t, u, p) {
        PartsDecode(t, u, p);
      }
    }
  }

  /** The browser's decoder takes, white space left out, the same, and digits without their padding. */
  lemma AtobExactly(s: string)
    ensures var t := Without(s, {'\t', '\n', '\U{0C}', '\r', ' '});
      Atob(s).Some? <==> (if |t| % 4 == 0 then HasParts(t) else |t| % 4 > 1 && AllDigits(t))
  {
    var t := Without(s, ASCII_WHITESPACE);
    if |t| % 4 == 0 {
      PaddedTextExactly(t);
    }
  }

  lemma WithoutOne(ch: char, rest: string, drop: set<char>)
    ensures Without([ch] + rest, drop) == (if ch in drop then "" else [ch]) + Without(rest, drop)
  {
    assert ([ch] + rest)[1..] == rest;
  }

  /** Leaving characters out works piece by piece, and keeps the order. */
  lemma {:induction false} WithoutAppend(s: string, t: string, drop: set<char>)
    ensures Without(s + t, drop) == Without(s, drop) + Without(t, drop)
  {
    if s == "" {
      assert s + t == t;
    } else {
      var first := if s[0] in drop then "" else [s[0]];
      WithoutAppend(s[1..], t, drop);
      WithoutOne(s[0], s[1..] + t, drop);
      assert s + t == [s[0]] + (s[1..] + t);
      Associative(first, Without(s[1..], drop), Without(t, drop));
    }
  }

  lemma UnpadKeepsText(t: string)
    requires AllDigits(Unpad(t))
    ensures Without(t, ASCII_WHITESPACE) == t
  {
    UnpadKeepsDigits(t);
    TextHasNoSpace(t);
    WithoutNothing(t, ASCII_WHITESPACE);
  }

  /** Whatever the server accepts, the browser's decoder accepts too, and reads the same bytes. */
  lemma ServerImpliesBrowser(s: string)
    requires GoDecode(s).Some?
    ensures Atob(s) == GoDecode(s)
  {
    UnpadKeepsText(Without(s, {'\r', '\n'}));
    WithoutTwice(s, {'\r', '\n'}, ASCII_WHITESPACE);
  }
}

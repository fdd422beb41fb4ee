/** The browser's byte and text helpers, loop by loop. */
module ClientCodec {
  import opened Bytes
  import opened Base64
  import opened Wrappers

  /** A binary string: one character for each byte. */
  function Binary(b: bytes): string {
    seq(|b|, i requires 0 <= i < |b| => b[i] as char)
  }

  predicate Latin1(binary: string) {
    forall i :: 0 <= i < |binary| ==> binary[i] as int < 256
  }

  function Codes(binary: string): bytes
    requires Latin1(binary)
  {
    seq(|binary|, i requires 0 <= i < |binary| => binary[i] as byte)
  }

  /** btoa, which throws on a character above 255. */
  function Btoa(binary: string): Option<string> {
    if Latin1(binary) then Some(Encode(Codes(binary))) else None
  }

  lemma BtoaBinary(b: bytes)
    ensures Btoa(Binary(b)) == Some(Encode(b))
  {
    assert Codes(Binary(b)) == b;
  }

  function ReplaceAll(s: string, from: char, to: char): string {
    seq(|s|, i requires 0 <= i < |s| => if s[i] == from then to else s[i])
  }

  /** Section 5 of RFC 4648: the digits of the URL and filename safe alphabet. */
  function UrlDigit(x: Sextet): char {
    if x == 62 then '-' else if x == 63 then '_' else Digit(x)
  }

  /** Section 5 with the padding left out, as section 3.2 allows. */
  function UrlEncode(b: bytes): string {
    var v := Sextets(b);
    seq(|v|, i requires 0 <= i < |v| => UrlDigit(v[i]))
  }

  function ToStandard(s: string): string {
    ReplaceAll(ReplaceAll(s, '-', '+'), '_', '/')
  }

  function PadLength(n: nat): nat {
    (4 - n % 4) % 4
  }

  function Pads(n: nat): string {
    seq(n, _ => '=')
  }

  function UrlDecode(s: string): Option<bytes> {
    var t := ToStandard(s);
    Atob(t + Pads(PadLength(|t|)))
  }

  /** The loop stops at the first multiple of four. */
  lemma LastPad(n: nat, k: nat)
    requires k <= PadLength(n)
    ensures (n + k) % 4 == 0 <==> k == PadLength(n)
  {
  }

  lemma MorePads(s: string, k: nat)
    ensures s + Pads(k) + "=" == s + Pads(k + 1)
  {
  }

  method ArrayToBase64(data: array<byte>) returns (text: string)
    ensures text == Encode(data[..])
  {
    var binary := "";
    var i := 0;
    while i < data.Length
      invariant 0 <= i <= data.Length
      invariant binary == Binary(data[..i])
    {
      binary := binary + [data[i] as char];
      i := i + 1;
    }
    assert data[..i] == data[..];
    BtoaBinary(data[..]);
    text := Btoa(binary).value;
  }

  method ArrayToBase64Url(data: array<byte>) returns (text: string)
    ensures text == UrlEncode(data[..])
  {
    text := ArrayToBase64(data);
    UrlEncodeIs(data[..]);
    text := Without(ReplaceAll(ReplaceAll(text, '+', '-'), '/', '_'), {'='});
  }

  method Base64ToArray(b64: string) returns (r: Option<array<byte>>)
    ensures r.Some? <==> Atob(b64).Some?
    ensures r.Some? ==> fresh(r.value) && r.value[..] == Atob(b64).value
  {
    var decoded := Atob(b64);
    if decoded.None? {
      return None;
    }
    var binary := Binary(decoded.value);
    var data := new byte[|binary|];
    var i := 0;
    while i < |binary|
      invariant 0 <= i <= |binary|
      invariant data[..i] == decoded.value[..i]
    {
      data[i] := binary[i] as int;
      i := i + 1;
    }
    r := Some(data);
  }

  method Base64UrlToArray(b64url: string) returns (r: Option<array<byte>>)
    ensures r.Some? <==> UrlDecode(b64url).Some?
    ensures r.Some? ==> fresh(r.value) && r.value[..] == UrlDecode(b64url).value
  {
    var start := ToStandard(b64url);
    var b64 := start;
    ghost var k := 0;
    while |b64| % 4 != 0
      invariant k <= PadLength(|start|)
      invariant b64 == start + Pads(k)
      decreases PadLength(|start|) - k
    {
      LastPad(|start|, k);
      MorePads(start, k);
      b64, k := b64 + "=", k + 1;
    }
    LastPad(|start|, k);
    r := Base64ToArray(b64);
  }

  // ----- what encoding removes, decoding restores -----

  function Swap(s: string): string {
    ReplaceAll(ReplaceAll(s, '+', '-'), '/', '_')
  }

  lemma WithoutPadding(n: nat)
    ensures Without(Padding(n), {'='}) == ""
  {
    assert Without("=", {'='}) == "";
    assert "=="[1..] == "=";
  }

  /** The chain of replacements gives the unpadded URL-safe encoding of RFC 4648. */
  lemma UrlEncodeIs(b: bytes)
    ensures Without(Swap(Encode(b)), {'='}) == UrlEncode(b)
  {
    var u, p := Unpadded(b), Padding(|b|);
    assert Swap(p) == p;
    assert Swap(u + p) == Swap(u) + p;
    assert Swap(u) == UrlEncode(b) by {
      forall i | 0 <= i < |u| ensures Swap(u)[i] == UrlEncode(b)[i] {
        DigitValue(Sextets(b)[i]);
      }
    }
    WithoutAppend(UrlEncode(b), p, {'='});
    forall i | 0 <= i < |UrlEncode(b)| ensures UrlEncode(b)[i] !in {'='} {
      DigitValue(Sextets(b)[i]);
    }
    WithoutNothing(UrlEncode(b), {'='});
    WithoutPadding(|b|);
  }

  lemma StandardOfUrl(b: bytes)
    ensures ToStandard(UrlEncode(b)) == Unpadded(b)
  {
    forall i | 0 <= i < |UrlEncode(b)| ensures ToStandard(UrlEncode(b))[i] == Unpadded(b)[i] {
      DigitValue(Sextets(b)[i]);
    }
  }

  /** What fills the last group of four is what the loop adds. */
  lemma PadLengthIs(n: nat, groups: nat, padding: nat)
    requires n + padding == 4 * groups && padding <= 2
    ensures PadLength(n) == padding
  {
  }

  /** The padding loop restores exactly the padding that was taken off. */
  lemma PaddingRestored(b: bytes)
    ensures |UrlEncode(b)| == (4 * |b| + 2) / 3
    ensures ToStandard(UrlEncode(b)) + Pads(PadLength(|UrlEncode(b)|)) == Encode(b)
  {
    UnpaddedRoundTrip(b);
    StandardOfUrl(b);
    PadLengthIs(|UrlEncode(b)|, Groups(|b|), |Padding(|b|)|);
    GroupsIs(|b|);
    assert Pads(|Padding(|b|)|) == Padding(|b|);
  }

  predicate UrlSafe(ch: char) {
    'A' <= ch <= 'Z' || 'a' <= ch <= 'z' || '0' <= ch <= '9' || ch == '-' || ch == '_'
  }

  lemma UrlText(b: bytes)
    ensures forall i :: 0 <= i < |UrlEncode(b)| ==> UrlSafe(UrlEncode(b)[i])
  {
  }

  /** Round trip, alphabet and length of the text in the link fragment. */
  lemma UrlRoundTrip(b: bytes)
    ensures UrlDecode(UrlEncode(b)) == Some(b)
    ensures forall i :: 0 <= i < |UrlEncode(b)| ==> UrlSafe(UrlEncode(b)[i])
    ensures |b| == 32 ==> |UrlEncode(b)| == 43
  {
    PaddingRestored(b);
    EncodeRoundTrip(b);
    StandardOfUrl(b);
    UrlText(b);
  }

  /** A text of standard or URL-safe digits decodes exactly when its length is not one above a multiple of
      four: the loop then adds three '=' and atob refuses them. */
  lemma UrlDecodeExactly(s: string)
    requires forall i :: 0 <= i < |s| ==> UrlSafe(s[i])
    ensures UrlDecode(s).Some? <==> |s| % 4 != 1
  {
    var t := ToStandard(s);
    var n := PadLength(|t|);
    var p := t + Pads(n);
    forall i | 0 <= i < |p| ensures p[i] !in ASCII_WHITESPACE && (i < |t| ==> p[i] == t[i] && Value(t[i]).Some?) {
      if i < |t| {
        assert UrlSafe(s[i]);
      } else {
        assert p[i] == '=';
      }
    }
    WithoutNothing(p, ASCII_WHITESPACE);
    UnpadPads(t, n);
    if |s| % 4 == 1 {
      assert Unpad(p)[|t|] == '=';
    }
  }

  lemma PadLengthCases(n: nat)
    ensures (n + PadLength(n)) % 4 == 0
    ensures PadLength(n) <= 3 && (PadLength(n) == 3 <==> n % 4 == 1)
  {
  }

  lemma UnpadThree(t: string)
    requires (|t| + 3) % 4 == 0
    ensures Unpad(t + "===") == t + "="
  {
    assert (t + "===")[..|t| + 1] == t + "=";
  }

  lemma UnpadPads(t: string, n: nat)
    requires AllDigits(t) && n == PadLength(|t|)
    ensures n <= 2 ==> Unpad(t + Pads(n)) == t
    ensures n == 3 ==> Unpad(t + Pads(n)) == t + "="
    ensures n == 3 <==> |t| % 4 == 1
  {
    PadLengthCases(|t|);
    if n == 3 {
      assert Pads(n) == "===";
      UnpadThree(t);
    } else {
      assert Pads(n) == if n == 0 then "" else if n == 1 then "=" else "==";
      UnpadPadded(t, Pads(n));
    }
  }
}

/** The size limits of the browser, the handler and the service. */
module Limits {
  import opened Bytes
  import opened Client
  import opened Envelope
  import opened SecretHandler
  import opened Utf8
  import opened Wrappers
  import Base64
  import Json

  // ----- how long the request body is -----

  predicate AsciiText(s: text) {
    forall i :: 0 <= i < |s| ==> s[i] < 0x80
  }

  lemma {:induction false} AsciiBytes(s: text)
    requires AsciiText(s)
    ensures |TextEncode(s)| == |s|
  {
    if s == [] {
    } else {
      assert !Paired(s) && !Surrogate(s[0]) by {
        assert s[0] < 0x80;
      }
      AsciiBytes(s[1..]);
    }
  }

  predicate NeedsNoEscape(u: Unit) {
    0x20 <= u < 0x80 && u != Json.QUOTE && u != Json.BACKSLASH
  }

  lemma {:induction false} EscapesNothing(s: text)
    requires forall i :: 0 <= i < |s| ==> NeedsNoEscape(s[i])
    ensures Json.EscapeAll(s) == s
  {
    if s == [] {
    } else {
      assert NeedsNoEscape(s[0]);
      EscapesNothing(s[1..]);
      assert s == [s[0]] + s[1..];
    }
  }

  lemma PlainQuote(s: string)
    requires IsAscii(s) && forall i :: 0 <= i < |s| ==> NeedsNoEscape(s[i] as int)
    ensures |Json.Quote(Ascii(s))| == |s| + 2 && AsciiText(Json.Quote(Ascii(s)))
  {
    EscapesNothing(Ascii(s));
  }

  /** JSON leaves base64 as it is. */
  lemma Base64Quote(b: bytes)
    ensures IsAscii(Base64.Encode(b))
    ensures |Json.Quote(Ascii(Base64.Encode(b)))| == 4 * ((|b| + 2) / 3) + 2
    ensures AsciiText(Json.Quote(Ascii(Base64.Encode(b))))
  {
    var s := Base64.Encode(b);
    EncodeAscii(b);
    Base64.EncodeIsText(b);
    forall i | 0 <= i < |s| ensures NeedsNoEscape(s[i] as int) {
      assert Base64.Value(s[i]).Some? || s[i] == '=';
    }
    PlainQuote(s);
    Base64.EncodeLength(b);
  }

  lemma AsciiAppend(s: text, t: text)
    requires AsciiText(s) && AsciiText(t)
    ensures AsciiText(s + t)
  {
  }

  lemma {:induction false} ShownAscii(ms: seq<Json.Member>)
    requires forall i :: 0 <= i < |ms| ==> AsciiText(Json.ShowMember(ms[i]))
    ensures AsciiText(Json.ShowMembers(ms))
  {
    if ms == [] {
    } else {
      ShownAscii(ms[1..]);
      var w := Json.ShowMember(ms[0]);
      AsciiAppend(w, [Json.CLOSE]);
      AsciiAppend(w, [Json.COMMA]);
      AsciiAppend(w + [Json.COMMA], Json.ShowMembers(ms[1..]));
    }
  }

  lemma ThreeMembers(a: Json.Member, b: Json.Member, c: Json.Member)
    requires AsciiText(Json.ShowMember(a)) && AsciiText(Json.ShowMember(b)) && AsciiText(Json.ShowMember(c))
    ensures |TextEncode(Json.Stringify([a, b, c]))|
      == |Json.ShowMember(a)| + |Json.ShowMember(b)| + |Json.ShowMember(c)| + 4
  {
    assert [a, b, c][1..] == [b, c] && [b, c][1..] == [c];
    assert |Json.ShowMembers([b, c])| == |Json.ShowMember(b)| + |Json.ShowMember(c)| + 2;
    ShownAscii([a, b, c]);
    AsciiAppend([Json.OPEN], Json.ShowMembers([a, b, c]));
    AsciiBytes(Json.Stringify([a, b, c]));
  }

  lemma StringMember(name: string, value: text)
    requires IsAscii(name) && forall i :: 0 <= i < |name| ==> NeedsNoEscape(name[i] as int)
    requires AsciiText(Json.Quote(value))
    ensures var w := Json.ShowMember(Json.Member(Ascii(name), Json.Str(value)));
      AsciiText(w) && |w| == |name| + 3 + |Json.Quote(value)|
  {
    PlainQuote(name);
    AsciiAppend(Json.Quote(Ascii(name)), [Json.COLON]);
    AsciiAppend(Json.Quote(Ascii(name)) + [Json.COLON], Json.Quote(value));
  }

  lemma IntMember(name: string, n: nat)
    requires IsAscii(name) && forall i :: 0 <= i < |name| ==> NeedsNoEscape(name[i] as int)
    ensures var w := Json.ShowMember(Json.Member(Ascii(name), Json.Int(n)));
      AsciiText(w) && |w| == |name| + 3 + |Json.Digits(n)|
  {
    PlainQuote(name);
    Json.DigitsShape(n);
    AsciiAppend(Json.Quote(Ascii(name)), [Json.COLON]);
    AsciiAppend(Json.Quote(Ascii(name)) + [Json.COLON], Json.Digits(n));
  }

  /** The bytes of a request for so many bytes of ciphertext and nonce and so many digits of expiry. */
  function JsonSize(ciphertext: nat, nonce: nat, digits: nat): nat {
    42 + 4 * ((ciphertext + 2) / 3) + 4 * ((nonce + 2) / 3) + digits
  }

  lemma RequestSize(ciphertext: bytes, nonce: bytes, expiresIn: nat)
    ensures IsAscii(Base64.Encode(ciphertext)) && IsAscii(Base64.Encode(nonce))
    ensures |TextEncode(RequestText(Body(Base64.Encode(ciphertext), Base64.Encode(nonce)), expiresIn))|
      == JsonSize(|ciphertext|, |nonce|, |Json.Digits(expiresIn)|)
  {
    Base64Quote(ciphertext);
    Base64Quote(nonce);
    MembersSize(Ascii(Base64.Encode(ciphertext)), Ascii(Base64.Encode(nonce)), expiresIn);
    var body := Body(Base64.Encode(ciphertext), Base64.Encode(nonce));
    assert PayloadMembers(body) + [Json.Member(EXPIRES_IN, Json.Int(expiresIn))]
      == RequestMembers(Ascii(body.ciphertext), Ascii(body.nonce), expiresIn);
  }

  function RequestMembers(ciphertext: text, nonce: text, expiresIn: nat): seq<Json.Member> {
    [Json.Member(CIPHERTEXT, Json.Str(ciphertext)), Json.Member(NONCE, Json.Str(nonce)),
     Json.Member(EXPIRES_IN, Json.Int(expiresIn))]
  }

  predicate Sized(m: Json.Member, n: nat) {
    AsciiText(Json.ShowMember(m)) && |Json.ShowMember(m)| == n
  }

  lemma CiphertextSize(ciphertext: text)
    requires AsciiText(Json.Quote(ciphertext))
    ensures Sized(Json.Member(CIPHERTEXT, Json.Str(ciphertext)), |Json.Quote(ciphertext)| + 13)
  {
    StringMember("ciphertext", ciphertext);
  }

  lemma NonceSize(nonce: text)
    requires AsciiText(Json.Quote(nonce))
    ensures Sized(Json.Member(NONCE, Json.Str(nonce)), |Json.Quote(nonce)| + 8)
  {
    StringMember("nonce", nonce);
  }

  lemma ExpirySize(expiresIn: nat)
    ensures Sized(Json.Member(EXPIRES_IN, Json.Int(expiresIn)), |Json.Digits(expiresIn)| + 13)
  {
    IntMember("expires_in", expiresIn);
  }

  lemma MembersSize(ciphertext: text, nonce: text, expiresIn: nat)
    requires AsciiText(Json.Quote(ciphertext)) && AsciiText(Json.Quote(nonce))
    ensures |TextEncode(Json.Stringify(RequestMembers(ciphertext, nonce, expiresIn)))|
      == |Json.Quote(ciphertext)| + |Json.Quote(nonce)| + |Json.Digits(expiresIn)| + 38
  {
    CiphertextSize(ciphertext);
    NonceSize(nonce);
    ExpirySize(expiresIn);
    ThreeMembers(Json.Member(CIPHERTEXT, Json.Str(ciphertext)), Json.Member(NONCE, Json.Str(nonce)),
      Json.Member(EXPIRES_IN, Json.Int(expiresIn)));
  }

  function PowerOfTen(k: nat): nat {
    if k == 0 then 1 else 10 * PowerOfTen(k - 1)
  }

  lemma {:induction false} DecimalLength(n: nat, k: nat)
    requires k > 0 && n < PowerOfTen(k)
    ensures 1 <= |Json.Digits(n)| <= k
  {
    if n < 10 {
    } else {
      assert k > 1;
      DecimalLength(n / 10, k - 1);
    }
  }

  lemma Int64Digits(n: nat)
    requires n <= INT64_MAX
    ensures 1 <= |Json.Digits(n)| <= 19
  {
    assert PowerOfTen(9) == 1_000_000_000;
    assert PowerOfTen(14) == 100_000_000_000_000;
    assert PowerOfTen(19) == 10_000_000_000_000_000_000;
    DecimalLength(n, 19);
  }

  // ----- the limits agree -----

  /** The limit on the body lets every ciphertext through that the service would take, exactly when four
      times the limit is still a 64-bit number; beyond that it wraps around. */
  lemma BodyLimitSufficesExactly(maxBytes: int, digits: nat)
    requires 0 <= maxBytes <= INT64_MAX && 1 <= digits <= 19
    ensures 4 * maxBytes <= INT64_MAX
      <==> forall n: nat :: n <= maxBytes ==> Readable(JsonSize(n, 12, digits), maxBytes)
  {
    if 4 * maxBytes <= INT64_MAX {
      forall n: nat | n <= maxBytes ensures Readable(JsonSize(n, 12, digits), maxBytes) {
        LimitFits(n, maxBytes, digits);
      }
    } else {
      LimitWraps(maxBytes, digits);
    }
  }

  lemma LimitFits(n: nat, maxBytes: int, digits: nat)
    requires n <= maxBytes && 4 * maxBytes <= INT64_MAX && digits <= 19
    ensures Readable(JsonSize(n, 12, digits), maxBytes)
  {
    assert BodyLimit(maxBytes) == maxBytes * 4 / 3 + 16384;
  }

  lemma LimitWraps(maxBytes: int, digits: nat)
    requires INT64_MAX < 4 * maxBytes && maxBytes <= INT64_MAX
    ensures !Readable(JsonSize(maxBytes, 12, digits), maxBytes)
  {
    var product := ToInt64(maxBytes * 4);
    assert product <= 4 * maxBytes - 0x1_0000_0000_0000_0000;
    assert Quotient(product, 3) <= if product < 0 then 0 else product / 3;
  }

  /** A file passes every gate, the browser's and the server's, exactly when its extension is not blocked and
      its bytes, its header and 20 bytes more fit: slightly less than the browser's own size check allows. */
  lemma FilePassesExactly(c: Cipher, key: bytes, nonce: bytes, name: text, fileType: text, contents: bytes,
      expiresIn: nat, maxBytes: int)
    requires IsAead(c) && |key| in {16, 24, 32} && |nonce| == 12 && expiresIn <= INT64_MAX
    requires 0 <= maxBytes && 4 * maxBytes <= INT64_MAX
    ensures var entered := File(name, fileType, contents);
      var secret := ToSecret(entered, maxBytes);
      && secret.Ok? && Readable(Request(c, key, nonce, secret.value, expiresIn).size, maxBytes)
      && |Ciphertext(c, key, nonce, secret.value)| <= maxBytes
      <==> !Blocked(name) && |contents| + |HeaderBytes(Or(fileType, OCTET_STREAM), name)| + 20 <= maxBytes
  {
    var secret := Secret(Or(fileType, OCTET_STREAM), name, contents);
    var ciphertext := Ciphertext(c, key, nonce, secret);
    assert |ciphertext| == |contents| + |HeaderBytes(Or(fileType, OCTET_STREAM), name)| + 20;
    if |ciphertext| <= maxBytes {
      RequestSize(ciphertext, nonce, expiresIn);
      Int64Digits(expiresIn);
      LimitFits(|ciphertext|, maxBytes, |Json.Digits(expiresIn)|);
    }
  }
}

/** The two pages: what the submit handler sends and what the reveal handler shows. */
module Client {
  import opened Bytes
  import opened ClientCodec
  import opened Envelope
  import opened SecretHandler
  import opened Utf8
  import opened Wrappers
  import Base64
  import Json
  import SecretStore
  import SecretService

  // ----- AES-GCM, as a parameter -----

  datatype Cipher = Cipher(
    seal: (bytes, bytes, bytes) -> bytes,           // key, nonce, plaintext
    open: (bytes, bytes, bytes) -> Option<bytes>)   // key, nonce, ciphertext

  /** The sizes importKey takes. */
  predicate KeySize(n: nat) {
    n == 16 || n == 24 || n == 32
  }

  /** Section 7 of NIST SP 800-38D: decryption inverts encryption, and the tag takes 16 bytes. */
  ghost predicate IsAead(c: Cipher) {
    forall key, nonce, plain :: |key| in {16, 24, 32} ==>
      c.open(key, nonce, c.seal(key, nonce, plain)) == Some(plain)
      && |c.seal(key, nonce, plain)| == |plain| + 16
  }

  /** There are such functions, if poor ciphers: the plaintext and sixteen zeros. */
  lemma AeadExists()
    ensures exists c :: IsAead(c)
  {
    var tag: bytes := seq(16, _ => 0);
    var c := Cipher((key, nonce, plain) => plain + tag,
                    (key, nonce, sealed) => if |sealed| >= 16 then Some(sealed[..|sealed| - 16]) else None);
    forall key, nonce, plain | |key| in {16, 24, 32}
      ensures c.open(key, nonce, c.seal(key, nonce, plain)) == Some(plain)
              && |c.seal(key, nonce, plain)| == |plain| + 16
    {
      assert (plain + tag)[..|plain|] == plain;
    }
    assert IsAead(c);
  }

  // ----- what is to be shared -----

  /** JavaScript's white space and line terminators. */
  predicate IsSpace(u: Unit) {
    || 0x09 <= u <= 0x0D || u == 0x20 || u == 0xA0 || u == 0x1680 || 0x2000 <= u <= 0x200A
    || u == 0x2028 || u == 0x2029 || u == 0x202F || u == 0x205F || u == 0x3000 || u == 0xFEFF
  }

  function TrimStart(s: text): text {
    if s != [] && IsSpace(s[0]) then TrimStart(s[1..]) else s
  }

  function TrimEnd(s: text): text {
    if s != [] && IsSpace(s[|s| - 1]) then TrimEnd(s[..|s| - 1]) else s
  }

  /** String.prototype.trim. */
  function Trim(s: text): text {
    TrimEnd(TrimStart(s))
  }

  const OCTET_STREAM: text := Ascii("application/octet-stream")
  const SECRET_FILE: text := Ascii("secret-file")
  const TEXT_TYPE: text := Ascii("text/")

  const DOT: Unit := 0x2E

  const BLOCKED_EXTENSIONS: set<string> := {
    "exe", "msi", "bat", "cmd", "com", "pif", "scr",
    "vbs", "vbe", "wsh", "wsf", "ps1", "ps2", "ps1xml", "ps2xml", "psc1", "psc2",
    "app", "dmg", "pkg", "command",
    "sh", "run",
    "jar"
  }

  /** What follows the last dot, everything if there is none. */
  function LastPiece(name: text): text {
    if name == [] || name[|name| - 1] == DOT then [] else LastPiece(name[..|name| - 1]) + [name[|name| - 1]]
  }

  /** toLowerCase as far as it can lead to an extension on the list: of all other characters only the Kelvin
      sign becomes an ASCII letter. */
  function LowerUnit(u: Unit): Unit {
    if 0x41 <= u <= 0x5A then u + 0x20 else if u == 0x212A then 0x6B else u
  }

  function Lower(s: text): text {
    seq(|s|, i requires 0 <= i < |s| => LowerUnit(s[i]))
  }

  predicate Blocked(name: text) {
    DOT in name && Chars(Lower(LastPiece(name))) in BLOCKED_EXTENSIONS
  }

  function CharOf(u: Unit): char {
    if Surrogate(u) then '\U{FFFD}' else u as char
  }

  function Chars(s: text): string {
    seq(|s|, i requires 0 <= i < |s| => CharOf(s[i]))
  }

  lemma {:induction false} LastPieceIs(stem: text, ext: text)
    requires DOT !in ext && (stem == [] || stem[|stem| - 1] == DOT)
    ensures LastPiece(stem + ext) == ext
    decreases |ext|
  {
    var name := stem + ext;
    if ext == [] {
      assert name == stem;
    } else {
      var init, last := ext[..|ext| - 1], ext[|ext| - 1];
      assert name[..|name| - 1] == stem + init && name[|name| - 1] == last && last in ext;
      LastPieceIs(stem, init);
      assert ext == init + [last];
    }
  }

  lemma {:induction false} LastPieceStands(name: text) returns (i: nat)
    requires DOT in name
    ensures i < |name| && name[i] == DOT && name[i + 1..] == LastPiece(name) && DOT !in LastPiece(name)
  {
    var init, last := name[..|name| - 1], name[|name| - 1];
    if last == DOT {
      i := |name| - 1;
    } else {
      assert name == init + [last];
      i := LastPieceStands(init);
      assert name[i + 1..] == init[i + 1..] + [last];
    }
  }

  predicate PlainWord(e: string) {
    forall j :: 0 <= j < |e| ==> 'a' <= e[j] <= 'z' || '0' <= e[j] <= '9'
  }

  lemma ListedPlain(e: string)
    requires e in BLOCKED_EXTENSIONS
    ensures PlainWord(e)
  {
  }

  /** Executables, installers and scripts. */
  lemma ListIs(e: string)
    ensures e in BLOCKED_EXTENSIONS <==> e in {
      "exe", "msi", "bat", "cmd", "com", "pif", "scr", "vbs", "vbe", "wsh", "wsf", "ps1", "ps2", "ps1xml", "ps2xml",
      "psc1", "psc2", "app", "dmg", "pkg", "command", "sh", "run", "jar"}
  {
  }

  /** The unit is the character, or its capital; or the Kelvin sign for a k. */
  predicate CaseForm(u: Unit, ch: char) {
    u == ch as int || ('a' <= ch <= 'z' && u == ch as int - 0x20) || (ch == 'k' && u == 0x212A)
  }

  /** From index i to its end the name spells e, in some mix of cases. */
  predicate Spells(name: text, i: nat, e: string) {
    |name| == i + |e| && forall j :: 0 <= j < |e| ==> CaseForm(name[i + j], e[j])
  }

  lemma LowerForm(u: Unit, ch: char)
    requires 'a' <= ch <= 'z' || '0' <= ch <= '9'
    ensures CharOf(LowerUnit(u)) == ch <==> CaseForm(u, ch)
  {
  }

  lemma LowerSpells(s: text, e: string)
    requires PlainWord(e)
    ensures Chars(Lower(s)) == e <==> Spells(s, 0, e)
  {
    if |s| == |e| {
      forall j | 0 <= j < |e| ensures Chars(Lower(s))[j] == e[j] <==> CaseForm(s[0 + j], e[j]) {
        LowerForm(s[j], e[j]);
      }
    }
  }

  /** A name is refused exactly when after some dot it spells an extension on the list, in any mix of cases,
      to its end. */
  lemma BlockedExactly(name: text)
    ensures Blocked(name) <==>
      exists i, e :: 0 <= i < |name| && name[i] == DOT && e in BLOCKED_EXTENSIONS && Spells(name, i + 1, e)
  {
    if Blocked(name) {
      var e := Chars(Lower(LastPiece(name)));
      var i := LastPieceStands(name);
      ListedPlain(e);
      LowerSpells(LastPiece(name), e);
      forall j | 0 <= j < |e| ensures CaseForm(name[i + 1 + j], e[j]) {
        assert name[i + 1..][j] == name[i + 1 + j] && CaseForm(LastPiece(name)[0 + j], e[j]);
      }
      assert Spells(name, i + 1, e);
    }
    forall i, e | 0 <= i < |name| && name[i] == DOT && e in BLOCKED_EXTENSIONS && Spells(name, i + 1, e)
      ensures Blocked(name)
    {
      SpelledBlocked(name, i, e);
    }
  }

  lemma SpelledBlocked(name: text, i: nat, e: string)
    requires i < |name| && name[i] == DOT && e in BLOCKED_EXTENSIONS && Spells(name, i + 1, e)
    ensures Blocked(name)
  {
    var stem, ext := name[..i + 1], name[i + 1..];
    ListedPlain(e);
    forall j | 0 <= j < |e| ensures CaseForm(ext[0 + j], e[j]) && ext[j] != DOT {
      assert ext[j] == name[i + 1 + j] && CaseForm(name[i + 1 + j], e[j]);
    }
    assert name == stem + ext;
    LastPieceIs(stem, ext);
    LowerSpells(ext, e);
  }

  /** What the form holds: a file, or the text that was typed. */
  datatype Entered = File(name: text, fileType: text, contents: bytes) | Typed(value: text)

  datatype CreateView = Form | FileRefused | EnterSecret | StoreFailed | FileTooLarge | Created(link: string)

  /** The secret behind an entry, or the complaint to show. */
  function ToSecret(e: Entered, maxBytes: int): Result<Secret, CreateView> {
    match e
    case File(name, fileType, contents) =>
      if Blocked(name) || |contents| > maxBytes then Err(FileRefused)
      else Ok(Secret(Or(fileType, OCTET_STREAM), name, contents))
    case Typed(value) =>
      if Trim(value) == [] then Err(EnterSecret) else Ok(Secret(TEXT_PLAIN, [], TextEncode(Trim(value))))
  }

  /** A file is refused exactly for a blocked extension or its size. */
  lemma FileRefusedExactly(name: text, fileType: text, contents: bytes, maxBytes: int)
    ensures ToSecret(File(name, fileType, contents), maxBytes) == Err(FileRefused) <==>
      || |contents| > maxBytes
      || exists i, e :: 0 <= i < |name| && name[i] == DOT && e in BLOCKED_EXTENSIONS && Spells(name, i + 1, e)
  {
    BlockedExactly(name);
  }

  lemma SpaceIs(u: Unit)
    ensures IsSpace(u) <==> u in {
      0x09, 0x0A, 0x0B, 0x0C, 0x0D, 0x20, 0xA0, 0x1680, 0x2000, 0x2001, 0x2002, 0x2003, 0x2004, 0x2005, 0x2006,
      0x2007, 0x2008, 0x2009, 0x200A, 0x2028, 0x2029, 0x202F, 0x205F, 0x3000, 0xFEFF}
  {
  }

  predicate AllSpace(s: text) {
    forall i :: 0 <= i < |s| ==> IsSpace(s[i])
  }

  lemma {:induction false} TrimStartCuts(s: text) returns (before: text)
    ensures s == before + TrimStart(s) && AllSpace(before)
    ensures TrimStart(s) == [] || !IsSpace(TrimStart(s)[0])
  {
    if s == [] || !IsSpace(s[0]) {
      before := [];
    } else {
      before := TrimStartCuts(s[1..]);
      before := [s[0]] + before;
      assert s == [s[0]] + s[1..];
    }
  }

  lemma {:induction false} TrimEndCuts(s: text) returns (after: text)
    ensures s == TrimEnd(s) + after && AllSpace(after)
    ensures TrimEnd(s) == [] || !IsSpace(TrimEnd(s)[|TrimEnd(s)| - 1])
  {
    if s == [] || !IsSpace(s[|s| - 1]) {
      after := [];
    } else {
      after := TrimEndCuts(s[..|s| - 1]);
      after := after + [s[|s| - 1]];
      assert s == s[..|s| - 1] + [s[|s| - 1]];
    }
  }

  lemma TrimCuts(s: text) returns (before: text, after: text)
    ensures s == before + Trim(s) + after && AllSpace(before) && AllSpace(after)
    ensures Trim(s) == [] || (!IsSpace(Trim(s)[0]) && !IsSpace(Trim(s)[|Trim(s)| - 1]))
  {
    before := TrimStartCuts(s);
    var t := TrimStart(s);
    after := TrimEndCuts(t);
    assert s == before + (Trim(s) + after) == before + Trim(s) + after;
    assert Trim(s) != [] ==> t[0] == Trim(s)[0];
  }

  lemma AllSpaceIs(s: text)
    requires AllSpace(s)
    ensures forall i :: 0 <= i < |s| ==> s[i] in {
      0x09, 0x0A, 0x0B, 0x0C, 0x0D, 0x20, 0xA0, 0x1680, 0x2000, 0x2001, 0x2002, 0x2003, 0x2004, 0x2005, 0x2006,
      0x2007, 0x2008, 0x2009, 0x200A, 0x2028, 0x2029, 0x202F, 0x205F, 0x3000, 0xFEFF}
  {
    forall i | 0 <= i < |s| {
      SpaceIs(s[i]);
    }
  }

  /** Trimming takes the white space off both ends, all of it and nothing else. */
  lemma TrimExactly(s: text) returns (before: text, after: text)
    ensures s == before + Trim(s) + after
    ensures var space := {
        0x09, 0x0A, 0x0B, 0x0C, 0x0D, 0x20, 0xA0, 0x1680, 0x2000, 0x2001, 0x2002, 0x2003, 0x2004, 0x2005, 0x2006,
        0x2007, 0x2008, 0x2009, 0x200A, 0x2028, 0x2029, 0x202F, 0x205F, 0x3000, 0xFEFF};
      && (forall i :: 0 <= i < |before| ==> before[i] in space)
      && (forall i :: 0 <= i < |after| ==> after[i] in space)
      && (Trim(s) == [] || (Trim(s)[0] !in space && Trim(s)[|Trim(s)| - 1] !in space))
  {
    before, after := TrimCuts(s);
    AllSpaceIs(before);
    AllSpaceIs(after);
    if Trim(s) != [] {
      SpaceIs(Trim(s)[0]);
      SpaceIs(Trim(s)[|Trim(s)| - 1]);
    }
  }

  /** Typed text is refused exactly when there is nothing but white space; what is shared otherwise is the
      trimmed text. */
  lemma TypedExactly(value: text, maxBytes: int)
    ensures var secret := ToSecret(Typed(value), maxBytes);
      if Trim(value) == [] then secret == Err(EnterSecret)
      else secret == Ok(Secret(Ascii("text/plain"), [], TextEncode(Trim(value))))
    ensures Trim(value) == [] <==> AllSpace(value)
  {
    var before, after := TrimCuts(value);
    if Trim(value) == [] {
      assert value == before + after;
    } else {
      assert value[|before|] == Trim(value)[0];
    }
  }

  // ----- the request -----

  function Ciphertext(c: Cipher, key: bytes, nonce: bytes, secret: Secret): bytes {
    c.seal(key, nonce, Pack(secret.contentType, secret.filename, secret.data))
  }

  function Sealed(c: Cipher, key: bytes, nonce: bytes, secret: Secret): Body {
    Body(Base64.Encode(Ciphertext(c, key, nonce, secret)), Base64.Encode(nonce))
  }

  predicate IsAscii(s: string) {
    forall i :: 0 <= i < |s| ==> s[i] < '\U{80}'
  }

  const CIPHERTEXT: text := Ascii("ciphertext")
  const NONCE: text := Ascii("nonce")
  const EXPIRES_IN: text := Ascii("expires_in")

  function PayloadMembers(body: Body): seq<Json.Member>
    requires IsAscii(body.ciphertext) && IsAscii(body.nonce)
  {
    [Json.Member(CIPHERTEXT, Json.Str(Ascii(body.ciphertext))), Json.Member(NONCE, Json.Str(Ascii(body.nonce)))]
  }

  /** JSON.stringify({ ciphertext, nonce, expires_in }). */
  function RequestText(body: Body, expiresIn: nat): text
    requires IsAscii(body.ciphertext) && IsAscii(body.nonce)
  {
    Json.Stringify(PayloadMembers(body) + [Json.Member(EXPIRES_IN, Json.Int(expiresIn))])
  }

  /** What the server's encoder writes: no character of base64 needs an escape, and a newline follows. */
  function ReplyText(body: Body): text
    requires IsAscii(body.ciphertext) && IsAscii(body.nonce)
  {
    Json.Stringify(PayloadMembers(body)) + [0x0A]
  }

  /** A string member; a missing one is empty, and a number does not fit. */
  function StringField(ms: seq<Json.Member>, name: text): Option<string> {
    match Json.Get(ms, name)
    case None => Some("")
    case Some(Str(s)) => Some(Chars(s))
    case Some(Int(_)) => None
  }

  function IntField(ms: seq<Json.Member>, name: text): Option<int> {
    match Json.Get(ms, name)
    case None => Some(0)
    case Some(Int(n)) => if IsInt64(n) then Some(n) else None
    case Some(Str(_)) => None
  }

  function ReadBody(ms: seq<Json.Member>): Option<Body> {
    var ciphertext, nonce := StringField(ms, CIPHERTEXT), StringField(ms, NONCE);
    if ciphertext.Some? && nonce.Some? then Some(Body(ciphertext.value, nonce.value)) else None
  }

  /** What the server reads in a request. */
  function ReadRequest(t: text): Option<(Body, int)> {
    match Json.Parse(t)
    case None => None
    case Some(ms) =>
      var body, expiresIn := ReadBody(ms), IntField(ms, EXPIRES_IN);
      if body.Some? && expiresIn.Some? then Some((body.value, expiresIn.value)) else None
  }

  /** What the browser reads in a reply. */
  function ReadReply(t: text): Option<Body> {
    match Json.Parse(t)
    case None => None
    case Some(ms) => ReadBody(ms)
  }

  lemma EncodeAscii(b: bytes)
    ensures IsAscii(Base64.Encode(b))
  {
    Base64.EncodeIsText(b);
    forall i | 0 <= i < |Base64.Encode(b)| ensures Base64.Encode(b)[i] < '\U{80}' {
      assert Base64.Value(Base64.Encode(b)[i]).Some? || Base64.Encode(b)[i] == '=';
    }
  }

  /** The request as the server meets it: the body fetch sends is the UTF-8 of that text. */
  function Request(c: Cipher, key: bytes, nonce: bytes, secret: Secret, expiresIn: nat): CreateRequest {
    var body := Sealed(c, key, nonce, secret);
    EncodeAscii(nonce);
    EncodeAscii(Ciphertext(c, key, nonce, secret));
    CreateRequest(ReadRequest(TextDecode(TextEncode(RequestText(body, expiresIn)))),
      |TextEncode(RequestText(body, expiresIn))|)
  }

  lemma CharsAscii(s: string)
    requires IsAscii(s)
    ensures Chars(Ascii(s)) == s
  {
  }

  lemma NamesDiffer()
    ensures CIPHERTEXT != NONCE && CIPHERTEXT != EXPIRES_IN && NONCE != EXPIRES_IN
  {
    assert CIPHERTEXT[0] == 0x63 && NONCE[0] == 0x6E && EXPIRES_IN[0] == 0x65;
  }

  lemma ReadPayload(body: Body, rest: seq<Json.Member>)
    requires IsAscii(body.ciphertext) && IsAscii(body.nonce)
    requires rest == [] || (|rest| == 1 && rest[0].name == EXPIRES_IN)
    ensures ReadBody(PayloadMembers(body) + rest) == Some(body)
  {
    var ms := PayloadMembers(body);
    NamesDiffer();
    CharsAscii(body.ciphertext);
    CharsAscii(body.nonce);
    assert ms[..1] == [ms[0]];
    assert Json.Get(ms, NONCE) == Some(ms[1].value);
    assert Json.Get(ms, CIPHERTEXT) == Json.Get(ms[..1], CIPHERTEXT) == Some(ms[0].value);
    if rest == [] {
      assert ms + rest == ms;
    } else {
      assert (ms + rest)[..2] == ms;
    }
  }

  /** The server reads in the request what the browser wrote into it. */
  lemma RequestReads(body: Body, expiresIn: nat)
    requires IsAscii(body.ciphertext) && IsAscii(body.nonce) && IsInt64(expiresIn)
    ensures ReadRequest(TextDecode(TextEncode(RequestText(body, expiresIn)))) == Some((body, expiresIn))
  {
    var last := [Json.Member(EXPIRES_IN, Json.Int(expiresIn))];
    var ms := PayloadMembers(body) + last;
    Json.StringifiedSurvivesUtf8(ms);
    Json.ParseRoundTrip(ms);
    ReadPayload(body, last);
  }

  lemma GetLast(ms: seq<Json.Member>, last: Json.Member)
    ensures Json.Get(ms + [last], last.name) == Some(last.value)
    ensures forall name :: name != last.name ==> Json.Get(ms + [last], name) == Json.Get(ms, name)
  {
    assert (ms + [last])[..|ms|] == ms;
  }

  lemma NoExpiry(body: Body)
    requires IsAscii(body.ciphertext) && IsAscii(body.nonce)
    ensures Json.Get(PayloadMembers(body), EXPIRES_IN) == None
  {
    var ms := PayloadMembers(body);
    var one := ms[..1];
    NamesDiffer();
    assert ms == one + [ms[1]] && one == [] + [ms[0]];
    GetLast(one, ms[1]);
    GetLast([], ms[0]);
  }

  lemma ReadsAfter(body: Body, last: Json.Member)
    requires IsAscii(body.ciphertext) && IsAscii(body.nonce)
    requires last.name in {CIPHERTEXT, NONCE, EXPIRES_IN}
    ensures var ms := PayloadMembers(body) + [last];
      && Json.Parse(Json.Stringify(ms)) == Some(ms)
      && Json.Get(ms, last.name) == Some(last.value)
      && (last.name == EXPIRES_IN ==> ReadBody(ms) == Some(body))
  {
    var ms := PayloadMembers(body);
    Json.ParseRoundTrip(ms + [last]);
    GetLast(ms, last);
    if last.name == EXPIRES_IN {
      ReadPayload(body, [last]);
    }
  }

  /** An expiry outside 64 bits is refused. */
  lemma ExpiryExactly(body: Body, n: int)
    requires IsAscii(body.ciphertext) && IsAscii(body.nonce)
    ensures ReadRequest(Json.Stringify(PayloadMembers(body) + [Json.Member(EXPIRES_IN, Json.Int(n))]))
      == if -0x8000_0000_0000_0000 <= n < 0x8000_0000_0000_0000 then Some((body, n)) else None
  {
    ReadsAfter(body, Json.Member(EXPIRES_IN, Json.Int(n)));
  }

  /** A missing expiry is 0. */
  lemma MissingExpiry(body: Body)
    requires IsAscii(body.ciphertext) && IsAscii(body.nonce)
    ensures ReadRequest(Json.Stringify(PayloadMembers(body))) == Some((body, 0))
  {
    var ms := PayloadMembers(body);
    Json.ParseRoundTrip(ms);
    NoExpiry(body);
    ReadPayload(body, []);
    assert ms + [] == ms;
  }

  /** A number in the place of the ciphertext or the nonce is refused, and so is a text in the place of the
      expiry. */
  lemma WrongTypesRefused(body: Body, n: int, s: text)
    requires IsAscii(body.ciphertext) && IsAscii(body.nonce)
    ensures ReadRequest(Json.Stringify(PayloadMembers(body) + [Json.Member(CIPHERTEXT, Json.Int(n))])) == None
    ensures ReadRequest(Json.Stringify(PayloadMembers(body) + [Json.Member(NONCE, Json.Int(n))])) == None
    ensures ReadRequest(Json.Stringify(PayloadMembers(body) + [Json.Member(EXPIRES_IN, Json.Str(s))])) == None
  {
    ReadsAfter(body, Json.Member(CIPHERTEXT, Json.Int(n)));
    ReadsAfter(body, Json.Member(NONCE, Json.Int(n)));
    ReadsAfter(body, Json.Member(EXPIRES_IN, Json.Str(s)));
  }

  /** And the browser reads in the reply what the server wrote into it. */
  lemma ReplyReads(body: Body)
    requires IsAscii(body.ciphertext) && IsAscii(body.nonce)
    ensures ReadReply(TextDecode(TextEncode(ReplyText(body)))) == Some(body)
  {
    var ms := PayloadMembers(body);
    Json.StringifiedWellFormed(ms);
    Json.WellFormedPlain(0x0A);
    Json.WellFormedAppend(Json.Stringify(ms), [0x0A]);
    TextRoundTripExactly(ReplyText(body));
    Json.ParseBeforeSpace(ms, [0x0A]);
    ReadPayload(body, []);
    assert ms + [] == ms;
  }

  // ----- the link -----

  function Link(origin: string, token: string, key: bytes): string {
    origin + "/s/" + token + "#key=" + UrlEncode(key)
  }

  /** location.hash: from the first '#', empty if nothing follows it. */
  function Hash(url: string): string {
    if url == "" then "" else if url[0] == '#' then (if |url| == 1 then "" else url) else Hash(url[1..])
  }

  function BeforeHash(url: string): string {
    if url == "" || url[0] == '#' then "" else [url[0]] + BeforeHash(url[1..])
  }

  /** The token the server reads from the path /s/{token} and writes into the page. */
  function PathToken(origin: string, url: string): string {
    var prefix := origin + "/s/";
    var path := BeforeHash(url);
    if prefix <= path && '/' !in path[|prefix|..] then path[|prefix|..] else ""
  }

  /** The key text of a hash, empty if there is none. */
  function KeyText(hash: string): string {
    if "#key=" <= hash then hash[5..] else ""
  }

  // ----- the reply -----

  datatype RevealView =
    | Locked | NoKey | InvalidPage | Gone | RetrieveFailed | DecryptionFailed
    | ShownText(shown: text) | ShownFile(data: bytes, filename: text, contentType: text)

  /** The key a key text stands for, if it has a size importKey takes. */
  function KeyOf(keyText: string): Option<bytes> {
    var key := UrlDecode(keyText);
    if key.Some? && KeySize(|key.value|) then key else None
  }

  function OpenBody(c: Cipher, key: bytes, body: Body): Option<bytes> {
    var ciphertext, nonce := Base64.Atob(body.ciphertext), Base64.Atob(body.nonce);
    if ciphertext.None? || nonce.None? then None else c.open(key, nonce.value, ciphertext.value)
  }

  function Unpacked(plain: Option<bytes>): Option<Secret> {
    if plain.None? then None
    else
      match Unpack(plain.value)
      case Ok(secret) => Some(secret)
      case Err(_) => None
  }

  function Opened(c: Cipher, keyText: string, body: Body): Option<Secret> {
    var key := KeyOf(keyText);
    if key.None? then None else Unpacked(OpenBody(c, key.value, body))
  }

  /** A content type that does not start with "text/" makes a download, anything else a text. */
  function Shown(secret: Secret): RevealView {
    if secret.contentType != [] && !(TEXT_TYPE <= secret.contentType)
    then ShownFile(secret.data, Or(secret.filename, SECRET_FILE), secret.contentType)
    else ShownText(TextDecode(secret.data))
  }

  /** What the page makes of the server's reply. */
  function Display(c: Cipher, keyText: string, reply: text): RevealView {
    match ReadReply(reply)
    case None => DecryptionFailed
    case Some(body) =>
      var secret := Opened(c, keyText, body);
      if secret.Some? then Shown(secret.value) else DecryptionFailed
  }

  /** The reply that carries a row, as the browser decodes it. */
  function Reply(row: SecretStore.Row): text {
    EncodeAscii(row.ciphertext);
    EncodeAscii(row.nonce);
    TextDecode(TextEncode(ReplyText(Body(Base64.Encode(row.ciphertext), Base64.Encode(row.nonce)))))
  }

  // ----- the handlers -----

  method ToArray(b: bytes) returns (a: array<byte>)
    ensures fresh(a) && a[..] == b
  {
    a := new byte[|b|](i requires 0 <= i < |b| => b[i]);
  }

  method Encrypt(c: Cipher, packed: array<byte>, key: bytes, nonce: array<byte>) returns (body: Body)
    ensures body == Body(Base64.Encode(c.seal(key, nonce[..], packed[..])), Base64.Encode(nonce[..]))
  {
    var cipherBuffer := ToArray(c.seal(key, nonce[..], packed[..]));
    var ciphertext := ArrayToBase64(cipherBuffer);
    var nonceText := ArrayToBase64(nonce);
    body := Body(ciphertext, nonceText);
  }

  method ImportKey(keyText: string) returns (key: Option<bytes>)
    ensures key == KeyOf(keyText)
    ensures key.Some? ==> |key.value| in {16, 24, 32} && UrlDecode(keyText) == key
    ensures key.None? ==> UrlDecode(keyText).None? || |UrlDecode(keyText).value| !in {16, 24, 32}
  {
    var raw := Base64UrlToArray(keyText);
    if raw.None? || !KeySize(raw.value.Length) {
      return None;
    }
    key := Some(raw.value[..]);
  }

  method Decrypt(c: Cipher, body: Body, key: bytes) returns (plain: Option<bytes>)
    ensures plain == OpenBody(c, key, body)
  {
    var ciphertext := Base64ToArray(body.ciphertext);
    if ciphertext.None? {
      return None;
    }
    var nonce := Base64ToArray(body.nonce);
    if nonce.None? {
      return None;
    }
    plain := c.open(key, nonce.value[..], ciphertext.value[..]);
  }

  method Decode(c: Cipher, keyText: string, body: Body) returns (secret: Option<Secret>)
    ensures secret == Opened(c, keyText, body)
  {
    var key := ImportKey(keyText);
    if key.None? {
      return None;
    }
    var plain := Decrypt(c, body, key.value);
    secret := Unpacked(plain);
  }

  method ShowReply(c: Cipher, keyText: string, reply: text) returns (view: RevealView)
    ensures view == Display(c, keyText, reply)
  {
    var body := ReadReply(reply);
    if body.None? {
      return DecryptionFailed;
    }
    var secret := Decode(c, keyText, body.value);
    view := if secret.Some? then Shown(secret.value) else DecryptionFailed;
  }

  class CreatePage {
    var view: CreateView

    constructor ()
      ensures view == Form
    {
      view := Form;
    }

    /** The submit handler; the key and the nonce are what the random source delivers. */
    method Submit(e: Entered, c: Cipher, key: array<byte>, nonce: array<byte>, expiresIn: nat, origin: string,
        server: Handler, random: Option<bytes>, now: int, ok: bool, eventOk: bool)
      requires key.Length == 32 && nonce.Length == 12 && IsInt64(expiresIn)
      requires random.Some? ==> |random.value| == 16
      modifies this, server.svc.repo
      ensures var secret := ToSecret(e, server.maxBytes);
        if secret.Err? then view == secret.error && unchanged(server.svc.repo)
        else
          var request := Request(c, old(key[..]), old(nonce[..]), secret.value, expiresIn);
          var ciphertext := Ciphertext(c, old(key[..]), old(nonce[..]), secret.value);
          var input := SecretStore.Input(ciphertext, old(nonce[..]), expiresIn);
          if !Readable(request.size, server.maxBytes) then view == StoreFailed && unchanged(server.svc.repo)
          else if |input.ciphertext| > server.svc.maxBytes then view == FileTooLarge && unchanged(server.svc.repo)
          else if random.None? then view == StoreFailed && unchanged(server.svc.repo)
          else
            var token := SecretService.Hex(random.value);
            var inserted := SecretStore.Insert(old(server.svc.repo.secrets), token, SecretStore.NewRow(input, now));
            if ok && inserted.Some? then
              view == Created(Link(origin, token, old(key[..]))) && server.svc.repo.secrets == inserted.value
            else
              view == StoreFailed && unchanged(server.svc.repo)
    {
      var secret := ToSecret(e, server.maxBytes);
      if secret.Err? {
        view := secret.error;
        return;
      }
      var keyText := ArrayToBase64Url(key);
      var data := ToArray(secret.value.data);
      var packed := PackSecret(secret.value.contentType, secret.value.filename, data);
      var body := Encrypt(c, packed, key[..], nonce);
      Base64.EncodeRoundTrip(Ciphertext(c, key[..], nonce[..], secret.value));
      Base64.EncodeRoundTrip(nonce[..]);
      EncodeAscii(Ciphertext(c, key[..], nonce[..], secret.value));
      EncodeAscii(nonce[..]);
      RequestReads(body, expiresIn);
      var request := Request(c, key[..], nonce[..], secret.value, expiresIn);
      var response := server.CreateSecret(request, random, now, ok, eventOk);
      match response
      case Issued(token) => view := Created(origin + "/s/" + token + "#key=" + keyText);
      case RequestEntityTooLarge => view := FileTooLarge;
      case _ => view := StoreFailed;
    }
  }

  class RevealPage {
    var hash: string
    const token: string
    var view: RevealView

    constructor (hash: string, token: string)
      ensures this.hash == hash && this.token == token && view == Locked
    {
      this.hash, this.token, view := hash, token, Locked;
    }

    /** The key, if there is one, leaves the address bar. */
    method TakeKey() returns (keyText: string)
      modifies this`hash, this`view
      ensures keyText == if "#key=" <= old(hash) then old(hash)[5..] else ""
      ensures keyText == "" ==> view == NoKey && hash == old(hash)
      ensures keyText != "" ==> view == old(view) && hash == ""
    {
      keyText := KeyText(hash);
      if keyText == "" {
        view := NoKey;
        return;
      }
      hash := "";
    }

    /** The request and what its reply leads to; by now the address bar holds no key. */
    method Fetch(keyText: string, c: Cipher, server: Handler, now: int, ok: bool, eventOk: bool)
      requires hash == ""
      modifies this`view, server.svc.repo
      ensures var (rest, row) := SecretStore.Take(old(server.svc.repo.secrets), token, now);
        if !ok then view == RetrieveFailed && unchanged(server.svc.repo)
        else
          && server.svc.repo.secrets == rest
          && view == match row
             case None => Gone
             case Some(r) => Display(c, keyText, Reply(r))
    {
      var response := server.RevealSecret(token, now, ok, eventOk);
      match response
      case NotThere => view := Gone;
      case RevealFailed => view := RetrieveFailed;
      case Payload(body) =>
        ghost var row := SecretStore.Take(old(server.svc.repo.secrets), token, now).1.value;
        EncodeAscii(row.ciphertext);
        EncodeAscii(row.nonce);
        view := ShowReply(c, keyText, TextDecode(TextEncode(ReplyText(body))));
    }

    /** revealSecret. */
    method Reveal(c: Cipher, server: Handler, now: int, ok: bool, eventOk: bool)
      modifies this`hash, this`view, server.svc.repo
      ensures !("#key=" < old(hash)) ==> view == NoKey && hash == old(hash) && unchanged(server.svc.repo)
      ensures "#key=" < old(hash) ==> hash == ""
      ensures "#key=" < old(hash) && token == "" ==> view == InvalidPage && unchanged(server.svc.repo)
      ensures "#key=" < old(hash) && token != "" ==>
        var (rest, row) := SecretStore.Take(old(server.svc.repo.secrets), token, now);
        if !ok then view == RetrieveFailed && unchanged(server.svc.repo)
        else
          && server.svc.repo.secrets == rest
          && view == match row
             case None => Gone
             case Some(r) => Display(c, old(hash)[5..], Reply(r))
    {
      var keyText := TakeKey();
      if keyText == "" {
        return;
      }
      if token == "" {
        view := InvalidPage;
        return;
      }
      Fetch(keyText, c, server, now, ok, eventOk);
    }
  }
}

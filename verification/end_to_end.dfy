/** From the form of the sender to the screen of the receiver. */
module EndToEnd {
  import opened Bytes
  import opened Client
  import opened ClientCodec
  import opened Envelope
  import opened SecretHandler
  import opened SecretLifecycle
  import opened SecretStore
  import opened Utf8
  import opened Wrappers
  import Base64
  import Json
  import SecretService

  // ----- the link -----

  lemma {:induction false} HashAfter(p: string, url: string)
    requires '#' !in p
    ensures Hash(p + url) == Hash(url) && BeforeHash(p + url) == p + BeforeHash(url)
  {
    if p == "" {
      assert p + url == url;
    } else {
      assert (p + url)[1..] == p[1..] + url;
      HashAfter(p[1..], url);
    }
  }

  lemma {:induction false} NoHash(url: string)
    requires '#' !in url
    ensures Hash(url) == "" && BeforeHash(url) == url
  {
    if url == "" {
    } else {
      NoHash(url[1..]);
    }
  }

  /** The fragment is what follows the first '#', that included, and nothing if nothing follows it. */
  lemma HashExactly(p: string, fragment: string)
    requires '#' !in p
    ensures Hash(p + "#" + fragment) == if fragment == "" then "" else "#" + fragment
    ensures BeforeHash(p + "#" + fragment) == p && Hash(p) == ""
  {
    HashAfter(p, "#" + fragment);
    assert p + "#" + fragment == p + ("#" + fragment) && p + "" == p;
    NoHash(p);
  }

  /** The server finds the token in a path of its origin, /s/ and one more segment, and in no other. */
  lemma PathTokenExactly(origin: string, path: string, fragment: string)
    requires '#' !in path
    ensures PathToken(origin, path + "#" + fragment) == PathToken(origin, path)
    ensures forall rest :: path == origin + "/s/" + rest ==> PathToken(origin, path) == if '/' in rest then "" else rest
    ensures !(origin + "/s/" <= path) ==> PathToken(origin, path) == ""
  {
    var prefix := origin + "/s/";
    HashExactly(path, fragment);
    NoHash(path);
    forall rest | path == origin + "/s/" + rest
      ensures PathToken(origin, path) == if '/' in rest then "" else rest
    {
      assert path[|prefix|..] == rest && prefix <= path;
    }
  }

  predicate IsToken(token: string) {
    token != "" && forall i :: 0 <= i < |token| ==> SecretService.IsHex(token[i])
  }

  /** Whatever comes before it, the browser finds the key in the link, and the server the token. */
  lemma LinkReads(origin: string, token: string, key: bytes)
    requires '#' !in origin && IsToken(token)
    ensures KeyText(Hash(Link(origin, token, key))) == UrlEncode(key)
    ensures PathToken(origin, Link(origin, token, key)) == token
  {
    var prefix, fragment := origin + "/s/", "#key=" + UrlEncode(key);
    var path := prefix + token;
    assert '#' !in token && '/' !in token;
    assert "#key="[..1] == "#" && |"#key="| == 5;
    assert Link(origin, token, key) == path + fragment;
    HashAfter(path, fragment);
    assert BeforeHash(fragment) == "" && Hash(fragment) == fragment;
    assert path + "" == path;
    assert path[|prefix|..] == token;
  }

  // ----- the browser undoes what the browser did -----

  /** With the key from the link, the receiver opens exactly what the sender sealed, provided the header
      is shorter than 2^32 bytes, and nothing otherwise. */
  lemma OpenedSealed(c: Cipher, key: bytes, nonce: bytes, secret: Secret)
    requires IsAead(c) && |key| in {16, 24, 32}
    ensures Opened(c, UrlEncode(key), Sealed(c, key, nonce, secret)) ==
      if |HeaderBytes(secret.contentType, secret.filename)| < TWO_TO_THE_32
      then Some(Secret(Or(secret.contentType, TEXT_PLAIN), secret.filename, secret.data))
      else None
  {
    UrlRoundTrip(key);
    Base64.EncodeRoundTrip(Ciphertext(c, key, nonce, secret));
    Base64.EncodeRoundTrip(nonce);
    RoundTripExactly(secret.contentType, secret.filename, secret.data);
  }

  // ----- what the receiver sees -----

  lemma {:induction false} WellFormedEnd(s: text, u: Unit)
    requires !Surrogate(u)
    ensures WellFormed(s + [u]) <==> WellFormed(s)
    decreases |s|
  {
    if s == [] {
      assert s + [u] == [u];
    } else if Paired(s) {
      assert (s + [u])[2..] == s[2..] + [u];
      WellFormedEnd(s[2..], u);
    } else {
      assert (s + [u])[1..] == s[1..] + [u];
      WellFormedEnd(s[1..], u);
    }
  }

  lemma {:induction false} TrimStartWellFormed(s: text)
    ensures WellFormed(TrimStart(s)) <==> WellFormed(s)
  {
    if s == [] || !IsSpace(s[0]) {
    } else {
      TrimStartWellFormed(s[1..]);
    }
  }

  lemma {:induction false} TrimEndWellFormed(s: text)
    ensures WellFormed(TrimEnd(s)) <==> WellFormed(s)
    ensures s != [] && !IsSpace(s[0]) ==> TrimEnd(s) != [] && TrimEnd(s)[0] == s[0]
  {
    if s == [] || !IsSpace(s[|s| - 1]) {
    } else {
      var t := s[..|s| - 1];
      TrimEndWellFormed(t);
      WellFormedEnd(t, s[|s| - 1]);
      assert s == t + [s[|s| - 1]];
    }
  }

  lemma {:induction false} TrimStartStops(s: text)
    ensures TrimStart(s) == [] || !IsSpace(TrimStart(s)[0])
  {
    if s == [] || !IsSpace(s[0]) {
    } else {
      TrimStartStops(s[1..]);
    }
  }

  /** A typed secret is shown as it was typed, white space at its ends apart, exactly when it has no lone
      surrogate: trimming has already removed the U+FEFF that the decoder would drop. */
  lemma TypedTextShownExactly(value: text, maxBytes: int)
    requires Trim(value) != []
    ensures Shown(ToSecret(Typed(value), maxBytes).value) == ShownText(Trim(value)) <==> WellFormed(value)
  {
    var s := TrimStart(value);
    TrimStartStops(value);
    TrimStartWellFormed(value);
    TrimEndWellFormed(s);
    TextRoundTripExactly(Trim(value));
    assert TEXT_TYPE <= TEXT_PLAIN by {
      assert TEXT_PLAIN[..5] == TEXT_TYPE;
    }
  }

  /** A file comes back with its bytes, its name and its type, unless the type is a text type: then it is
      shown as text. */
  lemma FileShown(name: text, fileType: text, contents: bytes, maxBytes: int)
    requires |contents| <= maxBytes && !Blocked(name)
    ensures var shown := Shown(ToSecret(File(name, fileType, contents), maxBytes).value);
      var shownName := if name == [] then Ascii("secret-file") else name;
      if fileType == [] then shown == ShownFile(contents, shownName, Ascii("application/octet-stream"))
      else if Ascii("text/") <= fileType then shown == ShownText(TextDecode(contents))
      else shown == ShownFile(contents, shownName, fileType)
  {
    assert OCTET_STREAM[0] == 0x61 && TEXT_TYPE[0] == 0x74;
  }

  // ----- the header is short -----

  lemma {:induction false} EscapeBound(s: text)
    ensures |Json.EscapeAll(s)| <= 6 * |s|
    decreases |s|
  {
    if s == [] {
    } else if Paired(s) {
      EscapeBound(s[2..]);
    } else {
      EscapeBound(s[1..]);
    }
  }

  lemma {:induction false} Utf8Bound(s: text)
    ensures |TextEncode(s)| <= 4 * |s|
    decreases |s|
  {
    if s == [] {
    } else if Paired(s) {
      Utf8Bound(s[2..]);
    } else {
      Utf8Bound(s[1..]);
    }
  }

  /** No more than 24 bytes for each code unit of the type and the name. */
  lemma HeaderBound(contentType: text, filename: text)
    ensures |HeaderBytes(contentType, filename)| <= 24 * (|Or(contentType, TEXT_PLAIN)| + |filename| + 5)
  {
    var ms := HeaderMembers(contentType, filename);
    EscapeBound(Or(contentType, TEXT_PLAIN));
    EscapeBound(filename);
    assert |Json.EscapeAll(T)| == 1 && |Json.EscapeAll(F)| == 1;
    assert ms[1..] == [ms[1]];
    assert |Json.ShowMembers(ms)| == |Json.ShowMember(ms[0])| + 1 + |Json.ShowMember(ms[1])| + 1;
    Utf8Bound(Json.Stringify(ms));
  }

  /** The header of a typed secret is always short enough. */
  lemma TypedHeaderShort(value: text, maxBytes: int)
    requires Trim(value) != []
    ensures Expected(Typed(value), maxBytes) == Shown(ToSecret(Typed(value), maxBytes).value)
  {
    HeaderBound(TEXT_PLAIN, []);
  }

  lemma {:induction false} EscapeGrows(s: text)
    ensures |s| <= |Json.EscapeAll(s)|
    decreases |s|
  {
    if s == [] {
    } else if Paired(s) {
      EscapeGrows(s[2..]);
    } else {
      EscapeGrows(s[1..]);
    }
  }

  lemma {:induction false} Utf8Grows(s: text)
    ensures |s| <= |TextEncode(s)|
    decreases |s|
  {
    if s == [] {
    } else if Paired(s) {
      Utf8Grows(s[2..]);
      assert Combine(s[0], s[1]) >= 0x1_0000;
    } else {
      Utf8Grows(s[1..]);
    }
  }

  /** No less than a byte for each code unit of the name. */
  lemma HeaderAtLeast(contentType: text, filename: text)
    ensures |filename| <= |HeaderBytes(contentType, filename)|
  {
    var ms := HeaderMembers(contentType, filename);
    EscapeGrows(filename);
    assert ms[1..] == [ms[1]];
    assert |Json.ShowMember(ms[1])| <= |Json.ShowMembers(ms[1..])| <= |Json.Stringify(ms)|;
    Utf8Grows(Json.Stringify(ms));
  }

  /** A name that long makes a secret that cannot be read. */
  lemma LongNameUnreadable(contentType: text, data: bytes)
    ensures var filename: text := seq(TWO_TO_THE_32, _ => 0x61);
      Unpack(Pack(contentType, filename, data)) == Err(SyntaxError)
  {
    var filename: text := seq(TWO_TO_THE_32, _ => 0x61);
    HeaderAtLeast(contentType, filename);
    RoundTripExactly(contentType, filename, data);
  }

  /** But no secret that a service with a limit up to 2^32 bytes accepts has one. */
  lemma AcceptedHeaderShort(c: Cipher, key: bytes, nonce: bytes, secret: Secret, maxBytes: int)
    requires IsAead(c) && |key| in {16, 24, 32}
    requires |Ciphertext(c, key, nonce, secret)| <= maxBytes <= TWO_TO_THE_32
    ensures |HeaderBytes(secret.contentType, secret.filename)| < TWO_TO_THE_32
  {
    var packed := Pack(secret.contentType, secret.filename, secret.data);
    assert |c.seal(key, nonce, packed)| == |packed| + 16;
  }

  // ----- end to end -----

  /** What the receiver of an entry should see. */
  function Expected(e: Entered, maxBytes: int): RevealView
    requires ToSecret(e, maxBytes).Ok?
  {
    var secret := ToSecret(e, maxBytes).value;
    if |HeaderBytes(secret.contentType, secret.filename)| < TWO_TO_THE_32 then Shown(secret) else DecryptionFailed
  }

  /** For a secret the service accepts that is the secret itself. */
  lemma AcceptedIsShown(c: Cipher, key: bytes, nonce: bytes, e: Entered, maxBytes: int)
    requires IsAead(c) && |key| in {16, 24, 32} && ToSecret(e, maxBytes).Ok?
    requires |Ciphertext(c, key, nonce, ToSecret(e, maxBytes).value)| <= maxBytes <= TWO_TO_THE_32
    ensures Expected(e, maxBytes) == Shown(ToSecret(e, maxBytes).value)
  {
    AcceptedHeaderShort(c, key, nonce, ToSecret(e, maxBytes).value, maxBytes);
  }

  /** The bytes the browser posts. */
  function RequestBytes(c: Cipher, key: bytes, nonce: bytes, secret: Secret, expiresIn: nat): bytes {
    EncodeAscii(Ciphertext(c, key, nonce, secret));
    EncodeAscii(nonce);
    TextEncode(RequestText(Sealed(c, key, nonce, secret), expiresIn))
  }

  /** The row the server makes of a request, its JSON read and its base64 decoded at the time `at`. */
  function ServerRow(request: bytes, at: int): Option<Row> {
    match ReadRequest(TextDecode(request))
    case None => None
    case Some((body, expiresIn)) =>
      var ciphertext, nonce := Base64.GoDecode(body.ciphertext), Base64.GoDecode(body.nonce);
      if ciphertext.None? || nonce.None? then None
      else Some(NewRow(Input(ciphertext.value, nonce.value, expiresIn), at))
  }

  /** The server gets from the browser's bytes exactly the ciphertext, the nonce and the expiry. */
  lemma ServerReads(c: Cipher, key: bytes, nonce: bytes, secret: Secret, expiresIn: nat, at: int)
    requires IsInt64(expiresIn)
    ensures ServerRow(RequestBytes(c, key, nonce, secret, expiresIn), at)
      == Some(NewRow(Input(Ciphertext(c, key, nonce, secret), nonce, expiresIn), at))
  {
    EncodeAscii(Ciphertext(c, key, nonce, secret));
    EncodeAscii(nonce);
    RequestReads(Sealed(c, key, nonce, secret), expiresIn);
    Base64.EncodeRoundTrip(Ciphertext(c, key, nonce, secret));
    Base64.EncodeRoundTrip(nonce);
  }

  /** The reply that carries a row reads back as its base64. */
  lemma ReplyCarries(row: Row)
    ensures ReadReply(Reply(row)) == Some(Body(Base64.Encode(row.ciphertext), Base64.Encode(row.nonce)))
  {
    EncodeAscii(row.ciphertext);
    EncodeAscii(row.nonce);
    ReplyReads(Body(Base64.Encode(row.ciphertext), Base64.Encode(row.nonce)));
  }

  lemma DisplaysBody(c: Cipher, keyText: string, row: Row)
    ensures var secret := Opened(c, keyText, Body(Base64.Encode(row.ciphertext), Base64.Encode(row.nonce)));
      Display(c, keyText, Reply(row)) == if secret.Some? then Shown(secret.value) else DecryptionFailed
  {
    ReplyCarries(row);
  }

  /** The reply that carries the sender's row shows the receiver what was entered. */
  lemma RowShows(c: Cipher, key: bytes, nonce: bytes, e: Entered, maxBytes: int, row: Row)
    requires IsAead(c) && |key| in {16, 24, 32} && ToSecret(e, maxBytes).Ok?
    requires row.ciphertext == Ciphertext(c, key, nonce, ToSecret(e, maxBytes).value) && row.nonce == nonce
    ensures Display(c, UrlEncode(key), Reply(row)) == Expected(e, maxBytes)
  {
    var secret := ToSecret(e, maxBytes).value;
    DisplaysBody(c, UrlEncode(key), row);
    OpenedSealed(c, key, nonce, secret);
    assert secret.contentType != [];
  }

  /** A row that is inserted, not fetched and not expired is there to be taken, once. */
  lemma TakenOnce(s: State, call: nat, token: string, row: Row, steps: seq<Step>)
    requires call in s.drafts && s.drafts[call] == Draft(token, row) && token !in s.table
    requires row.expiresAt == None || Run(Apply(s, RunInsert(call, true)), steps).now < row.expiresAt.value
    requires forall step :: step in steps ==> !(step.RunTake? && step.token == token && step.ok)
    ensures var later := Run(Apply(s, RunInsert(call, true)), steps);
      && Take(later.table, token, later.now).1 == Some(row)
      && forall t :: Take(Apply(later, RunTake(token, true)).table, token, t).1 == None
  {
    StaysUntilTaken(Apply(s, RunInsert(call, true)), steps, token);
  }

  /** A secret goes from the form through encryption, the server's decoding, the store and any interleaving
      of other requests and cleanups in which nobody fetches it first; before it expires, whoever has the
      link sees what was entered, and then it is gone. */
  lemma SecretArrives(c: Cipher, key: bytes, nonce: bytes, e: Entered, maxBytes: int, expiresIn: nat, origin: string,
      token: string, s: State, call: nat, at: int, steps: seq<Step>)
    requires IsAead(c) && |key| == 32 && '#' !in origin && IsToken(token) && IsInt64(expiresIn)
    requires ToSecret(e, maxBytes).Ok? && call in s.drafts && token !in s.table && s.drafts[call].token == token
    requires ServerRow(RequestBytes(c, key, nonce, ToSecret(e, maxBytes).value, expiresIn), at)
      == Some(s.drafts[call].row)
    requires expiresIn == 0 ||
      Run(Apply(s, RunInsert(call, true)), steps).now < at + ToInt64(expiresIn * 1_000_000_000)
    requires forall step :: step in steps ==> !(step.RunTake? && step.token == token && step.ok)
    ensures var later := Run(Apply(s, RunInsert(call, true)), steps);
      var link := Link(origin, token, key);
      var (_, row) := Take(later.table, PathToken(origin, link), later.now);
      && row.Some?
      && Display(c, KeyText(Hash(link)), Reply(row.value)) == Expected(e, maxBytes)
      && forall t :: Take(Apply(later, RunTake(token, true)).table, token, t).1 == None
  {
    var row := s.drafts[call].row;
    ServerReads(c, key, nonce, ToSecret(e, maxBytes).value, expiresIn, at);
    LinkReads(origin, token, key);
    TakenOnce(s, call, token, row, steps);
    RowShows(c, key, nonce, e, maxBytes, row);
  }

  lemma UrlTextNonEmpty(key: bytes)
    requires |key| == 32
    ensures UrlEncode(key) != ""
  {
    UrlRoundTrip(key);
  }

  /** Submit the form of a fresh page. */
  method FillForm(e: Entered, c: Cipher, key: array<byte>, nonce: array<byte>, expiresIn: nat, origin: string,
      server: Handler, random: Option<bytes>, now: int, ok: bool)
    returns (created: CreateView)
    requires key.Length == 32 && nonce.Length == 12 && IsInt64(expiresIn)
    requires random.Some? ==> |random.value| == 16
    modifies server.svc.repo
    ensures !created.Created? ==> server.svc.repo.secrets == old(server.svc.repo.secrets)
    ensures created.Created? ==>
      && ToSecret(e, server.maxBytes).Ok? && random.Some?
      && var token := SecretService.Hex(random.value);
      && var ciphertext := Ciphertext(c, key[..], nonce[..], ToSecret(e, server.maxBytes).value);
      && created.link == Link(origin, token, key[..]) && token !in old(server.svc.repo.secrets)
      && server.svc.repo.secrets
         == old(server.svc.repo.secrets)[token := NewRow(Input(ciphertext, nonce[..], expiresIn), now)]
  {
    var page := new CreatePage();
    page.Submit(e, c, key, nonce, expiresIn, origin, server, random, now, ok, true);
    created := page.view;
  }

  /** Open a link and reveal. */
  method OpenLink(origin: string, ghost token: string, key: bytes, link: string, c: Cipher, server: Handler, now: int)
    returns (view: RevealView)
    requires |key| == 32 && '#' !in origin && IsToken(token) && link == Link(origin, token, key)
    modifies server.svc.repo
    ensures var (rest, row) := Take(old(server.svc.repo.secrets), token, now);
      && server.svc.repo.secrets == rest
      && view == match row
         case None => Gone
         case Some(r) => Display(c, UrlEncode(key), Reply(r))
  {
    LinkReads(origin, token, key);
    UrlTextNonEmpty(key);
    var page := new RevealPage(Hash(link), PathToken(origin, link));
    page.Reveal(c, server, now, true, true);
    view := page.view;
  }

  lemma InsertTake(t: Table, token: string, row: Row, now: int)
    requires token !in t && Retrievable(row, now)
    ensures Take(t[token := row], token, now) == (t, Some(row))
  {
    assert t[token := row] - {token} == t;
  }

  /** Share with the handlers themselves: submit the form, open the link before it expires, and reveal.  Then
      the view is what was entered, and the table what it was before. */
  method Share(e: Entered, c: Cipher, key: array<byte>, nonce: array<byte>, expiresIn: nat, origin: string,
      server: Handler, random: Option<bytes>, now: int, ok: bool, later: int)
    returns (created: CreateView, shown: RevealView)
    requires IsAead(c) && key.Length == 32 && nonce.Length == 12 && IsInt64(expiresIn) && '#' !in origin
    requires random.Some? ==> |random.value| == 16
    modifies server.svc.repo
    ensures !created.Created? ==> shown == Locked && server.svc.repo.secrets == old(server.svc.repo.secrets)
    ensures created.Created? ==> ToSecret(e, server.maxBytes).Ok?
    ensures created.Created? && (expiresIn == 0 || later < now + ToInt64(expiresIn * 1_000_000_000)) ==>
      shown == Expected(e, server.maxBytes) && server.svc.repo.secrets == old(server.svc.repo.secrets)
  {
    created := FillForm(e, c, key, nonce, expiresIn, origin, server, random, now, ok);
    if !created.Created? {
      return created, Locked;
    }
    ghost var token := SecretService.Hex(random.value);
    ghost var row := server.svc.repo.secrets[token];
    SecretService.HexShape(random.value);
    shown := OpenLink(origin, token, key[..], created.link, c, server, later);
    RowShows(c, key[..], nonce[..], e, server.maxBytes, row);
    if Retrievable(row, later) {
      InsertTake(old(server.svc.repo.secrets), token, row, later);
    }
  }

  // ----- what the receiver loses -----

  lemma OpensRow(c: Cipher, key: bytes, row: Row)
    ensures OpenBody(c, key, Body(Base64.Encode(row.ciphertext), Base64.Encode(row.nonce)))
      == c.open(key, row.nonce, row.ciphertext)
  {
    Base64.EncodeRoundTrip(row.ciphertext);
    Base64.EncodeRoundTrip(row.nonce);
  }

  /** A fetched secret cannot be shown, and it is no longer stored, exactly when the key text decodes to no
      key of a size importKey takes, or that key does not open the row, or what it opens does not unpack. */
  lemma LostExactly(c: Cipher, keyText: string, row: Row)
    ensures Display(c, keyText, Reply(row)) == DecryptionFailed
      <==> UrlDecode(keyText).None? || |UrlDecode(keyText).value| !in {16, 24, 32}
           || c.open(UrlDecode(keyText).value, row.nonce, row.ciphertext).None?
           || Unpack(c.open(UrlDecode(keyText).value, row.nonce, row.ciphertext).value).Err?
  {
    DisplaysBody(c, keyText, row);
    var key := KeyOf(keyText);
    if key.Some? {
      OpensRow(c, key.value, row);
    }
  }

  /** What a page could check before it fetches: a key text that gives no key loses every secret. */
  lemma BadKeyLoses(c: Cipher, keyText: string, row: Row)
    requires UrlDecode(keyText).None? || |UrlDecode(keyText).value| !in {16, 24, 32}
    ensures Display(c, keyText, Reply(row)) == DecryptionFailed
  {
    LostExactly(c, keyText, row);
  }

  /** A page whose key text gives no key fetches all the same: the secret, whatever it is, has been deleted
      and cannot be read. */
  method Lose(keyText: string, c: Cipher, token: string, server: Handler, now: int) returns (page: RevealPage)
    requires keyText != "" && (UrlDecode(keyText).None? || |UrlDecode(keyText).value| !in {16, 24, 32})
    requires token in server.svc.repo.secrets && token != ""
    requires var row := server.svc.repo.secrets[token]; row.expiresAt == None || now < row.expiresAt.value
    modifies server.svc.repo
    ensures page.view == DecryptionFailed && page.hash == "" && token !in server.svc.repo.secrets
  {
    page := new RevealPage("#key=" + keyText, token);
    assert ("#key=" + keyText)[5..] == keyText;
    BadKeyLoses(c, keyText, server.svc.repo.secrets[token]);
    page.Reveal(c, server, now, true, true);
  }

  /** For one, a link cut off after the first character of its key. */
  method CutLink(c: Cipher, token: string, server: Handler, now: int) returns (page: RevealPage)
    requires token in server.svc.repo.secrets && token != ""
    requires var row := server.svc.repo.secrets[token]; row.expiresAt == None || now < row.expiresAt.value
    modifies server.svc.repo
    ensures page.view == DecryptionFailed && token !in server.svc.repo.secrets
  {
    var keyText: string := seq(1, _ => 'A');
    UrlDecodeExactly(keyText);
    page := Lose(keyText, c, token, server, now);
  }

  /** A fetch that fails tells the visitor to try again, which can only fail: the key has left the page.  The
      secret is still there. */
  method TryAgain(page: RevealPage, c: Cipher, server: Handler, now: int, later: int, ok: bool)
    requires "#key=" < page.hash && page.token != ""
    modifies page`hash, page`view, server.svc.repo
    ensures page.view == NoKey && page.hash == "" && server.svc.repo.secrets == old(server.svc.repo.secrets)
  {
    page.Reveal(c, server, now, false, true);
    assert page.view == RetrieveFailed;
    page.Reveal(c, server, later, ok, true);
  }
}

/** The two handlers that take a secret in and give it out. */
module SecretHandler {
  import opened Bytes
  import opened SecretStore
  import opened SecretService
  import opened Wrappers
  import Base64

  datatype Body = Body(ciphertext: string, nonce: string)

  /** A request to create a secret: what its JSON says, nothing if it is malformed, and how many bytes of
      body have been read when the JSON value ends. */
  datatype CreateRequest = CreateRequest(json: Option<(Body, int)>, size: nat)

  datatype CreateResponse = BadRequest | RequestEntityTooLarge | CreateFailed | Issued(token: string)
  datatype RevealResponse = NotThere | RevealFailed | Payload(body: Body)

  /** Go's division, which truncates toward zero. */
  function Quotient(a: int, b: nat): int
    requires b > 0
  {
    if a >= 0 then a / b else -(-a / b)
  }

  /** The limit on the request body, in 64-bit arithmetic. */
  function BodyLimit(maxBytes: int): int {
    ToInt64(Quotient(ToInt64(maxBytes * 4), 3) + 16384)
  }

  /** http.MaxBytesReader, which takes a negative limit for zero. */
  predicate Readable(size: nat, maxBytes: int) {
    size <= (if BodyLimit(maxBytes) < 0 then 0 else BodyLimit(maxBytes))
  }

  lemma QuotientTruncates(a: int, b: nat)
    requires b > 0
    ensures var r := a - b * Quotient(a, b);
      (a >= 0 ==> 0 <= r < b) && (a <= 0 ==> 0 - b < r <= 0)
  {
    if a >= 0 {
      assert a == b * (a / b) + a % b;
    } else {
      assert -a == b * (-a / b) + -a % b;
      assert b * -(-a / b) == -(b * (-a / b));
    }
  }

  /** The body that may be read: a third more than four times a third of the maximum, when that does not wrap
      around, and nothing at all when it wraps to a negative number. */
  lemma ReadableExactly(size: nat, maxBytes: int)
    ensures 0 <= maxBytes && 4 * maxBytes <= INT64_MAX ==>
      (Readable(size, maxBytes) <==> size <= maxBytes * 4 / 3 + 16384)
    ensures INT64_MAX < 4 * maxBytes && maxBytes < 0x4000_0000_0000_0000 - 0x4000 ==>
      (Readable(size, maxBytes) <==> size == 0)
  {
    if INT64_MAX < 4 * maxBytes && maxBytes < 0x4000_0000_0000_0000 - 0x4000 {
      assert ToInt64(maxBytes * 4) == maxBytes * 4 - 0x1_0000_0000_0000_0000;
    }
  }

  class Handler {
    const svc: SecretService
    const maxBytes: int

    constructor (svc: SecretService, maxBytes: int)
      ensures this.svc == svc && this.maxBytes == maxBytes
    {
      this.svc, this.maxBytes := svc, maxBytes;
    }

    method CreateSecret(request: CreateRequest, random: Option<bytes>, now: int, ok: bool, eventOk: bool)
      returns (r: CreateResponse)
      requires random.Some? ==> |random.value| == 16
      modifies svc.repo
      ensures r.Issued? <==>
        && request.json.Some? && Readable(request.size, maxBytes)
        && Base64.GoDecode(request.json.value.0.ciphertext).Some?
        && Base64.GoDecode(request.json.value.0.nonce).Some?
        && |Base64.GoDecode(request.json.value.0.ciphertext).value| <= svc.maxBytes
        && random.Some? && ok && Hex(random.value) !in old(svc.repo.secrets)
      ensures r.Issued? ==>
        var (body, expiresIn) := request.json.value;
        var input := Input(Base64.GoDecode(body.ciphertext).value, Base64.GoDecode(body.nonce).value, expiresIn);
        && r.token == Hex(random.value)
        && Some(svc.repo.secrets) == Insert(old(svc.repo.secrets), r.token, NewRow(input, now))
        && svc.repo.events == old(svc.repo.events) + (if eventOk then [Event(Created, 1)] else [])
      ensures !r.Issued? ==> unchanged(svc.repo)
      ensures r.BadRequest? <==>
        || request.json.None? || !Readable(request.size, maxBytes)
        || Base64.GoDecode(request.json.value.0.ciphertext).None?
        || Base64.GoDecode(request.json.value.0.nonce).None?
      ensures r.RequestEntityTooLarge? <==>
        !r.BadRequest? && |Base64.GoDecode(request.json.value.0.ciphertext).value| > svc.maxBytes
    {
      if !Readable(request.size, maxBytes) || request.json.None? {
        return BadRequest;
      }
      var (body, expiresIn) := request.json.value;
      var ciphertext := Base64.GoDecode(body.ciphertext);
      if ciphertext.None? {
        return BadRequest;
      }
      var nonce := Base64.GoDecode(body.nonce);
      if nonce.None? {
        return BadRequest;
      }
      var created := svc.Create(Input(ciphertext.value, nonce.value, expiresIn), random, now, ok, eventOk);
      match created
      case Ok(token) => r := Issued(token);
      case Err(TooLarge) => r := RequestEntityTooLarge;
      case Err(_) => r := CreateFailed;
    }

    method RevealSecret(token: string, now: int, ok: bool, eventOk: bool) returns (r: RevealResponse)
      modifies svc.repo
      ensures var (rest, row) := Take(old(svc.repo.secrets), token, now);
        if ok && row.Some? then
          && r == Payload(Body(Base64.Encode(row.value.ciphertext), Base64.Encode(row.value.nonce)))
          && svc.repo.secrets == rest
          && svc.repo.events == old(svc.repo.events) + (if eventOk then [Event(Retrieved, 1)] else [])
        else
          r == (if ok then NotThere else RevealFailed) && unchanged(svc.repo)
    {
      var secret := svc.Retrieve(token, now, ok, eventOk);
      match secret
      case Ok(row) => r := Payload(Body(Base64.Encode(row.ciphertext), Base64.Encode(row.nonce)));
      case Err(NotFound) => r := NotThere;
      case Err(_) => r := RevealFailed;
    }
  }
}

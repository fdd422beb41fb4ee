/** The service between the handlers and the tables. */
module SecretService {
  import opened Bytes
  import opened SecretStore
  import opened Wrappers

  function HexDigit(n: nat): char
    requires n < 16
  {
    "0123456789abcdef"[n]
  }

  /** hex.EncodeToString. */
  function Hex(b: bytes): string {
    if b == [] then "" else [HexDigit(b[0] / 16), HexDigit(b[0] % 16)] + Hex(b[1..])
  }

  /** The token of a secret; `random` is what the random source delivers, nothing if it fails. */
  method GenerateToken(random: Option<bytes>) returns (r: Option<string>)
    requires random.Some? ==> |random.value| == 16
    ensures r.Some? <==> random.Some?
    ensures r.Some? ==> r.value == Hex(random.value)
  {
    var b := new byte[16];
    if random.None? {
      return None;
    }
    var i := 0;
    while i < b.Length
      invariant 0 <= i <= b.Length
      invariant b[..i] == random.value[..i]
    {
      b[i] := random.value[i];
      i := i + 1;
    }
    assert b[..] == random.value;
    r := Some(Hex(b[..]));
  }

  predicate IsHex(ch: char) {
    '0' <= ch <= '9' || 'a' <= ch <= 'f'
  }

  /** Two lower-case hexadecimal digits for each byte. */
  lemma {:induction false} HexShape(b: bytes)
    ensures |Hex(b)| == 2 * |b|
    ensures forall i :: 0 <= i < |Hex(b)| ==> IsHex(Hex(b)[i])
  {
    if b == [] {
    } else {
      HexShape(b[1..]);
    }
  }

  lemma HexDigitInjective(m: nat, n: nat)
    requires m < 16 && n < 16 && HexDigit(m) == HexDigit(n)
    ensures m == n
  {
    assert forall k: nat :: k < 10 ==> HexDigit(k) as int == 0x30 + k;
    assert forall k: nat :: 10 <= k < 16 ==> HexDigit(k) as int == 0x57 + k;
  }

  lemma HexFirst(a: bytes)
    requires a != []
    ensures |Hex(a)| >= 2 && Hex(a)[0] == HexDigit(a[0] / 16) && Hex(a)[1] == HexDigit(a[0] % 16)
    ensures Hex(a)[2..] == Hex(a[1..])
  {
  }

  /** Different random bytes make different tokens. */
  lemma {:induction false} HexInjective(a: bytes, b: bytes)
    requires Hex(a) == Hex(b)
    ensures a == b
  {
    HexShape(a);
    HexShape(b);
    if a == [] {
    } else {
      HexFirst(a);
      HexFirst(b);
      HexDigitInjective(a[0] / 16, b[0] / 16);
      HexDigitInjective(a[0] % 16, b[0] % 16);
      HexInjective(a[1..], b[1..]);
      assert a == [a[0]] + a[1..] && b == [b[0]] + b[1..];
    }
  }

  datatype Failure = TooLarge | NoToken | Storing(error: SecretStore.Error)

  class SecretService {
    const repo: SecretRepository
    const maxBytes: int

    constructor (repo: SecretRepository, maxBytes: int)
      ensures this.repo == repo && this.maxBytes == maxBytes
    {
      this.repo, this.maxBytes := repo, maxBytes;
    }

    method Create(input: Input, random: Option<bytes>, now: int, ok: bool, eventOk: bool)
      returns (r: Result<string, Failure>)
      requires random.Some? ==> |random.value| == 16
      modifies repo
      ensures
        if |input.ciphertext| > maxBytes then r == Err(TooLarge) && unchanged(repo)
        else if random.None? then r == Err(NoToken) && unchanged(repo)
        else
          var token := Hex(random.value);
          var inserted := Insert(old(repo.secrets), token, NewRow(input, now));
          if ok && inserted.Some? then
            r == Ok(token) && repo.secrets == inserted.value
            && repo.events == old(repo.events) + (if eventOk then [Event(Created, 1)] else [])
          else
            r.Err? && r.error.Storing? && unchanged(repo)
    {
      if |input.ciphertext| > maxBytes {
        return Err(TooLarge);
      }
      var token := GenerateToken(random);
      if token.None? {
        return Err(NoToken);
      }
      var stored := repo.Store(token.value, input, now, ok, eventOk);
      if stored.Err? {
        return Err(Storing(stored.error));
      }
      r := Ok(token.value);
    }

    method Retrieve(token: string, now: int, ok: bool, eventOk: bool) returns (r: Result<Row, SecretStore.Error>)
      modifies repo
      ensures var (rest, row) := Take(old(repo.secrets), token, now);
        if ok && row.Some? then
          r == Ok(row.value) && repo.secrets == rest
          && repo.events == old(repo.events) + (if eventOk then [Event(Retrieved, 1)] else [])
        else
          r == Err(if ok then NotFound else Database) && unchanged(repo)
    {
      r := repo.FetchAndDelete(token, now, ok, eventOk);
    }
  }
}

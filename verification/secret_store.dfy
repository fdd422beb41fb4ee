/** The table of one-time secrets: each SQL statement is one atomic step on it. */
module SecretStore {
  import opened Bytes
  import opened Wrappers

  const SECOND: int := 1_000_000_000

  datatype Row = Row(ciphertext: bytes, nonce: bytes, expiresAt: Option<int>)

  type Table = map<string, Row>

  datatype Input = Input(ciphertext: bytes, nonce: bytes, expiresIn: int)

  /** time.Duration(expiresIn) * time.Second, in 64-bit arithmetic. */
  function Lifetime(expiresIn: int): int {
    ToInt64(expiresIn * SECOND)
  }

  /** The row to insert for a request that arrives at `now`. */
  function NewRow(input: Input, now: int): Row {
    Row(input.ciphertext, input.nonce, if input.expiresIn > 0 then Some(now + Lifetime(input.expiresIn)) else None)
  }

  predicate Retrievable(row: Row, now: int) {
    row.expiresAt == None || now < row.expiresAt.value
  }

  predicate Purgeable(row: Row, now: int) {
    row.expiresAt.Some? && row.expiresAt.value < now
  }

  /** INSERT, refused by the unique constraint on the token. */
  function Insert(t: Table, token: string, row: Row): Option<Table> {
    if token in t then None else Some(t[token := row])
  }

  /** DELETE ... RETURNING of one retrievable row. */
  function Take(t: Table, token: string, now: int): (Table, Option<Row>) {
    if token in t && Retrievable(t[token], now) then (t - {token}, Some(t[token])) else (t, None)
  }

  /** The rows the cleanup statement deletes. */
  function Stale(t: Table, now: int): Table {
    map token | token in t && Purgeable(t[token], now) :: t[token]
  }

  datatype Kind = Created | Retrieved | Expired
  datatype Event = Event(kind: Kind, count: nat)

  function Sum(events: seq<Event>, kind: Kind): nat {
    if events == [] then 0 else (if events[0].kind == kind then events[0].count else 0) + Sum(events[1..], kind)
  }

  lemma {:induction false} SumAppend(a: seq<Event>, b: seq<Event>, kind: Kind)
    ensures Sum(a + b, kind) == Sum(a, kind) + Sum(b, kind)
  {
    if a == [] {
      assert a + b == b;
    } else {
      assert (a + b)[1..] == a[1..] + b;
      SumAppend(a[1..], b, kind);
    }
  }

  /** Only up to 9223372036 seconds does the product stay what it should be; one more already wraps into
      the past. */
  lemma LifetimeExact(expiresIn: int)
    requires 0 < expiresIn && IsInt64(expiresIn)
    ensures Lifetime(expiresIn) == expiresIn * SECOND <==> expiresIn <= 9223372036
    ensures expiresIn <= 9223372036 ==> Lifetime(expiresIn) > 0
    ensures Lifetime(9223372037) < 0
  {
  }

  /** Until when a row can be retrieved, in seconds from the request that stored it. */
  lemma RetrievableExactly(input: Input, now: int, later: int)
    ensures Retrievable(NewRow(input, now), later)
      <==> input.expiresIn <= 0 || later < now + ToInt64(input.expiresIn * 1_000_000_000)
    ensures NewRow(input, now).ciphertext == input.ciphertext && NewRow(input, now).nonce == input.nonce
  {
  }

  datatype Error = NotFound | Duplicate | Database

  /** SecretRepository over the two tables.  `ok` tells whether the statement's round trip succeeds and
      `eventOk` whether the best-effort event row is written. */
  class SecretRepository {
    var secrets: Table
    var events: seq<Event>

    constructor ()
      ensures secrets == map[] && events == []
    {
      secrets, events := map[], [];
    }

    method Store(token: string, input: Input, now: int, ok: bool, eventOk: bool) returns (r: Result<(), Error>)
      modifies this
      ensures var inserted := Insert(old(secrets), token, NewRow(input, now));
        if ok && inserted.Some? then
          r == Ok(()) && secrets == inserted.value
          && events == old(events) + (if eventOk then [Event(Created, 1)] else [])
        else
          r.Err? && unchanged(this)
      ensures r.Ok? <==> ok && token !in old(secrets)
      ensures r.Ok? ==> secrets == old(secrets)[token := Row(input.ciphertext, input.nonce,
        if input.expiresIn > 0 then Some(now + ToInt64(input.expiresIn * 1_000_000_000)) else None)]
    {
      var expiresAt := None;
      if input.expiresIn > 0 {
        expiresAt := Some(now + Lifetime(input.expiresIn));
      }
      if !ok {
        return Err(Database);
      }
      if token in secrets {
        return Err(Duplicate);
      }
      secrets := secrets[token := Row(input.ciphertext, input.nonce, expiresAt)];
      RecordEvent(Created, 1, eventOk);
      r := Ok(());
    }

    method FetchAndDelete(token: string, now: int, ok: bool, eventOk: bool) returns (r: Result<Row, Error>)
      modifies this
      ensures var (rest, row) := Take(old(secrets), token, now);
        if ok && row.Some? then
          r == Ok(row.value) && secrets == rest
          && events == old(events) + (if eventOk then [Event(Retrieved, 1)] else [])
        else
          r == Err(if ok then NotFound else Database) && unchanged(this)
      ensures r.Ok? <==>
        && ok && token in old(secrets)
        && (old(secrets)[token].expiresAt == None || now < old(secrets)[token].expiresAt.value)
      ensures r.Ok? ==> r.value == old(secrets)[token] && secrets == old(secrets) - {token}
    {
      if !ok {
        return Err(Database);
      }
      if token !in secrets || !Retrievable(secrets[token], now) {
        return Err(NotFound);
      }
      var row := secrets[token];
      secrets := secrets - {token};
      RecordEvent(Retrieved, 1, eventOk);
      r := Ok(row);
    }

    method CleanupExpired(now: int, ok: bool, eventOk: bool) returns (r: Result<nat, Error>)
      modifies this
      ensures var stale := Stale(old(secrets), now);
        if ok then
          r == Ok(|stale|) && secrets == old(secrets) - stale.Keys
          && events == old(events) + (if eventOk && stale != map[] then [Event(Expired, |stale|)] else [])
        else
          r == Err(Database) && unchanged(this)
      ensures r.Ok? ==>
        secrets == map t |
          t in old(secrets) && (old(secrets)[t].expiresAt == None || now <= old(secrets)[t].expiresAt.value)
          :: old(secrets)[t]
      ensures r.Ok? ==> r.value == |old(secrets)| - |secrets|
    {
      if !ok {
        return Err(Database);
      }
      var stale := Stale(secrets, now);
      secrets := secrets - stale.Keys;
      var n := |stale|;
      if n > 0 {
        RecordEvent(Expired, n, eventOk);
      }
      r := Ok(n);
    }

    method RecordEvent(kind: Kind, count: nat, ok: bool)
      modifies this`events
      ensures events == old(events) + (if ok then [Event(kind, count)] else [])
    {
      if ok {
        events := events + [Event(kind, count)];
      }
    }
  }

  /** Store a secret and fetch it: it comes back, with its bytes, exactly before it expires. */
  method StoreThenFetch(repo: SecretRepository, token: string, input: Input, now: int, later: int)
    returns (r: Result<Row, Error>)
    requires token !in repo.secrets
    modifies repo
    ensures r.Ok? <==> input.expiresIn <= 0 || later < now + ToInt64(input.expiresIn * 1_000_000_000)
    ensures 0 < input.expiresIn <= 9223372036 ==> (r.Ok? <==> later < now + input.expiresIn * 1_000_000_000)
    ensures r.Ok? ==> r.value.ciphertext == input.ciphertext && r.value.nonce == input.nonce
    ensures r.Ok? ==> repo.secrets == old(repo.secrets)
    ensures r.Err? ==> r.error == NotFound && repo.secrets.Keys == old(repo.secrets.Keys) + {token}
  {
    var _ := repo.Store(token, input, now, true, true);
    RetrievableExactly(input, now, later);
    r := repo.FetchAndDelete(token, later, true, true);
    assert old(repo.secrets)[token := NewRow(input, now)] - {token} == old(repo.secrets);
  }
}

/** Create, reveal and cleanup requests interleaved, statement by statement, on one clock. */
module SecretLifecycle {
  import opened Bytes
  import opened SecretStore
  import opened Wrappers

  /** An insert whose expiry has been computed and whose statement has not run. */
  datatype Draft = Draft(token: string, row: Row)

  /** What has happened to the table, for the record. */
  datatype Entry =
    | Stored(token: string, row: Row, at: int)
    | Taken(token: string, row: Row, at: int)
    | Purged(rows: Table, at: int)

  datatype State = State(
    now: int,
    table: Table,
    drafts: map<nat, Draft>,
    pending: seq<Event>,   // event rows still to be written
    lost: seq<Event>,      // event rows whose write failed
    events: seq<Event>,    // the secret_events table
    history: seq<Entry>)

  datatype Step =
    | Pass(nanoseconds: nat)
    | Prepare(call: nat, token: string, input: Input)
    | RunInsert(call: nat, ok: bool)
    | RunTake(token: string, ok: bool)
    | RunPurge(ok: bool)
    | WriteEvent(index: nat, ok: bool)

  function Start(now: int): State {
    State(now, map[], map[], [], [], [], [])
  }

  function Apply(s: State, step: Step): State {
    match step
    case Pass(n) => s.(now := s.now + n)
    case Prepare(call, token, input) => s.(drafts := s.drafts[call := Draft(token, NewRow(input, s.now))])
    case RunInsert(call, ok) =>
      if call !in s.drafts then s
      else
        var d := s.drafts[call];
        var rest := s.(drafts := s.drafts - {call});
        (match Insert(s.table, d.token, d.row)
         case Some(table) =>
           if ok then rest.(table := table, pending := s.pending + [Event(Created, 1)],
                            history := s.history + [Stored(d.token, d.row, s.now)])
           else rest
         case None => rest)
    case RunTake(token, ok) =>
      var (table, row) := Take(s.table, token, s.now);
      if ok && row.Some? then
        s.(table := table, pending := s.pending + [Event(Retrieved, 1)],
           history := s.history + [Taken(token, row.value, s.now)])
      else s
    case RunPurge(ok) =>
      var stale := Stale(s.table, s.now);
      if ok && stale != map[] then
        s.(table := s.table - stale.Keys, pending := s.pending + [Event(Expired, |stale|)],
           history := s.history + [Purged(stale, s.now)])
      else s
    case WriteEvent(i, ok) =>
      if i >= |s.pending| then s
      else
        var rest := s.(pending := s.pending[..i] + s.pending[i + 1..]);
        if ok then rest.(events := s.events + [s.pending[i]]) else rest.(lost := s.lost + [s.pending[i]])
  }

  function Run(s: State, steps: seq<Step>): State
    decreases |steps|
  {
    if steps == [] then s else Run(Apply(s, steps[0]), steps[1..])
  }

  // ----- what a history means -----

  /** The rows a history leaves in the table. */
  function Live(h: seq<Entry>): Table {
    if h == [] then map[]
    else
      var before := Live(h[..|h| - 1]);
      match h[|h| - 1]
      case Stored(token, row, _) => before[token := row]
      case Taken(token, _, _) => before - {token}
      case Purged(rows, _) => before - rows.Keys
  }

  /** Whether an entry may follow a history that leaves the table t. */
  ghost predicate Fits(t: Table, e: Entry) {
    match e
    case Stored(token, _, _) => token !in t
    case Taken(token, row, at) => token in t && t[token] == row && Retrievable(row, at)
    case Purged(rows, at) =>
      && rows.Keys <= t.Keys
      && forall token :: token in rows ==> rows[token] == t[token] && Purgeable(rows[token], at)
  }

  /** Every entry fits those before it, and none is later than `now` or earlier than its predecessor. */
  ghost predicate Lawful(h: seq<Entry>, now: int) {
    h == [] ||
    var init, e := h[..|h| - 1], h[|h| - 1];
    Fits(Live(init), e) && e.at <= now && Lawful(init, e.at)
  }

  lemma LawfulAppend(h: seq<Entry>, e: Entry, now: int)
    requires Lawful(h, e.at) && Fits(Live(h), e) && e.at <= now
    ensures Lawful(h + [e], now)
    ensures Live(h + [e]) ==
      match e
      case Stored(token, row, _) => Live(h)[token := row]
      case Taken(token, _, _) => Live(h) - {token}
      case Purged(rows, _) => Live(h) - rows.Keys
  {
    assert (h + [e])[..|h|] == h;
  }

  // ----- the books -----

  function CountOf(e: Entry): Event {
    match e
    case Stored(_, _, _) => Event(Created, 1)
    case Taken(_, _, _) => Event(Retrieved, 1)
    case Purged(rows, _) => Event(Expired, |rows|)
  }

  /** How many secrets a history has created, retrieved or expired. */
  function Total(h: seq<Entry>, kind: Kind): nat {
    if h == [] then 0
    else
      var c := CountOf(h[|h| - 1]);
      Total(h[..|h| - 1], kind) + (if c.kind == kind then c.count else 0)
  }

  lemma TotalAppend(h: seq<Entry>, e: Entry, kind: Kind)
    ensures Total(h + [e], kind) == Total(h, kind) + (if CountOf(e).kind == kind then CountOf(e).count else 0)
  {
    assert (h + [e])[..|h|] == h;
  }

  ghost predicate Balanced(s: State, kind: Kind) {
    Total(s.history, kind) == Sum(s.events, kind) + Sum(s.pending, kind) + Sum(s.lost, kind)
  }

  ghost predicate Inv(s: State) {
    && s.table == Live(s.history)
    && Lawful(s.history, s.now)
    && forall kind :: Balanced(s, kind)
  }

  lemma LawfulLater(h: seq<Entry>, now: int, later: int)
    requires Lawful(h, now) && now <= later
    ensures Lawful(h, later)
  {
  }

  /** One more entry, and its event row not yet written. */
  lemma RecordKeeps(s: State, s': State, e: Entry)
    requires Inv(s) && e.at == s.now && Fits(s.table, e)
    requires s'.now == s.now && s'.history == s.history + [e] && s'.pending == s.pending + [CountOf(e)]
    requires s'.events == s.events && s'.lost == s.lost && s'.table == Live(s'.history)
    ensures Inv(s')
  {
    LawfulAppend(s.history, e, s.now);
    forall kind ensures Balanced(s', kind) {
      assert Balanced(s, kind);
      TotalAppend(s.history, e, kind);
      SumAppend(s.pending, [CountOf(e)], kind);
    }
  }

  lemma SumWithout(p: seq<Event>, i: nat, kind: Kind)
    requires i < |p|
    ensures Sum(p, kind) == Sum(p[..i] + p[i + 1..], kind) + Sum([p[i]], kind)
  {
    assert p == p[..i] + ([p[i]] + p[i + 1..]);
    SumAppend(p[..i], [p[i]] + p[i + 1..], kind);
    SumAppend([p[i]], p[i + 1..], kind);
    SumAppend(p[..i], p[i + 1..], kind);
  }

  lemma WriteKeeps(s: State, i: nat, ok: bool)
    requires Inv(s) && i < |s.pending|
    ensures Inv(Apply(s, WriteEvent(i, ok)))
  {
    var s' := Apply(s, WriteEvent(i, ok));
    forall kind ensures Balanced(s', kind) {
      assert Balanced(s, kind);
      SumWithout(s.pending, i, kind);
      SumAppend(s.events, [s.pending[i]], kind);
      SumAppend(s.lost, [s.pending[i]], kind);
    }
  }

  /** A step that records nothing. */
  lemma QuietKeeps(s: State, s': State)
    requires Inv(s) && s.now <= s'.now && s'.table == s.table && s'.history == s.history
    requires s'.pending == s.pending && s'.events == s.events && s'.lost == s.lost
    ensures Inv(s')
  {
    LawfulLater(s.history, s.now, s'.now);
    forall kind ensures Balanced(s', kind) {
      assert Balanced(s, kind);
    }
  }

  lemma ApplyKeeps(s: State, step: Step)
    requires Inv(s)
    ensures Inv(Apply(s, step))
  {
    var s' := Apply(s, step);
    if step.WriteEvent? && step.index < |s.pending| {
      WriteKeeps(s, step.index, step.ok);
    } else if s'.history == s.history {
      QuietKeeps(s, s');
    } else {
      var e := s'.history[|s.history|];
      assert s'.history == s.history + [e];
      LawfulAppend(s.history, e, s.now);
      RecordKeeps(s, s', e);
    }
  }

  /** Every interleaving keeps the books. */
  lemma {:induction false} RunKeeps(s: State, steps: seq<Step>)
    requires Inv(s)
    ensures Inv(Run(s, steps))
    decreases |steps|
  {
    if steps == [] {
    } else {
      ApplyKeeps(s, steps[0]);
      RunKeeps(Apply(s, steps[0]), steps[1..]);
    }
  }

  // ----- one delivery per secret -----

  function Mentions(e: Entry, token: string): bool {
    match e
    case Stored(t, _, _) => t == token
    case Taken(t, _, _) => t == token
    case Purged(rows, _) => token in rows
  }

  /** The store that a delivery delivers: no entry about the token lies between. */
  ghost predicate Delivers(h: seq<Entry>, j: nat, i: nat) {
    && j < i < |h| && h[i].Taken? && h[j].Stored?
    && h[j].token == h[i].token && h[j].row == h[i].row
    && forall k :: j < k < i ==> !Mentions(h[k], h[i].token)
  }

  lemma {:induction false} LawfulPrefix(h: seq<Entry>, now: int, i: nat)
    requires Lawful(h, now) && i < |h|
    ensures h[i].at <= now && Fits(Live(h[..i]), h[i]) && Lawful(h[..i], h[i].at)
    decreases |h|
  {
    var init := h[..|h| - 1];
    if i == |h| - 1 {
      assert h[..i] == init;
    } else {
      LawfulPrefix(init, h[|h| - 1].at, i);
      assert init[..i] == h[..i];
    }
  }

  /** A live row is the row of the latest store of its token. */
  lemma {:induction false} LiveFromStore(h: seq<Entry>, now: int, token: string) returns (j: nat)
    requires Lawful(h, now) && token in Live(h)
    ensures j < |h| && h[j].Stored? && h[j].token == token && h[j].row == Live(h)[token]
    ensures forall k :: j < k < |h| ==> !Mentions(h[k], token)
    decreases |h|
  {
    var init, e := h[..|h| - 1], h[|h| - 1];
    if e.Stored? && e.token == token {
      j := |h| - 1;
    } else {
      j := LiveFromStore(init, e.at, token);
    }
  }

  lemma LawfulDelivery(h: seq<Entry>, now: int, i: nat)
    requires Lawful(h, now) && i < |h| && h[i].Taken?
    ensures h[i].row.expiresAt == None || h[i].at < h[i].row.expiresAt.value
    ensures exists j: nat :: Delivers(h, j, i)
  {
    LawfulPrefix(h, now, i);
    var j := LiveFromStore(h[..i], h[i].at, h[i].token);
    assert Delivers(h, j, i);
  }

  /** In every interleaving, a retrieval hands out exactly the bytes of a store before it that nothing has
      touched since, and at a time before the row expires. */
  lemma EveryDeliveryIsDue(now: int, steps: seq<Step>, i: nat)
    requires i < |Run(Start(now), steps).history|
    ensures var h := Run(Start(now), steps).history;
      h[i].Taken? ==>
        && (h[i].row.expiresAt == None || h[i].at < h[i].row.expiresAt.value)
        && (exists j: nat :: Delivers(h, j, i))
  {
    var s := Run(Start(now), steps);
    StartInv(now);
    RunKeeps(Start(now), steps);
    if s.history[i].Taken? {
      LawfulDelivery(s.history, s.now, i);
    }
  }

  /** Step k computed this row for a request to store under this token. */
  ghost predicate PreparedAt(now: int, steps: seq<Step>, k: nat, token: string, row: Row) {
    && k < |steps| && steps[k].Prepare? && steps[k].token == token
    && var input, at := steps[k].input, Run(Start(now), steps[..k]).now;
    row == Row(input.ciphertext, input.nonce,
               if input.expiresIn > 0 then Some(at + ToInt64(input.expiresIn * 1_000_000_000)) else None)
  }

  ghost predicate Prepared(now: int, steps: seq<Step>, n: nat, token: string, row: Row) {
    exists k :: 0 <= k < n && PreparedAt(now, steps, k, token, row)
  }

  ghost predicate Sourced(now: int, steps: seq<Step>, n: nat, s: State) {
    && (forall call :: call in s.drafts ==> Prepared(now, steps, n, s.drafts[call].token, s.drafts[call].row))
    && (forall i :: 0 <= i < |s.history| && s.history[i].Stored? ==>
          Prepared(now, steps, n, s.history[i].token, s.history[i].row))
  }

  lemma {:induction false} RunSnoc(s: State, steps: seq<Step>, n: nat)
    requires n < |steps|
    ensures Run(s, steps[..n + 1]) == Apply(Run(s, steps[..n]), steps[n])
    decreases n
  {
    if n == 0 {
      assert steps[..1][1..] == [];
    } else {
      assert steps[..n + 1][1..] == steps[1..][..n] && steps[..n][1..] == steps[1..][..n - 1];
      RunSnoc(Apply(s, steps[0]), steps[1..], n - 1);
    }
  }

  lemma PreparedLonger(now: int, steps: seq<Step>, n: nat, token: string, row: Row)
    requires Prepared(now, steps, n, token, row)
    ensures Prepared(now, steps, n + 1, token, row)
  {
    var k :| 0 <= k < n && PreparedAt(now, steps, k, token, row);
    assert 0 <= k < n + 1 && PreparedAt(now, steps, k, token, row);
  }

  lemma DraftsSourced(now: int, steps: seq<Step>, n: nat, s: State)
    requires n < |steps| && s == Run(Start(now), steps[..n]) && Sourced(now, steps, n, s)
    ensures var s' := Apply(s, steps[n]);
      forall call :: call in s'.drafts ==> Prepared(now, steps, n + 1, s'.drafts[call].token, s'.drafts[call].row)
  {
    var step, s' := steps[n], Apply(s, steps[n]);
    forall call | call in s'.drafts ensures Prepared(now, steps, n + 1, s'.drafts[call].token, s'.drafts[call].row) {
      if step.Prepare? && step.call == call {
        assert PreparedAt(now, steps, n, step.token, s'.drafts[call].row);
      } else {
        PreparedLonger(now, steps, n, s.drafts[call].token, s.drafts[call].row);
      }
    }
  }

  lemma HistorySourced(now: int, steps: seq<Step>, n: nat, s: State)
    requires n < |steps| && Sourced(now, steps, n, s)
    ensures var s' := Apply(s, steps[n]);
      forall i :: 0 <= i < |s'.history| && s'.history[i].Stored? ==>
        Prepared(now, steps, n + 1, s'.history[i].token, s'.history[i].row)
  {
    var step, s' := steps[n], Apply(s, steps[n]);
    forall i | 0 <= i < |s'.history| && s'.history[i].Stored?
      ensures Prepared(now, steps, n + 1, s'.history[i].token, s'.history[i].row)
    {
      if i < |s.history| {
        assert s'.history[i] == s.history[i];
        PreparedLonger(now, steps, n, s.history[i].token, s.history[i].row);
      } else {
        PreparedLonger(now, steps, n, s.drafts[step.call].token, s.drafts[step.call].row);
      }
    }
  }

  lemma SourcedStep(now: int, steps: seq<Step>, n: nat, s: State)
    requires n < |steps| && s == Run(Start(now), steps[..n]) && Sourced(now, steps, n, s)
    ensures Sourced(now, steps, n + 1, Apply(s, steps[n]))
  {
    DraftsSourced(now, steps, n, s);
    HistorySourced(now, steps, n, s);
  }

  lemma {:induction false} RunSourced(now: int, steps: seq<Step>, n: nat)
    requires n <= |steps|
    ensures Sourced(now, steps, n, Run(Start(now), steps[..n]))
  {
    if n == 0 {
    } else {
      RunSourced(now, steps, n - 1);
      SourcedStep(now, steps, n - 1, Run(Start(now), steps[..n - 1]));
      RunSnoc(Start(now), steps, n - 1);
    }
  }

  /** In every interleaving, what a retrieval hands out are the ciphertext and nonce of some request to store
      under its token, and if that request asked for an expiry, not yet so many seconds have passed. */
  lemma EveryDeliveryIsInTime(now: int, steps: seq<Step>, i: nat)
    requires i < |Run(Start(now), steps).history|
    ensures var h := Run(Start(now), steps).history;
      h[i].Taken? ==>
        exists k ::
          && 0 <= k < |steps| && steps[k].Prepare? && steps[k].token == h[i].token
          && steps[k].input.ciphertext == h[i].row.ciphertext && steps[k].input.nonce == h[i].row.nonce
          && (steps[k].input.expiresIn <= 0 ||
              h[i].at < Run(Start(now), steps[..k]).now + ToInt64(steps[k].input.expiresIn * 1_000_000_000))
  {
    var h := Run(Start(now), steps).history;
    if h[i].Taken? {
      EveryDeliveryIsDue(now, steps, i);
      var j: nat :| Delivers(h, j, i);
      RunSourced(now, steps, |steps|);
      assert steps[..|steps|] == steps;
      assert Prepared(now, steps, |steps|, h[j].token, h[j].row);
      var k :| 0 <= k < |steps| && PreparedAt(now, steps, k, h[j].token, h[j].row);
    }
  }

  lemma StartInv(now: int)
    ensures Inv(Start(now))
  {
    forall kind ensures Balanced(Start(now), kind) {
    }
  }

  /** No store is delivered twice. */
  lemma DeliveredOnce(h: seq<Entry>, j: nat, i: nat, i': nat)
    requires Delivers(h, j, i) && Delivers(h, j, i')
    ensures i == i'
  {
    assert i < i' ==> Mentions(h[i], h[i'].token);
    assert i' < i ==> Mentions(h[i'], h[i].token);
  }

  function Stores(h: seq<Entry>, token: string): nat {
    if h == [] then 0
    else Stores(h[..|h| - 1], token) + (if h[|h| - 1].Stored? && h[|h| - 1].token == token then 1 else 0)
  }

  function Takes(h: seq<Entry>, token: string): nat {
    if h == [] then 0
    else Takes(h[..|h| - 1], token) + (if h[|h| - 1].Taken? && h[|h| - 1].token == token then 1 else 0)
  }

  function Purges(h: seq<Entry>, token: string): nat {
    if h == [] then 0
    else Purges(h[..|h| - 1], token) + (if h[|h| - 1].Purged? && token in h[|h| - 1].rows then 1 else 0)
  }

  lemma {:induction false} LawfulBalance(h: seq<Entry>, now: int, token: string)
    requires Lawful(h, now)
    ensures Stores(h, token) == Takes(h, token) + Purges(h, token) + (if token in Live(h) then 1 else 0)
    decreases |h|
  {
    if h == [] {
    } else {
      LawfulBalance(h[..|h| - 1], h[|h| - 1].at, token);
    }
  }

  /** In every interleaving each token is stored as often as it is retrieved or purged, and once more
      while it is live: retrievals never outnumber stores. */
  lemma TokenBalance(now: int, steps: seq<Step>, token: string)
    ensures var s := Run(Start(now), steps);
      Stores(s.history, token)
      == Takes(s.history, token) + Purges(s.history, token) + (if token in s.table then 1 else 0)
  {
    StartInv(now);
    RunKeeps(Start(now), steps);
    LawfulBalance(Run(Start(now), steps).history, Run(Start(now), steps).now, token);
  }

  /** Cleanup takes only rows past their expiry: never one that could be retrieved, now or later, and
      never one without an expiry. */
  lemma CleanupTakesOnlyExpired(s: State, ok: bool, token: string)
    requires token in s.table && token !in Apply(s, RunPurge(ok)).table
    ensures s.table[token].expiresAt.Some? && s.table[token].expiresAt.value < s.now
    ensures forall later :: s.now <= later ==> Take(s.table, token, later).1 == None
  {
  }

  /** A secret that nobody retrieves stays, untouched, while it has not expired. */
  lemma {:induction false} StaysUntilTaken(s: State, steps: seq<Step>, token: string)
    requires token in s.table
    requires s.table[token].expiresAt == None || Run(s, steps).now < s.table[token].expiresAt.value
    requires forall step :: step in steps ==> !(step.RunTake? && step.token == token && step.ok)
    ensures s.now <= Run(s, steps).now
    ensures token in Run(s, steps).table && Run(s, steps).table[token] == s.table[token]
    decreases |steps|
  {
    ClockRuns(s, steps);
    if steps == [] {
    } else {
      assert steps[0] in steps && forall step :: step in steps[1..] ==> step in steps;
      ClockRuns(Apply(s, steps[0]), steps[1..]);
      StaysUntilTaken(Apply(s, steps[0]), steps[1..], token);
    }
  }

  lemma {:induction false} ClockRuns(s: State, steps: seq<Step>)
    ensures s.now <= Run(s, steps).now
    decreases |steps|
  {
    if steps == [] {
    } else {
      ClockRuns(Apply(s, steps[0]), steps[1..]);
    }
  }

  // ----- conservation -----

  lemma AddedOne(t: Table, token: string, row: Row)
    requires token !in t
    ensures |t[token := row]| == |t| + 1
  {
    var u := t[token := row];
    assert |u| == |u.Keys| && u.Keys == t.Keys + {token} && |t| == |t.Keys|;
  }

  lemma Dropped(t: Table, tokens: set<string>)
    requires tokens <= t.Keys
    ensures |t - tokens| == |t| - |tokens|
  {
    var u := t - tokens;
    assert |u| == |u.Keys| && u.Keys == t.Keys - tokens && |t| == |t.Keys|;
  }

  lemma {:induction false} LiveCount(h: seq<Entry>, now: int)
    requires Lawful(h, now)
    ensures Total(h, Created) == |Live(h)| + Total(h, Retrieved) + Total(h, Expired)
    decreases |h|
  {
    if h == [] {
    } else {
      var init, e := h[..|h| - 1], h[|h| - 1];
      LiveCount(init, e.at);
      var t := Live(init);
      match e
      case Stored(token, row, _) => AddedOne(t, token, row);
      case Taken(token, _, _) => Dropped(t, {token});
      case Purged(rows, _) =>
        Dropped(t, rows.Keys);
        assert |rows.Keys| == |rows|;
    }
  }

  /** querySecretStats: the totals the admin page shows. */
  function Stats(events: seq<Event>): (nat, nat, nat) {
    (Sum(events, Created), Sum(events, Retrieved), Sum(events, Expired))
  }

  /** At every reachable state the secrets stored are those live, retrieved or expired; and each counter
      shown is the true count less the rows lost or still to be written. */
  lemma LedgerConserved(now: int, steps: seq<Step>)
    ensures var s := Run(Start(now), steps);
      && Total(s.history, Created) == |s.table| + Total(s.history, Retrieved) + Total(s.history, Expired)
      && (forall kind :: Sum(s.events, kind) <= Total(s.history, kind))
      && (s.pending == [] && s.lost == [] ==>
            Stats(s.events) == (Total(s.history, Created), Total(s.history, Retrieved), Total(s.history, Expired)))
  {
    StartInv(now);
    RunKeeps(Start(now), steps);
    InvConserves(Run(Start(now), steps));
  }

  lemma InvConserves(s: State)
    requires Inv(s)
    ensures Total(s.history, Created) == |s.table| + Total(s.history, Retrieved) + Total(s.history, Expired)
    ensures forall kind :: Sum(s.events, kind) <= Total(s.history, kind)
    ensures s.pending == [] && s.lost == [] ==> forall kind :: Sum(s.events, kind) == Total(s.history, kind)
  {
    LiveCount(s.history, s.now);
    forall kind ensures Sum(s.events, kind) <= Total(s.history, kind)
                && (s.pending == [] && s.lost == [] ==> Sum(s.events, kind) == Total(s.history, kind)) {
      assert Balanced(s, kind);
    }
  }
}

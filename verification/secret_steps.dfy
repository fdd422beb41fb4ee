/** The repository's methods are the steps of the lifecycle. */
module SecretSteps {
  import opened SecretLifecycle
  import opened SecretStore
  import opened Wrappers

  /** The two tables of the repository are those of the state, and no event row is pending. */
  ghost predicate Shows(repo: SecretRepository, s: State)
    reads repo
  {
    repo.secrets == s.table && repo.events == s.events && s.pending == []
  }

  lemma RunOne(s: State, a: Step)
    ensures Run(s, [a]) == Apply(s, a)
  {
    assert [a][1..] == [];
  }

  lemma RunTwo(s: State, a: Step, b: Step)
    ensures Run(s, [a, b]) == Apply(Apply(s, a), b)
  {
    assert [a, b][1..] == [b];
    RunOne(Apply(s, a), b);
  }

  lemma RunThree(s: State, a: Step, b: Step, c: Step)
    ensures Run(s, [a, b, c]) == Apply(Apply(Apply(s, a), b), c)
  {
    assert [a, b, c][1..] == [b, c];
    RunTwo(Apply(s, a), b, c);
  }

  method StoreIsSteps(repo: SecretRepository, ghost s: State, ghost call: nat, token: string, input: Input, now: int,
      ok: bool, eventOk: bool)
    returns (r: Result<(), Error>, ghost s': State)
    requires Shows(repo, s) && now == s.now
    modifies repo
    ensures s' == Run(s, [Prepare(call, token, input), RunInsert(call, ok), WriteEvent(0, eventOk)])
    ensures Shows(repo, s')
    ensures s'.history == s.history + (if r.Ok? then [Stored(token, NewRow(input, now), now)] else [])
  {
    ghost var a, b, c := Prepare(call, token, input), RunInsert(call, ok), WriteEvent(0, eventOk);
    RunThree(s, a, b, c);
    s' := Run(s, [a, b, c]);
    r := repo.Store(token, input, now, ok, eventOk);
  }

  method FetchIsSteps(repo: SecretRepository, ghost s: State, token: string, now: int, ok: bool, eventOk: bool)
    returns (r: Result<Row, Error>, ghost s': State)
    requires Shows(repo, s) && now == s.now
    modifies repo
    ensures s' == Run(s, [RunTake(token, ok), WriteEvent(0, eventOk)])
    ensures Shows(repo, s')
    ensures s'.history == s.history + (if r.Ok? then [Taken(token, r.value, now)] else [])
  {
    RunTwo(s, RunTake(token, ok), WriteEvent(0, eventOk));
    s' := Run(s, [RunTake(token, ok), WriteEvent(0, eventOk)]);
    r := repo.FetchAndDelete(token, now, ok, eventOk);
  }

  lemma PurgeSteps(s: State, ok: bool, eventOk: bool)
    requires s.pending == []
    ensures var s' := Run(s, [RunPurge(ok), WriteEvent(0, eventOk)]);
      var stale := if ok then Stale(s.table, s.now) else map[];
      var written := if stale == map[] then [] else [Event(Expired, |stale|)];
      && s'.table == s.table - stale.Keys && s'.pending == [] && s'.now == s.now
      && s'.events == s.events + (if eventOk then written else [])
      && s'.history == s.history + (if stale == map[] then [] else [Purged(stale, s.now)])
  {
    RunTwo(s, RunPurge(ok), WriteEvent(0, eventOk));
  }

  method CleanupIsSteps(repo: SecretRepository, ghost s: State, now: int, ok: bool, eventOk: bool)
    returns (r: Result<nat, Error>, ghost s': State)
    requires Shows(repo, s) && now == s.now
    modifies repo
    ensures s' == Run(s, [RunPurge(ok), WriteEvent(0, eventOk)])
    ensures Shows(repo, s')
    ensures s'.history == s.history + (if r.Ok? && r.value > 0 then [Purged(Stale(s.table, now), now)] else [])
  {
    PurgeSteps(s, ok, eventOk);
    s' := Run(s, [RunPurge(ok), WriteEvent(0, eventOk)]);
    r := repo.CleanupExpired(now, ok, eventOk);
  }
}

/** A request that asks as soon as it has found: the limiter of separate steps is then the limiter of whole
    requests. */
module LimiterRefines {
  import opened TokenBucket
  import Delay = LimiterDelay
  import Runs = LimiterRuns

  /** The lookup and the ask of each request, one directly after the other. */
  function Split(events: seq<Runs.Event>, call: nat): seq<Delay.Event>
    decreases |events|
  {
    if events == [] then []
    else
      match events[0]
      case Request(at, ip) => [Delay.Find(at, call, ip), Delay.Ask(at, call)] + Split(events[1..], call + 1)
      case Tick(at) => [Delay.Sweep(at)] + Split(events[1..], call)
  }

  /** The outcomes of the separate steps. */
  function Expand(outcomes: seq<Runs.Outcome>): seq<Delay.Outcome> {
    if outcomes == [] then []
    else
      match outcomes[0]
      case Admit => [Delay.Silent, Delay.Admit] + Expand(outcomes[1..])
      case Refuse => [Delay.Silent, Delay.Refuse] + Expand(outcomes[1..])
      case Swept => [Delay.Silent] + Expand(outcomes[1..])
  }

  function TableOf(s: Delay.State): Runs.Table {
    map ip | ip in s.slots && s.slots[ip].id < |s.heap| :: Runs.Entry(s.heap[s.slots[ip].id], s.slots[ip].lastSeen)
  }

  /** Between requests: nobody waits, every slot has its bucket, and no bucket two slots. */
  ghost predicate Quiet(s: Delay.State) {
    s.calls == map[] && (forall ip :: ip in s.slots ==> s.slots[ip].id < |s.heap|) && Delay.Unshared(s)
  }

  /** Right after a lookup, between it and its ask. */
  ghost predicate Holds(s: Delay.State, call: nat, ip: string) {
    && s.calls.Keys == {call} && s.calls[call].ip == ip && ip in s.slots && s.calls[call].id == s.slots[ip].id
    && (forall jp :: jp in s.slots ==> s.slots[jp].id < |s.heap|) && Delay.Unshared(s)
  }

  lemma FindHolds(c: Tier, s: Delay.State, at: nat, call: nat, ip: string)
    requires Quiet(s)
    ensures Holds(Delay.FindStep(c, s, at, call, ip), call, ip)
  {
    var s' := Delay.FindStep(c, s, at, call, ip);
    forall jp | jp in s'.slots ensures s'.slots[jp].id < |s'.heap| && (jp != ip ==> s'.slots[jp] == s.slots[jp]) {
    }
    forall jp, kp | jp in s'.slots && kp in s'.slots && s'.slots[jp].id == s'.slots[kp].id ensures jp == kp {
      assert jp != ip ==> s.slots[jp].id < |s.heap|;
      assert kp != ip ==> s.slots[kp].id < |s.heap|;
    }
  }

  /** What the table has for one address. */
  lemma TableAt(s: Delay.State, ip: string)
    requires Quiet(s) || (forall jp :: jp in s.slots ==> s.slots[jp].id < |s.heap|)
    ensures ip in TableOf(s) <==> ip in s.slots
    ensures ip in s.slots ==> TableOf(s)[ip] == Runs.Entry(s.heap[s.slots[ip].id], s.slots[ip].lastSeen)
  {
  }

  lemma FindLooksUp(c: Tier, s: Delay.State, at: nat, call: nat, ip: string)
    requires Quiet(s)
    ensures TableOf(Delay.FindStep(c, s, at, call, ip)) == Runs.Lookup(c, TableOf(s), ip, at)
  {
    var s' := Delay.FindStep(c, s, at, call, ip);
    var t, t' := Runs.Lookup(c, TableOf(s), ip, at), TableOf(s');
    FindHolds(c, s, at, call, ip);
    forall jp ensures (jp in t' <==> jp in t) && (jp in t ==> t'[jp] == t[jp]) {
      TableAt(s, jp);
      TableAt(s', jp);
    }
  }

  lemma AskTakes(c: Tier, s: Delay.State, at: nat, call: nat, ip: string)
    requires Holds(s, call, ip)
    ensures var (s', o) := Delay.AskStep(c, s, at, call);
      var entry := TableOf(s)[ip];
      var (b, ok) := Take(c, entry.bucket, at);
      && Quiet(s') && TableOf(s') == TableOf(s)[ip := Runs.Entry(b, entry.lastSeen)]
      && o == if ok then Delay.Admit else Delay.Refuse
  {
    var s' := Delay.AskStep(c, s, at, call).0;
    assert s'.calls == map[];
    assert s'.slots == s.slots && |s'.heap| == |s.heap|;
  }

  lemma FindThenAsk(c: Tier, s: Delay.State, at: nat, call: nat, ip: string)
    requires Quiet(s)
    ensures var (s', o) := Delay.AskStep(c, Delay.FindStep(c, s, at, call, ip), at, call);
      var (t', ok) := Runs.Serve(c, TableOf(s), ip, at);
      Quiet(s') && TableOf(s') == t' && o == if ok then Delay.Admit else Delay.Refuse
  {
    FindHolds(c, s, at, call, ip);
    FindLooksUp(c, s, at, call, ip);
    AskTakes(c, Delay.FindStep(c, s, at, call, ip), at, call, ip);
  }

  lemma SweepEvicts(s: Delay.State, at: nat)
    requires Quiet(s)
    ensures Quiet(Delay.SweepStep(s, at)) && TableOf(Delay.SweepStep(s, at)) == Runs.Evict(TableOf(s), at)
  {
  }

  lemma RunOne(c: Tier, evicting: bool, s: Delay.State, a: Delay.Event, rest: seq<Delay.Event>)
    ensures var (s1, o1) := Delay.Step(c, evicting, s, a);
      && Delay.Run(c, evicting, s, [a] + rest) == [o1] + Delay.Run(c, evicting, s1, rest)
      && Delay.After(c, evicting, s, [a] + rest) == Delay.After(c, evicting, s1, rest)
  {
    assert ([a] + rest)[1..] == rest;
  }

  lemma RunTwo(c: Tier, evicting: bool, s: Delay.State, a: Delay.Event, b: Delay.Event, rest: seq<Delay.Event>)
    ensures var (s1, o1) := Delay.Step(c, evicting, s, a);
      var (s2, o2) := Delay.Step(c, evicting, s1, b);
      && Delay.Run(c, evicting, s, [a, b] + rest) == [o1, o2] + Delay.Run(c, evicting, s2, rest)
      && Delay.After(c, evicting, s, [a, b] + rest) == Delay.After(c, evicting, s2, rest)
  {
    assert [a, b] + rest == [a] + ([b] + rest);
    RunOne(c, evicting, s, a, [b] + rest);
    RunOne(c, evicting, Delay.Step(c, evicting, s, a).0, b, rest);
  }

  lemma ExpandCons(o: Runs.Outcome, rest: seq<Runs.Outcome>)
    ensures Expand([o] + rest) ==
      (match o
       case Admit => [Delay.Silent, Delay.Admit]
       case Refuse => [Delay.Silent, Delay.Refuse]
       case Swept => [Delay.Silent]) + Expand(rest)
  {
    assert ([o] + rest)[1..] == rest;
  }

  /** With or without eviction, in every run: the same decisions, and the same table in the end. */
  lemma {:induction false} SplitRunsAlike(c: Tier, evicting: bool, s: Delay.State, events: seq<Runs.Event>, call: nat)
    requires Quiet(s)
    ensures Delay.Run(c, evicting, s, Split(events, call)) == Expand(Runs.Run(c, evicting, TableOf(s), events))
    ensures TableOf(Delay.After(c, evicting, s, Split(events, call))) == Runs.After(c, evicting, TableOf(s), events)
    decreases |events|
  {
    if events == [] {
    } else {
      var e := events[0];
      var (t', o) := Runs.Step(c, evicting, TableOf(s), e);
      ExpandCons(o, Runs.Run(c, evicting, t', events[1..]));
      match e
      case Request(at, ip) =>
        var s' := Delay.AskStep(c, Delay.FindStep(c, s, at, call, ip), at, call).0;
        FindThenAsk(c, s, at, call, ip);
        RunTwo(c, evicting, s, Delay.Find(at, call, ip), Delay.Ask(at, call), Split(events[1..], call + 1));
        SplitRunsAlike(c, evicting, s', events[1..], call + 1);
      case Tick(at) =>
        var s' := if evicting then Delay.SweepStep(s, at) else s;
        SweepEvicts(s, at);
        RunOne(c, evicting, s, Delay.Sweep(at), Split(events[1..], call));
        SplitRunsAlike(c, evicting, s', events[1..], call);
    }
  }

  /** A sweep, with any requests waiting, leaves exactly the slots looked up within ten minutes, and touches
      nothing else. */
  lemma SweepExactly(s: Delay.State, at: nat)
    ensures var s' := Delay.SweepStep(s, at);
      && s'.heap == s.heap && s'.calls == s.calls
      && (forall ip :: ip in s'.slots <==> ip in s.slots && at <= s.slots[ip].lastSeen + 600 * 1_000_000_000)
      && (forall ip :: ip in s'.slots ==> s'.slots[ip] == s.slots[ip])
  {
  }
}

/** Whole runs of the per-address limiter: requests from any addresses interleaved with cleanup ticks. */
module LimiterRuns {
  import opened TokenBucket

  /** A map entry: the bucket and the time of its latest lookup. */
  datatype Entry = Entry(bucket: Bucket, lastSeen: nat)

  type Table = map<string, Entry>

  datatype Event = Request(at: nat, ip: string) | Tick(at: nat)
  datatype Outcome = Admit | Refuse | Swept

  /** getLimiter: create a full bucket for an unknown address, and stamp the entry. */
  function Lookup(c: Tier, s: Table, ip: string, now: nat): Table {
    s[ip := Entry(if ip in s then s[ip].bucket else Fresh(c), now)]
  }

  /** One pass of cleanup: keep the entries looked up within the idle time. */
  function Evict(s: Table, now: nat): Table {
    map ip | ip in s && now <= s[ip].lastSeen + IDLE :: s[ip]
  }

  /** One request: look the bucket up, then ask it. */
  function Serve(c: Tier, s: Table, ip: string, now: nat): (Table, bool) {
    var found := Lookup(c, s, ip, now);
    var (b, ok) := Take(c, found[ip].bucket, now);
    (found[ip := Entry(b, now)], ok)
  }

  /** `evicting` is the program; without it nobody is ever forgotten. */
  function Step(c: Tier, evicting: bool, s: Table, e: Event): (Table, Outcome) {
    match e
    case Request(at, ip) =>
      var (s', ok) := Serve(c, s, ip, at);
      (s', if ok then Admit else Refuse)
    case Tick(at) => (if evicting then Evict(s, at) else s, Swept)
  }

  function Run(c: Tier, evicting: bool, s: Table, events: seq<Event>): seq<Outcome>
    decreases |events|
  {
    if events == [] then []
    else
      var (s', o) := Step(c, evicting, s, events[0]);
      [o] + Run(c, evicting, s', events[1..])
  }

  function After(c: Tier, evicting: bool, s: Table, events: seq<Event>): Table
    decreases |events|
  {
    if events == [] then s else After(c, evicting, Step(c, evicting, s, events[0]).0, events[1..])
  }

  /** The clock never goes back. */
  ghost predicate Timely(events: seq<Event>, from: nat) {
    events == [] || (from <= events[0].at && Timely(events[1..], events[0].at))
  }

  /** The arithmetic that makes forgetting harmless: an entry idle past the cutoff has had time to fill. */
  ghost predicate FillsWhileIdle(c: Tier) {
    c.Full() <= c.Accrued(IDLE + 1)
  }

  // ----- the state invariant -----

  function LevelOf(c: Tier, s: Table, ip: string, now: nat): nat {
    if ip in s then Level(c, s[ip].bucket, now) else c.Full()
  }

  ghost predicate Tidy(s: Table, now: nat) {
    forall ip :: ip in s ==> s[ip].bucket.last <= s[ip].lastSeen <= now
  }

  ghost predicate Agree(c: Tier, s: Table, u: Table, now: nat) {
    forall ip :: LevelOf(c, s, ip, now) == LevelOf(c, u, ip, now)
  }

  lemma LevelOfLater(c: Tier, s: Table, ip: string, now: nat, at: nat)
    requires Tidy(s, now) && now <= at
    ensures LevelOf(c, s, ip, at) == Min(c.Full(), LevelOf(c, s, ip, now) + c.Accrued(at - now))
  {
    if ip in s {
      LevelLater(c, s[ip].bucket, now, at);
    }
  }

  lemma AgreeLater(c: Tier, s: Table, u: Table, now: nat, at: nat)
    requires Tidy(s, now) && Tidy(u, now) && Agree(c, s, u, now) && now <= at
    ensures Agree(c, s, u, at)
  {
    forall ip ensures LevelOf(c, s, ip, at) == LevelOf(c, u, ip, at) {
      LevelOfLater(c, s, ip, now, at);
      LevelOfLater(c, u, ip, now, at);
      assert LevelOf(c, s, ip, now) == LevelOf(c, u, ip, now);
    }
  }

  /** A request sees and changes only the level of its own address. */
  lemma ServeLevels(c: Tier, s: Table, ip: string, now: nat)
    requires Tidy(s, now)
    ensures var (s', ok) := Serve(c, s, ip, now);
      && Tidy(s', now)
      && (ok <==> TOKEN <= LevelOf(c, s, ip, now))
      && LevelOf(c, s', ip, now) == LevelOf(c, s, ip, now) - (if ok then TOKEN else 0)
      && forall other :: other != ip ==> LevelOf(c, s', other, now) == LevelOf(c, s, other, now)
  {
    TakeLevel(c, Lookup(c, s, ip, now)[ip].bucket, now);
  }

  /** A sweep changes no level when idle buckets have filled. */
  lemma EvictLevels(c: Tier, s: Table, now: nat)
    requires Tidy(s, now) && FillsWhileIdle(c)
    ensures Tidy(Evict(s, now), now) && Agree(c, Evict(s, now), s, now)
  {
    forall ip ensures LevelOf(c, Evict(s, now), ip, now) == LevelOf(c, s, ip, now) {
      if ip in s && ip !in Evict(s, now) {
        AccruedAdds(c, IDLE + 1, now - s[ip].bucket.last);
      }
    }
  }

  lemma StepAgrees(c: Tier, s: Table, u: Table, e: Event, now: nat)
    requires FillsWhileIdle(c)
    requires Tidy(s, now) && Tidy(u, now) && Agree(c, s, u, now) && now <= e.at
    ensures var (s', o) := Step(c, true, s, e);
      var (u', p) := Step(c, false, u, e);
      o == p && Tidy(s', e.at) && Tidy(u', e.at) && Agree(c, s', u', e.at)
  {
    AgreeLater(c, s, u, now, e.at);
    match e
    case Request(at, ip) =>
      ServeLevels(c, s, ip, at);
      ServeLevels(c, u, ip, at);
      var s', u' := Serve(c, s, ip, at).0, Serve(c, u, ip, at).0;
      assert LevelOf(c, s, ip, at) == LevelOf(c, u, ip, at);
      forall other ensures LevelOf(c, s', other, at) == LevelOf(c, u', other, at) {
        assert LevelOf(c, s, other, at) == LevelOf(c, u, other, at);
      }
    case Tick(at) =>
      EvictLevels(c, s, at);
      forall ip ensures LevelOf(c, Evict(s, at), ip, at) == LevelOf(c, u, ip, at) {
        assert LevelOf(c, Evict(s, at), ip, at) == LevelOf(c, s, ip, at) == LevelOf(c, u, ip, at);
      }
  }

  lemma {:induction false} AgreeingTablesRunAlike(c: Tier, s: Table, u: Table, events: seq<Event>, now: nat)
    requires FillsWhileIdle(c)
    requires Tidy(s, now) && Tidy(u, now) && Agree(c, s, u, now) && Timely(events, now)
    ensures Run(c, true, s, events) == Run(c, false, u, events)
    decreases |events|
  {
    if events == [] {
    } else {
      StepAgrees(c, s, u, events[0], now);
      AgreeingTablesRunAlike(c, Step(c, true, s, events[0]).0, Step(c, false, u, events[0]).0,
                             events[1..], events[0].at);
    }
  }

  // ----- eviction is invisible, exactly when idle buckets fill -----

  ghost predicate EvictionInvisible(c: Tier) {
    forall events :: Timely(events, 0) ==> Run(c, true, map[], events) == Run(c, false, map[], events)
  }

  /** For every tier, the evicting limiter decides every run as the never-forgetting one does
      if and only if a bucket fills within the idle cutoff. */
  lemma EvictionInvisibleExactly(c: Tier)
    ensures EvictionInvisible(c) <==> FillsWhileIdle(c)
  {
    if FillsWhileIdle(c) {
      forall events | Timely(events, 0) ensures Run(c, true, map[], events) == Run(c, false, map[], events) {
        AgreeingTablesRunAlike(c, map[], map[], events, 0);
      }
    } else {
      EvictionShows(c, "a");
      assert Timely(DrainTwice(c, "a"), 0);
    }
  }

  /** In the terms of the configuration: burst up to ten times the rate is enough, for the wired bursts
      5, 10 and 3 at every enabled rate; and at any real rate one more is too many. */
  lemma BurstCondition(c: Tier)
    ensures c.burst <= 10 * c.perMinute ==> FillsWhileIdle(c)
    ensures c.perMinute >= 1 && c.burst in {5, 10, 3} ==> FillsWhileIdle(c)
    ensures c.perMinute < TOKEN && 10 * c.perMinute < c.burst ==> !FillsWhileIdle(c)
  {
    assert c.Accrued(IDLE + 1) == c.perMinute * IDLE + c.perMinute;
  }

  // ----- the run that tells them apart: drain, wait past the cutoff, drain again -----

  function Volley(at: nat, ip: string, n: nat): seq<Event> {
    if n == 0 then [] else [Request(at, ip)] + Volley(at, ip, n - 1)
  }

  function DrainTwice(c: Tier, ip: string): seq<Event> {
    Volley(0, ip, c.burst) + ([Tick(IDLE + 1)] + Volley(IDLE + 1, ip, c.burst))
  }

  ghost predicate AllAdmitted(outcomes: seq<Outcome>) {
    forall i :: 0 <= i < |outcomes| ==> outcomes[i] == Admit
  }

  lemma AllAdmittedCons(o: Outcome, rest: seq<Outcome>)
    ensures AllAdmitted([o] + rest) <==> o == Admit && AllAdmitted(rest)
  {
    assert ([o] + rest)[0] == o;
    assert forall i :: 0 <= i < |rest| ==> rest[i] == ([o] + rest)[i + 1];
  }

  lemma VolleyCons(c: Tier, evicting: bool, s: Table, ip: string, at: nat, n: nat)
    requires n > 0
    ensures var (s', ok) := Serve(c, s, ip, at);
      && Run(c, evicting, s, Volley(at, ip, n))
         == [if ok then Admit else Refuse] + Run(c, evicting, s', Volley(at, ip, n - 1))
      && After(c, evicting, s, Volley(at, ip, n)) == After(c, evicting, s', Volley(at, ip, n - 1))
  {
    assert Volley(at, ip, n)[1..] == Volley(at, ip, n - 1);
  }

  /** A volley is admitted whole exactly when the bucket holds that many tokens. */
  lemma {:induction false} VolleyAdmitted(c: Tier, evicting: bool, s: Table, ip: string, at: nat, n: nat)
    requires Tidy(s, at)
    ensures AllAdmitted(Run(c, evicting, s, Volley(at, ip, n))) <==> n * TOKEN <= LevelOf(c, s, ip, at)
    ensures var s' := After(c, evicting, s, Volley(at, ip, n));
      && Tidy(s', at)
      && (n > 0 ==> ip in s' && s'[ip].lastSeen == at)
      && (n * TOKEN <= LevelOf(c, s, ip, at) ==> LevelOf(c, s', ip, at) == LevelOf(c, s, ip, at) - n * TOKEN)
    decreases n
  {
    if n == 0 {
    } else {
      var (s', ok) := Serve(c, s, ip, at);
      ServeLevels(c, s, ip, at);
      VolleyCons(c, evicting, s, ip, at, n);
      VolleyAdmitted(c, evicting, s', ip, at, n - 1);
      AllAdmittedCons(if ok then Admit else Refuse, Run(c, evicting, s', Volley(at, ip, n - 1)));
    }
  }

  lemma {:induction false} RunAppend(c: Tier, evicting: bool, s: Table, a: seq<Event>, b: seq<Event>)
    ensures Run(c, evicting, s, a + b) == Run(c, evicting, s, a) + Run(c, evicting, After(c, evicting, s, a), b)
    ensures After(c, evicting, s, a + b) == After(c, evicting, After(c, evicting, s, a), b)
    ensures |Run(c, evicting, s, a)| == |a|
    decreases |a|
  {
    if a == [] {
      assert a + b == b;
    } else {
      assert (a + b)[1..] == a[1..] + b;
      RunAppend(c, evicting, Step(c, evicting, s, a[0]).0, a[1..], b);
    }
  }

  lemma {:induction false} TimelyAppend(a: seq<Event>, b: seq<Event>, from: nat, mid: nat)
    requires Timely(a, from) && Timely(b, mid) && from <= mid
    requires forall i :: 0 <= i < |a| ==> a[i].at <= mid
    ensures Timely(a + b, from)
    decreases |a|
  {
    if a == [] {
      assert a + b == b;
    } else {
      assert (a + b)[1..] == a[1..] + b;
      TimelyAppend(a[1..], b, a[0].at, mid);
    }
  }

  lemma {:induction false} VolleyTimely(at: nat, ip: string, n: nat)
    ensures Timely(Volley(at, ip, n), at)
    ensures |Volley(at, ip, n)| == n
    ensures forall i :: 0 <= i < n ==> Volley(at, ip, n)[i] == Request(at, ip)
  {
    if n == 0 {
    } else {
      VolleyTimely(at, ip, n - 1);
      assert Volley(at, ip, n)[1..] == Volley(at, ip, n - 1);
    }
  }

  lemma Suffix(a: seq<Outcome>, b: seq<Outcome>, n: nat)
    requires |b| == n
    ensures (a + b)[|a + b| - n..] == b
  {
  }

  /** The last outcomes of a run are those of its last events, run from the table before them. */
  lemma LastOutcomes(c: Tier, evicting: bool, first: seq<Event>, e: Event, second: seq<Event>)
    ensures var whole := Run(c, evicting, map[], first + ([e] + second));
      && |second| <= |whole|
      && whole[|whole| - |second|..]
         == Run(c, evicting, Step(c, evicting, After(c, evicting, map[], first), e).0, second)
  {
    var start: Table := map[];
    var swept := Step(c, evicting, After(c, evicting, start, first), e).0;
    assert first + ([e] + second) == (first + [e]) + second;
    RunAppend(c, evicting, start, first + [e], second);
    RunAppend(c, evicting, start, first, [e]);
    RunAppend(c, evicting, swept, second, []);
    Suffix(Run(c, evicting, start, first + [e]), Run(c, evicting, swept, second), |second|);
  }

  /** How either limiter decides the last volley: from the level the wait has left. */
  lemma DrainTwiceDecides(c: Tier, evicting: bool, ip: string)
    requires c.burst > 0
    ensures var whole := Run(c, evicting, map[], DrainTwice(c, ip));
      c.burst <= |whole| && (AllAdmitted(whole[|whole| - c.burst..]) <==> evicting || FillsWhileIdle(c))
  {
    var start: Table := map[];
    var first, second := Volley(0, ip, c.burst), Volley(IDLE + 1, ip, c.burst);
    var drained := After(c, evicting, start, first);
    var swept := if evicting then Evict(drained, IDLE + 1) else drained;
    VolleyTimely(IDLE + 1, ip, c.burst);
    VolleyDrains(c, evicting, ip);
    LastOutcomes(c, evicting, first, Tick(IDLE + 1), second);
    AfterTheWait(c, evicting, drained, ip);
    VolleyAdmitted(c, evicting, swept, ip, IDLE + 1, c.burst);
  }

  lemma VolleyDrains(c: Tier, evicting: bool, ip: string)
    requires c.burst > 0
    ensures var drained := After(c, evicting, map[], Volley(0, ip, c.burst));
      Tidy(drained, 0) && ip in drained && LevelOf(c, drained, ip, 0) == 0
  {
    VolleyAdmitted(c, evicting, map[], ip, 0, c.burst);
  }

  /** What a drained address holds after the wait: what has accrued, or a fresh bucket. */
  lemma AfterTheWait(c: Tier, evicting: bool, drained: Table, ip: string)
    requires Tidy(drained, 0) && ip in drained && LevelOf(c, drained, ip, 0) == 0
    ensures var swept := if evicting then Evict(drained, IDLE + 1) else drained;
      && Tidy(swept, IDLE + 1)
      && LevelOf(c, swept, ip, IDLE + 1) == if evicting then c.Full() else Min(c.Full(), c.Accrued(IDLE + 1))
  {
    LevelOfLater(c, drained, ip, 0, IDLE + 1);
  }

  lemma EvictionShows(c: Tier, ip: string)
    requires !FillsWhileIdle(c)
    ensures Timely(DrainTwice(c, ip), 0)
    ensures Run(c, true, map[], DrainTwice(c, ip)) != Run(c, false, map[], DrainTwice(c, ip))
  {
    VolleyTimely(0, ip, c.burst);
    VolleyTimely(IDLE + 1, ip, c.burst);
    TimelyAppend(Volley(0, ip, c.burst), [Tick(IDLE + 1)] + Volley(IDLE + 1, ip, c.burst), 0, IDLE + 1);
    DrainTwiceDecides(c, true, ip);
    DrainTwiceDecides(c, false, ip);
  }

  // ----- one address at a time -----

  /** The request times of one address, and the decisions it got. */
  function TimesOf(ip: string, events: seq<Event>): seq<nat>
    decreases |events|
  {
    if events == [] then []
    else (if events[0].Request? && events[0].ip == ip then [events[0].at] else []) + TimesOf(ip, events[1..])
  }

  function DecisionsFor(ip: string, events: seq<Event>, outcomes: seq<Outcome>): seq<bool>
    requires |events| == |outcomes|
    decreases |events|
  {
    if events == [] then []
    else
      (if events[0].Request? && events[0].ip == ip then [outcomes[0] == Admit] else [])
      + DecisionsFor(ip, events[1..], outcomes[1..])
  }

  /** Whatever the other addresses do and whenever the sweeps come, an address is decided as if it had a
      bucket of its own. */
  lemma {:induction false} Isolated(c: Tier, s: Table, b: Bucket, ip: string, events: seq<Event>, now: nat)
    requires FillsWhileIdle(c) && Tidy(s, now) && Timely(events, now)
    requires b.last <= now && LevelOf(c, s, ip, now) == Level(c, b, now)
    ensures |Run(c, true, s, events)| == |events|
    ensures DecisionsFor(ip, events, Run(c, true, s, events)) == Solo(c, b, TimesOf(ip, events))
    decreases |events|
  {
    if events == [] {
    } else {
      var e := events[0];
      IsolatedStep(c, s, b, ip, e, now);
      var s', own := Step(c, true, s, e).0, e.Request? && e.ip == ip;
      Isolated(c, s', if own then Take(c, b, e.at).0 else b, ip, events[1..], e.at);
      assert Run(c, true, s, events)[1..] == Run(c, true, s', events[1..]);
      assert TimesOf(ip, events) == (if own then [e.at] else []) + TimesOf(ip, events[1..]);
      assert !own ==> TimesOf(ip, events) == TimesOf(ip, events[1..]);
    }
  }

  lemma IsolatedStep(c: Tier, s: Table, b: Bucket, ip: string, e: Event, now: nat)
    requires FillsWhileIdle(c) && Tidy(s, now) && now <= e.at
    requires b.last <= now && LevelOf(c, s, ip, now) == Level(c, b, now)
    ensures var (s', o) := Step(c, true, s, e);
      var own := e.Request? && e.ip == ip;
      var b' := if own then Take(c, b, e.at).0 else b;
      && Tidy(s', e.at) && b'.last <= e.at && LevelOf(c, s', ip, e.at) == Level(c, b', e.at)
      && (own ==> (o == Admit <==> Take(c, b, e.at).1))
  {
    LevelOfLater(c, s, ip, now, e.at);
    LevelLater(c, b, now, e.at);
    TidyLater(s, now, e.at);
    if e.Request? {
      ServeLevels(c, s, e.ip, e.at);
      TakeLevel(c, b, e.at);
      assert e.ip != ip ==> LevelOf(c, Serve(c, s, e.ip, e.at).0, ip, e.at) == LevelOf(c, s, ip, e.at);
    } else {
      EvictLevels(c, s, e.at);
      assert LevelOf(c, Evict(s, e.at), ip, e.at) == LevelOf(c, s, ip, e.at);
    }
  }

  lemma TidyLater(s: Table, now: nat, at: nat)
    requires Tidy(s, now) && now <= at
    ensures Tidy(s, at)
  {
  }

  /** The time of the event before index k. */
  function TimeBefore(events: seq<Event>, from: nat, k: nat): nat
    requires k <= |events|
  {
    if k == 0 then from else events[k - 1].at
  }

  lemma TidyStep(c: Tier, evicting: bool, s: Table, e: Event, from: nat)
    requires Tidy(s, from) && from <= e.at
    ensures Tidy(Step(c, evicting, s, e).0, e.at)
  {
    TidyLater(s, from, e.at);
    if e.Request? {
      ServeLevels(c, s, e.ip, e.at);
    }
  }

  lemma AfterCons(c: Tier, evicting: bool, s: Table, events: seq<Event>, k: nat)
    requires 0 < k <= |events|
    ensures After(c, evicting, s, events[..k])
      == After(c, evicting, Step(c, evicting, s, events[0]).0, events[1..][..k - 1])
  {
    assert events[..k][1..] == events[1..][..k - 1];
  }

  lemma {:induction false} TimelySuffix(events: seq<Event>, from: nat, k: nat)
    requires Timely(events, from) && k <= |events|
    ensures Timely(events[k..], TimeBefore(events, from, k))
    decreases k
  {
    if k == 0 {
      assert events[0..] == events;
    } else {
      assert events[1..][k - 1..] == events[k..];
      TimelySuffix(events[1..], events[0].at, k - 1);
    }
  }

  lemma {:induction false} TablesStayTidy(
    c: Tier, evicting: bool, s: Table, events: seq<Event>, from: nat, k: nat)
    requires Tidy(s, from) && Timely(events, from) && k <= |events|
    ensures Tidy(After(c, evicting, s, events[..k]), TimeBefore(events, from, k))
    decreases k
  {
    if k == 0 {
    } else {
      TidyStep(c, evicting, s, events[0], from);
      AfterCons(c, evicting, s, events, k);
      TablesStayTidy(c, evicting, Step(c, evicting, s, events[0]).0, events[1..], events[0].at, k - 1);
    }
  }

  lemma TidyAfter(c: Tier, evicting: bool, s: Table, events: seq<Event>, from: nat, k: nat)
    requires Tidy(s, from) && Timely(events, from) && k <= |events|
    ensures Tidy(After(c, evicting, s, events[..k]), TimeBefore(events, from, k))
    ensures Timely(events[k..], TimeBefore(events, from, k))
  {
    TablesStayTidy(c, evicting, s, events, from, k);
    TimelySuffix(events, from, k);
  }

  /** Every event falls in the window of time. */
  ghost predicate Within(events: seq<Event>, start: nat, end: nat) {
    events == [] || (start <= events[0].at <= end && Within(events[1..], start, end))
  }

  lemma {:induction false} TimesOfTimely(ip: string, events: seq<Event>, from: nat, start: nat, end: nat)
    requires Timely(events, from) && Within(events, start, end)
    ensures NonDecreasing(TimesOf(ip, events), from)
    ensures var times := TimesOf(ip, events); times == [] || times[|times| - 1] <= end
    decreases |events|
  {
    if events == [] {
    } else {
      TimesOfTimely(ip, events[1..], events[0].at, start, end);
      var rest := TimesOf(ip, events[1..]);
      if events[0].Request? && events[0].ip == ip {
        var times := [events[0].at] + rest;
        assert TimesOf(ip, events) == times && times[1..] == rest;
      } else {
        assert TimesOf(ip, events) == rest;
        NonDecreasingFrom(rest, from, events[0].at);
      }
    }
  }

  lemma NonDecreasingFrom(times: seq<nat>, from: nat, later: nat)
    requires NonDecreasing(times, later) && from <= later
    ensures NonDecreasing(times, from)
  {
  }

  /** In every run and every window of it, one address is admitted at most its burst plus what its rate
      allows in the window. */
  lemma AdmissionBound(c: Tier, events: seq<Event>, i: nat, j: nat, ip: string, start: nat, end: nat)
    requires FillsWhileIdle(c) && Timely(events, 0) && i <= j <= |events| && start <= end
    requires Within(events[i..j], start, end)
    ensures var outcomes := Run(c, true, map[], events);
      && |outcomes| == |events|
      && multiset(DecisionsFor(ip, events[i..j], outcomes[i..j]))[true] * TOKEN <= c.Full() + c.Accrued(end - start)
  {
    var mid := TimeBefore(events, 0, i);
    WindowRuns(c, events, i, j);
    TidyAfter(c, true, map[], events, 0, i);
    TimelyWindow(events, 0, i, j);
    WindowBound(c, After(c, true, map[], events[..i]), events[i..j], ip, mid, start, end);
    AdmittedCounts(DecisionsFor(ip, events[i..j], Run(c, true, map[], events)[i..j]));
  }

  lemma TimelyWindow(events: seq<Event>, from: nat, i: nat, j: nat)
    requires Timely(events, from) && i <= j <= |events|
    ensures Timely(events[i..j], TimeBefore(events, from, i))
  {
    TimelySuffix(events, from, i);
    TimelyPrefix(events[i..], TimeBefore(events, from, i), j - i);
    assert events[i..][..j - i] == events[i..j];
  }

  lemma ThreeParts(events: seq<Event>, i: nat, j: nat)
    requires i <= j <= |events|
    ensures events == events[..i] + (events[i..j] + events[j..])
  {
    assert events[i..] == events[i..j] + events[j..];
  }

  lemma MiddleSlice(a: seq<Outcome>, b: seq<Outcome>, c: seq<Outcome>, i: nat, j: nat)
    requires |a| == i && |b| == j - i
    ensures i <= j <= |a + (b + c)| && (a + (b + c))[i..j] == b
  {
  }

  lemma RunLength(c: Tier, evicting: bool, s: Table, events: seq<Event>)
    ensures |Run(c, evicting, s, events)| == |events|
  {
    RunAppend(c, evicting, s, events, []);
  }

  /** The outcomes in a window are those of its events, run from the table before it. */
  lemma WindowRuns(c: Tier, events: seq<Event>, i: nat, j: nat)
    requires i <= j <= |events|
    ensures var outcomes := Run(c, true, map[], events);
      |outcomes| == |events| && outcomes[i..j] == Run(c, true, After(c, true, map[], events[..i]), events[i..j])
  {
    var start: Table := map[];
    var s := After(c, true, start, events[..i]);
    var t := After(c, true, s, events[i..j]);
    ThreeParts(events, i, j);
    RunAppend(c, true, start, events[..i], events[i..j] + events[j..]);
    RunAppend(c, true, s, events[i..j], events[j..]);
    RunLength(c, true, t, events[j..]);
    MiddleSlice(Run(c, true, start, events[..i]), Run(c, true, s, events[i..j]), Run(c, true, t, events[j..]), i, j);
  }

  lemma WindowBound(c: Tier, s: Table, window: seq<Event>, ip: string, mid: nat, start: nat, end: nat)
    requires FillsWhileIdle(c) && Tidy(s, mid) && Timely(window, mid) && start <= end
    requires Within(window, start, end)
    ensures |Run(c, true, s, window)| == |window|
    ensures Admitted(DecisionsFor(ip, window, Run(c, true, s, window))) * TOKEN <= c.Full() + c.Accrued(end - start)
  {
    var b := Bucket(LevelOf(c, s, ip, mid), mid);
    Isolated(c, s, b, ip, window, mid);
    if window != [] {
      var from := if start <= mid then mid else start;
      TimesOfTimely(ip, window, from, start, end);
      SoloBound(c, b, TimesOf(ip, window), from, end);
      AccruedAdds(c, end - from, end - start);
    }
  }

  lemma {:induction false} TimelyPrefix(events: seq<Event>, from: nat, k: nat)
    requires Timely(events, from) && k <= |events|
    ensures Timely(events[..k], from)
    decreases k
  {
    if k == 0 {
    } else {
      assert events[..k][1..] == events[1..][..k - 1];
      TimelyPrefix(events[1..], events[0].at, k - 1);
    }
  }

  // ----- the advertised wait -----

  /** The whole seconds of the Retry-After header. */
  function RetryAfterSeconds(perMinute: nat): nat {
    60 / (if perMinute >= 1 then perMinute else 1)
  }

  /** A minute divided by the rate, rounded down; a rate below one counts as one. */
  lemma WaitRoundsDown(perMinute: nat)
    ensures perMinute <= 1 ==> RetryAfterSeconds(perMinute) == 60
    ensures perMinute > 1 ==>
      RetryAfterSeconds(perMinute) * perMinute <= 60 < (RetryAfterSeconds(perMinute) + 1) * perMinute
  {
    if perMinute > 1 {
      var q := 60 / perMinute;
      assert 60 == q * perMinute + 60 % perMinute;
      assert (q + 1) * perMinute == q * perMinute + perMinute;
    }
  }

  /** An address asks at index k of a run, stays silent for the advertised wait or longer, and asks again at
      the end. */
  ghost predicate Retries(c: Tier, run: seq<Event>, k: nat, ip: string) {
    && k + 1 < |run|
    && run[k] == Request(run[k].at, ip)
    && run[|run| - 1] == Request(run[|run| - 1].at, ip)
    && run[k].at + RetryAfterSeconds(c.perMinute) * SECOND <= run[|run| - 1].at
    && forall i :: k < i < |run| - 1 ==> !(run[i].Request? && run[i].ip == ip)
  }

  /** Whatever came before the refusal and whoever else came after, the second request gets in. */
  ghost predicate RetryAfterSuffices(c: Tier) {
    forall run, k: nat, ip ::
      Timely(run, 0) && Retries(c, run, k, ip) && |Run(c, true, map[], run)| == |run|
      && Run(c, true, map[], run)[k] == Refuse
      ==> Run(c, true, map[], run)[|run| - 1] == Admit
  }

  lemma AfterOneMore(c: Tier, evicting: bool, s: Table, events: seq<Event>, k: nat)
    requires k < |events|
    ensures After(c, evicting, s, events[..k + 1]) == Step(c, evicting, After(c, evicting, s, events[..k]), events[k]).0
  {
    RunAppend(c, evicting, s, events[..k], [events[k]]);
    assert events[..k + 1] == events[..k] + [events[k]];
  }

  /** Each outcome is that of its event on the table the earlier ones leave. */
  lemma {:induction false} OutcomeAt(c: Tier, evicting: bool, s: Table, events: seq<Event>, k: nat)
    requires k < |events|
    ensures |Run(c, evicting, s, events)| == |events|
    ensures Run(c, evicting, s, events)[k] == Step(c, evicting, After(c, evicting, s, events[..k]), events[k]).1
    decreases k
  {
    var s' := Step(c, evicting, s, events[0]).0;
    RunAppend(c, evicting, s', events[1..], []);
    if k == 0 {
    } else {
      assert events[..k][1..] == events[1..][..k - 1];
      OutcomeAt(c, evicting, s', events[1..], k - 1);
    }
  }

  lemma {:induction false} TimelyAt(events: seq<Event>, from: nat, k: nat)
    requires Timely(events, from) && k < |events|
    ensures TimeBefore(events, from, k) <= events[k].at
    decreases k
  {
    if k == 0 {
    } else {
      TimelyAt(events[1..], events[0].at, k - 1);
    }
  }

  /** What others do, sweeps included, takes nothing from an address. */
  lemma OthersTakeNothing(c: Tier, s: Table, e: Event, ip: string)
    requires Tidy(s, e.at) && !(e.Request? && e.ip == ip)
    ensures LevelOf(c, s, ip, e.at) <= LevelOf(c, Step(c, true, s, e).0, ip, e.at)
  {
    if e.Request? {
      ServeLevels(c, s, e.ip, e.at);
    }
  }

  lemma LevelGrows(c: Tier, start: nat, l: nat, l': nat, a: nat, b: nat, sum: nat)
    requires Min(c.Full(), start + c.Accrued(a)) <= l && Min(c.Full(), l + c.Accrued(b)) <= l' && sum == a + b
    ensures Min(c.Full(), start + c.Accrued(sum)) <= l'
  {
    AccruedAdds(c, a, b);
  }

  lemma TidyBetween(c: Tier, run: seq<Event>, j: nat)
    requires Timely(run, 0) && 0 < j < |run|
    ensures run[j - 1].at <= run[j].at && Tidy(After(c, true, map[], run[..j]), run[j - 1].at)
  {
    TidyAfter(c, true, map[], run, 0, j);
    TimelyAt(run, 0, j);
  }

  /** From one event of a run to the next. */
  lemma NextEvent(c: Tier, run: seq<Event>, j: nat, ip: string)
    requires Timely(run, 0) && 0 < j < |run|
    ensures var s, now, at := After(c, true, map[], run[..j]), run[j - 1].at, run[j].at;
      && now <= at && Tidy(s, now) && Tidy(s, at)
      && LevelOf(c, s, ip, at) == Min(c.Full(), LevelOf(c, s, ip, now) + c.Accrued(at - now))
  {
    TidyBetween(c, run, j);
    LevelOfLater(c, After(c, true, map[], run[..j]), ip, run[j - 1].at, run[j].at);
  }

  /** What a silent address holds when event j of the run comes. */
  function HeldAt(c: Tier, run: seq<Event>, j: nat, ip: string): nat
    requires j < |run|
  {
    LevelOf(c, After(c, true, map[], run[..j]), ip, run[j].at)
  }

  lemma HeldAfter(c: Tier, run: seq<Event>, j: nat, ip: string)
    requires Timely(run, 0) && j < |run| && !(run[j].Request? && run[j].ip == ip)
    ensures HeldAt(c, run, j, ip) <= LevelOf(c, After(c, true, map[], run[..j + 1]), ip, run[j].at)
  {
    TidyAfter(c, true, map[], run, 0, j);
    TimelyAt(run, 0, j);
    var s := After(c, true, map[], run[..j]);
    TidyLater(s, TimeBefore(run, 0, j), run[j].at);
    OthersTakeNothing(c, s, run[j], ip);
    AfterOneMore(c, true, map[], run, j);
  }

  lemma HeldIs(c: Tier, run: seq<Event>, j: nat, ip: string, level: nat)
    requires Timely(run, 0) && 0 < j < |run| && level == LevelOf(c, After(c, true, map[], run[..j]), ip, run[j - 1].at)
    ensures run[j - 1].at <= run[j].at
    ensures HeldAt(c, run, j, ip) == Min(c.Full(), level + c.Accrued(run[j].at - run[j - 1].at))
  {
    NextEvent(c, run, j, ip);
  }

  /** Over an event that is not the address's own, what it holds grows by what accrues. */
  lemma HeldStep(c: Tier, run: seq<Event>, j: nat, ip: string, elapsed: int)
    requires Timely(run, 0) && 0 < j < |run| && !(run[j - 1].Request? && run[j - 1].ip == ip)
    requires elapsed == run[j].at - run[j - 1].at
    ensures 0 <= elapsed
    ensures Min(c.Full(), HeldAt(c, run, j - 1, ip) + c.Accrued(elapsed)) <= HeldAt(c, run, j, ip)
  {
    HeldAfter(c, run, j - 1, ip);
    HeldIs(c, run, j, ip, LevelOf(c, After(c, true, map[], run[..j]), ip, run[j - 1].at));
  }

  /** By so much at least the address's content has grown since the end of event k. */
  ghost predicate Grown(c: Tier, run: seq<Event>, k: nat, j: nat, ip: string, elapsed: nat)
    requires k < |run| && j < |run|
  {
    Min(c.Full(), LevelOf(c, After(c, true, map[], run[..k + 1]), ip, run[k].at) + c.Accrued(elapsed))
    <= HeldAt(c, run, j, ip)
  }

  lemma GrownNext(c: Tier, run: seq<Event>, k: nat, j: nat, ip: string, before: nat, more: nat, after: nat)
    requires k < |run| && 0 < j < |run| && Grown(c, run, k, j - 1, ip, before) && after == before + more
    requires Min(c.Full(), HeldAt(c, run, j - 1, ip) + c.Accrued(more)) <= HeldAt(c, run, j, ip)
    ensures Grown(c, run, k, j, ip, after)
  {
    LevelGrows(c, LevelOf(c, After(c, true, map[], run[..k + 1]), ip, run[k].at),
               HeldAt(c, run, j - 1, ip), HeldAt(c, run, j, ip), before, more, after);
  }

  /** While an address is silent its level grows with time. */
  lemma {:induction false} SilenceFills(c: Tier, run: seq<Event>, k: nat, j: nat, ip: string, elapsed: int)
    requires Timely(run, 0) && k < j < |run| && elapsed == run[j].at - run[k].at
    requires forall i :: k < i < j ==> !(run[i].Request? && run[i].ip == ip)
    ensures 0 <= elapsed && Grown(c, run, k, j, ip, elapsed)
    decreases j
  {
    if j == k + 1 {
      HeldIs(c, run, j, ip, LevelOf(c, After(c, true, map[], run[..j]), ip, run[k].at));
    } else {
      var before, more := run[j - 1].at - run[k].at, run[j].at - run[j - 1].at;
      SilenceFills(c, run, k, j - 1, ip, before);
      HeldStep(c, run, j, ip, more);
      GrownNext(c, run, k, j, ip, before, more, elapsed);
    }
  }

  lemma RetryAdmits(c: Tier, run: seq<Event>, k: nat, ip: string)
    requires c.perMinute >= 1 && c.burst >= 1
    requires c.Accrued(RetryAfterSeconds(c.perMinute) * SECOND) == TOKEN
    requires Timely(run, 0) && Retries(c, run, k, ip)
    ensures |Run(c, true, map[], run)| == |run| && Run(c, true, map[], run)[|run| - 1] == Admit
  {
    var last := |run| - 1;
    var s := After(c, true, map[], run[..last]);
    SilenceFills(c, run, k, last, ip, run[last].at - run[k].at);
    WaitFills(c, RetryAfterSeconds(c.perMinute) * SECOND, run[last].at - run[k].at);
    NextEvent(c, run, last, ip);
    OutcomeAt(c, true, map[], run, last);
    ServeLevels(c, s, ip, run[last].at);
  }

  lemma WaitFills(c: Tier, wait: nat, elapsed: nat)
    requires c.burst >= 1 && c.Accrued(wait) == TOKEN && wait <= elapsed
    ensures TOKEN <= Min(c.Full(), c.Accrued(elapsed))
  {
    AccruedAdds(c, wait, elapsed);
  }

  /** A drained bucket asked twice, the second time after the wait. */
  function DrainAndRetry(c: Tier, ip: string): seq<Event> {
    Volley(0, ip, c.burst) + [Request(0, ip), Request(RetryAfterSeconds(c.perMinute) * SECOND, ip)]
  }

  lemma RetryRefused(c: Tier, ip: string)
    requires c.burst >= 1 && c.Accrued(RetryAfterSeconds(c.perMinute) * SECOND) < TOKEN
    ensures var run := DrainAndRetry(c, ip);
      && Timely(run, 0) && Retries(c, run, c.burst, ip) && |Run(c, true, map[], run)| == |run|
      && Run(c, true, map[], run)[c.burst] == Refuse && Run(c, true, map[], run)[|run| - 1] == Refuse
  {
    var run, wait := DrainAndRetry(c, ip), RetryAfterSeconds(c.perMinute) * SECOND;
    var drained := After(c, true, map[], Volley(0, ip, c.burst));
    VolleyTimely(0, ip, c.burst);
    TimelyAppend(Volley(0, ip, c.burst), [Request(0, ip), Request(wait, ip)], 0, 0);
    VolleyAdmitted(c, true, map[], ip, 0, c.burst);
    assert run[..c.burst] == Volley(0, ip, c.burst);
    ServeLevels(c, drained, ip, 0);
    OutcomeAt(c, true, map[], run, c.burst);
    AfterOneMore(c, true, map[], run, c.burst);
    var s := After(c, true, map[], run[..c.burst + 1]);
    LevelOfLater(c, s, ip, 0, wait);
    ServeLevels(c, s, ip, wait);
    OutcomeAt(c, true, map[], run, c.burst + 1);
  }

  lemma WaitAccrues(perMinute: nat, seconds: nat)
    requires perMinute >= 1 && seconds == 60 / perMinute
    ensures perMinute * (seconds * SECOND) == (60 - 60 % perMinute) * SECOND
  {
    assert perMinute * seconds + 60 % perMinute == 60;
  }

  /** The wait is long enough for every run if and only if the rate divides sixty: the division rounds down. */
  lemma RetryAfterSufficesExactly(c: Tier)
    requires c.perMinute >= 1 && c.burst >= 1
    ensures RetryAfterSuffices(c) <==> 60 % c.perMinute == 0
  {
    WaitAccrues(c.perMinute, 60 / c.perMinute);
    if 60 % c.perMinute == 0 {
      forall run, k: nat, ip |
        Timely(run, 0) && Retries(c, run, k, ip) && |Run(c, true, map[], run)| == |run|
        && Run(c, true, map[], run)[k] == Refuse
        ensures Run(c, true, map[], run)[|run| - 1] == Admit
      {
        RetryAdmits(c, run, k, ip);
      }
    } else {
      RetryRefused(c, "a");
    }
  }
}

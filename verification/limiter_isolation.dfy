/** What one address gets from the limiter whose lookups and asks are apart: a bucket of its own. */
module LimiterIsolation {
  import opened LimiterDelay
  import opened TokenBucket

  /** The address of every request that still waits to ask. */
  function Callers(o: map<nat, string>, e: Event): map<nat, string> {
    match e
    case Find(_, call, ip) => o[call := ip]
    case Ask(_, call) => o - {call}
    case Sweep(_) => o
  }

  predicate Own(o: map<nat, string>, e: Event, ip: string) {
    e.Ask? && e.call in o && o[e.call] == ip
  }

  /** The times at which one address asks, and the decisions it gets. */
  function AskTimes(ip: string, o: map<nat, string>, events: seq<Event>): seq<nat>
    decreases |events|
  {
    if events == [] then []
    else (if Own(o, events[0], ip) then [events[0].at] else []) + AskTimes(ip, Callers(o, events[0]), events[1..])
  }

  function Decisions(ip: string, o: map<nat, string>, events: seq<Event>, outcomes: seq<Outcome>): seq<bool>
    requires |events| == |outcomes|
    decreases |events|
  {
    if events == [] then []
    else
      (if Own(o, events[0], ip) then [outcomes[0] == Admit] else [])
      + Decisions(ip, Callers(o, events[0]), events[1..], outcomes[1..])
  }

  // ----- the state invariant -----

  ghost predicate Owned(s: State, o: map<nat, string>) {
    s.calls.Keys == o.Keys && forall call :: call in s.calls ==> s.calls[call].ip == o[call]
  }

  /** A delay past the cutoff leaves no time to fill, and then there is nothing to fill. */
  ghost predicate Arrived(c: Tier, d: nat, s: State, w: map<nat, nat>, o: map<nat, string>, now: nat) {
    && (if d <= IDLE then Attached(d, s, w, now) else c.burst == 0 && Known(s, w))
    && Owned(s, o)
  }

  ghost predicate Served(
    c: Tier, d: nat, s: State, w: map<nat, nat>, o: map<nat, string>, ip: string, b: Bucket, now: nat)
  {
    Arrived(c, d, s, w, o, now) && b.last <= now && LevelOf(c, s, ip, now) == Level(c, b, now)
  }

  /** What Punctual asks of the next event. */
  ghost predicate Due(d: nat, w: map<nat, nat>, e: Event, now: nat) {
    && now <= e.at && (forall call :: call in w ==> e.at <= w[call] + d)
    && (e.Find? ==> e.call !in w) && (e.Ask? ==> e.call in w)
  }

  lemma NoBurst(c: Tier, d: nat)
    requires FillsWhileIdle(c, d) && IDLE < d
    ensures c.burst == 0
  {
  }

  lemma NoBurstLevels(c: Tier, s: State, ip: string, b: Bucket, now: nat)
    requires c.burst == 0
    ensures LevelOf(c, s, ip, now) == 0 && Level(c, b, now) == 0
  {
  }

  lemma ServedLater(
    c: Tier, d: nat, s: State, w: map<nat, nat>, o: map<nat, string>, ip: string, b: Bucket, now: nat, at: nat)
    requires Served(c, d, s, w, o, ip, b, now) && now <= at
    ensures Served(c, d, s, w, o, ip, b, at)
  {
    if d <= IDLE {
      LevelsLater(c, d, s, w, now, at);
      LevelLater(c, b, now, at);
    } else {
      NoBurstLevels(c, s, ip, b, at);
    }
  }

  lemma FindServes(
    c: Tier, d: nat, s: State, w: map<nat, nat>, o: map<nat, string>, ip: string, b: Bucket, e: Event)
    requires e.Find? && e.call !in w && Served(c, d, s, w, o, ip, b, e.at)
    ensures Served(c, d, FindStep(c, s, e.at, e.call, e.ip), Waiting(w, e), Callers(o, e), ip, b, e.at)
  {
    var s' := FindStep(c, s, e.at, e.call, e.ip);
    if d <= IDLE {
      FindKeeps(c, d, s, w, e);
      assert LevelOf(c, s', ip, e.at) == LevelOf(c, s, ip, e.at);
    } else {
      NoBurstLevels(c, s', ip, b, e.at);
    }
  }

  lemma AskServes(
    c: Tier, d: nat, s: State, w: map<nat, nat>, o: map<nat, string>, ip: string, b: Bucket, e: Event)
    requires e.Ask? && e.call in w && e.at <= w[e.call] + d && Served(c, d, s, w, o, ip, b, e.at)
    ensures var (s', outcome) := AskStep(c, s, e.at, e.call);
      var b' := if Own(o, e, ip) then Take(c, b, e.at).0 else b;
      && Served(c, d, s', Waiting(w, e), Callers(o, e), ip, b', e.at)
      && (Own(o, e, ip) ==> (outcome == Admit <==> Take(c, b, e.at).1))
  {
    var s' := AskStep(c, s, e.at, e.call).0;
    TakeLevel(c, b, e.at);
    if d <= IDLE {
      AskKeeps(c, d, s, w, e);
      assert s.calls[e.call].ip != ip ==> LevelOf(c, s', ip, e.at) == LevelOf(c, s, ip, e.at);
    } else {
      NoBurstLevels(c, s', ip, Take(c, b, e.at).0, e.at);
      NoBurstLevels(c, s', ip, b, e.at);
    }
  }

  lemma SweepServes(
    c: Tier, d: nat, s: State, w: map<nat, nat>, o: map<nat, string>, ip: string, b: Bucket, at: nat)
    requires FillsWhileIdle(c, d) && Served(c, d, s, w, o, ip, b, at)
    requires forall call :: call in w ==> at <= w[call] + d
    ensures Served(c, d, SweepStep(s, at), w, o, ip, b, at)
  {
    if d <= IDLE {
      SweepKeeps(c, d, s, w, at);
      assert LevelOf(c, SweepStep(s, at), ip, at) == LevelOf(c, s, ip, at);
    } else {
      NoBurstLevels(c, SweepStep(s, at), ip, b, at);
    }
  }

  lemma StepServes(
    c: Tier, d: nat, s: State, w: map<nat, nat>, o: map<nat, string>, ip: string, b: Bucket, e: Event, now: nat)
    requires FillsWhileIdle(c, d) && Served(c, d, s, w, o, ip, b, now) && Due(d, w, e, now)
    ensures var (s', outcome) := Step(c, true, s, e);
      var b' := if Own(o, e, ip) then Take(c, b, e.at).0 else b;
      && Served(c, d, s', Waiting(w, e), Callers(o, e), ip, b', e.at)
      && (Own(o, e, ip) ==> (outcome == Admit <==> Take(c, b, e.at).1))
  {
    ServedLater(c, d, s, w, o, ip, b, now, e.at);
    match e
    case Find(_, _, _) => FindServes(c, d, s, w, o, ip, b, e);
    case Ask(_, _) => AskServes(c, d, s, w, o, ip, b, e);
    case Sweep(at) => SweepServes(c, d, s, w, o, ip, b, at);
  }

  // ----- isolation -----

  lemma {:induction false} RunLength(c: Tier, s: State, events: seq<Event>)
    ensures |Run(c, true, s, events)| == |events|
    decreases |events|
  {
    if events == [] {
    } else {
      RunLength(c, Step(c, true, s, events[0]).0, events[1..]);
    }
  }

  /** In every punctual run, whatever the other addresses do, wherever their lookups and asks fall and
      whenever the sweeps come, an address is decided as if it had a bucket of its own. */
  lemma {:induction false} Isolated(
    c: Tier, d: nat, s: State, w: map<nat, nat>, o: map<nat, string>, ip: string, b: Bucket, events: seq<Event>,
    now: nat)
    requires FillsWhileIdle(c, d) && Served(c, d, s, w, o, ip, b, now) && Punctual(d, w, events, now)
    ensures |Run(c, true, s, events)| == |events|
    ensures Decisions(ip, o, events, Run(c, true, s, events)) == Solo(c, b, AskTimes(ip, o, events))
    decreases |events|
  {
    RunLength(c, s, events);
    if events == [] {
    } else {
      var e := events[0];
      var s', own := Step(c, true, s, e).0, Own(o, e, ip);
      var b' := if own then Take(c, b, e.at).0 else b;
      StepServes(c, d, s, w, o, ip, b, e, now);
      Isolated(c, d, s', Waiting(w, e), Callers(o, e), ip, b', events[1..], e.at);
      IsolatedCons(c, s, o, ip, b, events);
    }
  }

  lemma IsolatedCons(c: Tier, s: State, o: map<nat, string>, ip: string, b: Bucket, events: seq<Event>)
    requires events != [] && |Run(c, true, s, events)| == |events|
    requires var e, s' := events[0], Step(c, true, s, events[0]).0;
      && |Run(c, true, s', events[1..])| == |events| - 1
      && Decisions(ip, Callers(o, e), events[1..], Run(c, true, s', events[1..]))
         == Solo(c, if Own(o, e, ip) then Take(c, b, e.at).0 else b, AskTimes(ip, Callers(o, e), events[1..]))
      && (Own(o, e, ip) ==> (Step(c, true, s, e).1 == Admit <==> Take(c, b, e.at).1))
    ensures Decisions(ip, o, events, Run(c, true, s, events)) == Solo(c, b, AskTimes(ip, o, events))
  {
    var e := events[0];
    var rest := AskTimes(ip, Callers(o, e), events[1..]);
    assert Run(c, true, s, events)[1..] == Run(c, true, Step(c, true, s, e).0, events[1..]);
    if Own(o, e, ip) {
      assert AskTimes(ip, o, events)[1..] == rest;
    } else {
      assert AskTimes(ip, o, events) == rest;
    }
  }

  /** From the start: a bucket of its own that begins full. */
  lemma IsolatedFromStart(c: Tier, d: nat, ip: string, events: seq<Event>)
    requires FillsWhileIdle(c, d) && Punctual(d, map[], events, 0)
    ensures |Run(c, true, Start, events)| == |events|
    ensures Decisions(ip, map[], events, Run(c, true, Start, events)) == Solo(c, Fresh(c), AskTimes(ip, map[], events))
  {
    if d > IDLE {
      NoBurst(c, d);
    }
    Isolated(c, d, Start, map[], map[], ip, Fresh(c), events, 0);
  }

  // ----- the admission bound -----

  function WaitingAfter(w: map<nat, nat>, events: seq<Event>): map<nat, nat>
    decreases |events|
  {
    if events == [] then w else WaitingAfter(Waiting(w, events[0]), events[1..])
  }

  function CallersAfter(o: map<nat, string>, events: seq<Event>): map<nat, string>
    decreases |events|
  {
    if events == [] then o else CallersAfter(Callers(o, events[0]), events[1..])
  }

  /** The time of the event before index k. */
  function TimeBefore(events: seq<Event>, from: nat, k: nat): nat
    requires k <= |events|
  {
    if k == 0 then from else events[k - 1].at
  }

  /** A full bucket follows any address through a run; here one stands for what the address holds. */
  lemma ArrivedServed(c: Tier, d: nat, s: State, w: map<nat, nat>, o: map<nat, string>, ip: string, now: nat)
    requires Arrived(c, d, s, w, o, now)
    ensures Served(c, d, s, w, o, ip, Bucket(LevelOf(c, s, ip, now), now), now)
  {
    if d > IDLE {
      NoBurstLevels(c, s, ip, Bucket(LevelOf(c, s, ip, now), now), now);
    }
  }

  lemma {:induction false} ArrivedAfter(
    c: Tier, d: nat, s: State, w: map<nat, nat>, o: map<nat, string>, events: seq<Event>, from: nat, k: nat)
    requires FillsWhileIdle(c, d) && Arrived(c, d, s, w, o, from) && Punctual(d, w, events, from) && k <= |events|
    ensures var s', w', o' :=
        After(c, true, s, events[..k]), WaitingAfter(w, events[..k]), CallersAfter(o, events[..k]);
      && Arrived(c, d, s', w', o', TimeBefore(events, from, k))
      && Punctual(d, w', events[k..], TimeBefore(events, from, k))
    decreases k
  {
    if k == 0 {
      assert events[0..] == events;
    } else {
      var e := events[0];
      ArrivedServed(c, d, s, w, o, "", from);
      StepServes(c, d, s, w, o, "", Bucket(LevelOf(c, s, "", from), from), e, from);
      ArrivedAfter(c, d, Step(c, true, s, e).0, Waiting(w, e), Callers(o, e), events[1..], e.at, k - 1);
      assert events[..k][1..] == events[1..][..k - 1] && events[1..][k - 1..] == events[k..];
    }
  }

  lemma {:induction false} PunctualPrefix(d: nat, w: map<nat, nat>, events: seq<Event>, from: nat, k: nat)
    requires Punctual(d, w, events, from) && k <= |events|
    ensures Punctual(d, w, events[..k], from)
    decreases k
  {
    if k == 0 {
    } else {
      assert events[..k][1..] == events[1..][..k - 1];
      PunctualPrefix(d, Waiting(w, events[0]), events[1..], events[0].at, k - 1);
    }
  }

  ghost predicate Within(events: seq<Event>, start: nat, end: nat) {
    events == [] || (start <= events[0].at <= end && Within(events[1..], start, end))
  }

  lemma {:induction false} AskTimesInOrder(
    d: nat, w: map<nat, nat>, ip: string, o: map<nat, string>, events: seq<Event>, from: nat, start: nat, end: nat)
    requires Punctual(d, w, events, from) && Within(events, start, end)
    ensures NonDecreasing(AskTimes(ip, o, events), from)
    ensures var times := AskTimes(ip, o, events); times == [] || times[|times| - 1] <= end
    decreases |events|
  {
    if events == [] {
    } else {
      var e := events[0];
      AskTimesInOrder(d, Waiting(w, e), ip, Callers(o, e), events[1..], e.at, start, end);
      var rest := AskTimes(ip, Callers(o, e), events[1..]);
      if Own(o, e, ip) {
        assert AskTimes(ip, o, events) == [e.at] + rest && ([e.at] + rest)[1..] == rest;
      } else {
        assert AskTimes(ip, o, events) == rest;
      }
    }
  }

  lemma WindowBound(
    c: Tier, d: nat, s: State, w: map<nat, nat>, o: map<nat, string>, window: seq<Event>, ip: string, mid: nat,
    start: nat, end: nat)
    requires FillsWhileIdle(c, d) && Arrived(c, d, s, w, o, mid) && Punctual(d, w, window, mid) && start <= end
    requires Within(window, start, end)
    ensures |Run(c, true, s, window)| == |window|
    ensures Admitted(Decisions(ip, o, window, Run(c, true, s, window))) * TOKEN <= c.Full() + c.Accrued(end - start)
  {
    var b := Bucket(LevelOf(c, s, ip, mid), mid);
    ArrivedServed(c, d, s, w, o, ip, mid);
    Isolated(c, d, s, w, o, ip, b, window, mid);
    if window == [] {
    } else {
      var from := if start <= mid then mid else start;
      AskTimesInOrder(d, w, ip, o, window, from, start, end);
      SoloBound(c, b, AskTimes(ip, o, window), from, end);
      AccruedAdds(c, end - from, end - start);
    }
  }

  /** The outcomes in a window are those of its events, run from the state before it. */
  lemma WindowRuns(c: Tier, events: seq<Event>, i: nat, j: nat)
    requires i <= j <= |events|
    ensures var outcomes := Run(c, true, Start, events);
      |outcomes| == |events| && outcomes[i..j] == Run(c, true, After(c, true, Start, events[..i]), events[i..j])
  {
    var s := After(c, true, Start, events[..i]);
    assert events == events[..i] + (events[i..j] + events[j..]);
    RunAppend(c, true, Start, events[..i], events[i..j] + events[j..]);
    RunAppend(c, true, s, events[i..j], events[j..]);
    RunLength(c, Start, events[..i]);
    RunLength(c, s, events[i..j]);
    RunLength(c, Start, events);
  }

  /** In every punctual run and every window of it, the requests of one address that ask in the window are
      admitted at most its burst plus what its rate allows in the window. */
  lemma AdmissionBound(
    c: Tier, d: nat, events: seq<Event>, i: nat, j: nat, ip: string, start: nat, end: nat)
    requires FillsWhileIdle(c, d) && Punctual(d, map[], events, 0) && i <= j <= |events| && start <= end
    requires Within(events[i..j], start, end)
    ensures var outcomes, o := Run(c, true, Start, events), CallersAfter(map[], events[..i]);
      && |outcomes| == |events|
      && multiset(Decisions(ip, o, events[i..j], outcomes[i..j]))[true] * TOKEN <= c.Full() + c.Accrued(end - start)
  {
    var s, w := After(c, true, Start, events[..i]), WaitingAfter(map[], events[..i]);
    var mid := TimeBefore(events, 0, i);
    if d > IDLE {
      NoBurst(c, d);
    }
    WindowRuns(c, events, i, j);
    ArrivedAfter(c, d, Start, map[], map[], events, 0, i);
    PunctualPrefix(d, w, events[i..], mid, j - i);
    assert events[i..][..j - i] == events[i..j];
    WindowBound(c, d, s, w, CallersAfter(map[], events[..i]), events[i..j], ip, mid, start, end);
    AdmittedCounts(Decisions(ip, CallersAfter(map[], events[..i]), events[i..j], Run(c, true, Start, events)[i..j]));
  }
}

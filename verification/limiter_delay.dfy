/** The same limiter with a request's two halves apart: `getLimiter` hands out a bucket under the lock,
    and the bucket is asked later, outside it.  A sweep may run in between and drop the bucket from the
    map while a request still holds it, so buckets are kept by identity. */
module LimiterDelay {
  import opened TokenBucket

  datatype Slot = Slot(id: nat, lastSeen: nat)

  /** A request that has its bucket and has not asked yet. */
  datatype Call = Call(ip: string, id: nat, since: nat)

  datatype State = State(heap: seq<Bucket>, slots: map<string, Slot>, calls: map<nat, Call>)

  datatype Event =
    | Find(at: nat, call: nat, ip: string)
    | Ask(at: nat, call: nat)
    | Sweep(at: nat)

  datatype Outcome = Admit | Refuse | Silent

  const Start := State([], map[], map[])

  function FindStep(c: Tier, s: State, at: nat, call: nat, ip: string): State {
    var known := ip in s.slots;
    var id := if known then s.slots[ip].id else |s.heap|;
    State(if known then s.heap else s.heap + [Fresh(c)], s.slots[ip := Slot(id, at)],
          s.calls[call := Call(ip, id, at)])
  }

  function AskStep(c: Tier, s: State, at: nat, call: nat): (State, Outcome) {
    if call in s.calls && s.calls[call].id < |s.heap| then
      var id := s.calls[call].id;
      var (b, ok) := Take(c, s.heap[id], at);
      (State(s.heap[id := b], s.slots, s.calls - {call}), if ok then Admit else Refuse)
    else (s, Silent)
  }

  function SweepStep(s: State, at: nat): State {
    s.(slots := map ip | ip in s.slots && at <= s.slots[ip].lastSeen + IDLE :: s.slots[ip])
  }

  function Step(c: Tier, evicting: bool, s: State, e: Event): (State, Outcome) {
    match e
    case Find(at, call, ip) => (FindStep(c, s, at, call, ip), Silent)
    case Ask(at, call) => AskStep(c, s, at, call)
    case Sweep(at) => (if evicting then SweepStep(s, at) else s, Silent)
  }

  function Run(c: Tier, evicting: bool, s: State, events: seq<Event>): seq<Outcome>
    decreases |events|
  {
    if events == [] then []
    else
      var (s', o) := Step(c, evicting, s, events[0]);
      [o] + Run(c, evicting, s', events[1..])
  }

  /** Who still waits to ask, and since when. */
  function Waiting(w: map<nat, nat>, e: Event): map<nat, nat> {
    match e
    case Find(at, call, _) => w[call := at]
    case Ask(_, call) => w - {call}
    case Sweep(_) => w
  }

  /** Time does not go back, every request asks once after it has found, and none waits longer than d. */
  ghost predicate Punctual(d: nat, w: map<nat, nat>, events: seq<Event>, from: nat)
    decreases |events|
  {
    events == [] ||
    var e := events[0];
    && from <= e.at
    && (forall call :: call in w ==> e.at <= w[call] + d)
    && (e.Find? ==> e.call !in w)
    && (e.Ask? ==> e.call in w)
    && Punctual(d, Waiting(w, e), events[1..], e.at)
  }

  ghost predicate EvictionInvisible(c: Tier, d: nat) {
    forall events :: Punctual(d, map[], events, 0) ==> Run(c, true, Start, events) == Run(c, false, Start, events)
  }

  /** What is left of the idle cutoff for refilling once a request may ask d after its lookup. */
  ghost predicate FillsWhileIdle(c: Tier, d: nat) {
    c.Full() <= c.Accrued(if d <= IDLE then IDLE + 1 - d else 0)
  }

  // ----- the state invariant -----

  function LevelOf(c: Tier, s: State, ip: string, now: nat): nat {
    if ip in s.slots && s.slots[ip].id < |s.heap| then Level(c, s.heap[s.slots[ip].id], now) else c.Full()
  }

  ghost predicate SlotOk(d: nat, s: State, slot: Slot, now: nat) {
    && slot.id < |s.heap| && slot.lastSeen <= now
    && s.heap[slot.id].last <= now && s.heap[slot.id].last <= slot.lastSeen + d
  }

  ghost predicate SlotsOk(d: nat, s: State, now: nat) {
    forall ip :: ip in s.slots ==> SlotOk(d, s, s.slots[ip], now)
  }

  /** No bucket serves two addresses. */
  ghost predicate Unshared(s: State) {
    forall ip, jp :: ip in s.slots && jp in s.slots && s.slots[ip].id == s.slots[jp].id ==> ip == jp
  }

  ghost predicate CallOk(s: State, p: Call, since: nat) {
    p.since == since && p.ip in s.slots && s.slots[p.ip].id == p.id && p.since <= s.slots[p.ip].lastSeen
  }

  /** No request holds a bucket the map has dropped. */
  ghost predicate CallsOk(s: State, w: map<nat, nat>) {
    && s.calls.Keys == w.Keys
    && forall call :: call in s.calls ==> CallOk(s, s.calls[call], w[call])
  }

  ghost predicate Attached(d: nat, s: State, w: map<nat, nat>, now: nat) {
    SlotsOk(d, s, now) && Unshared(s) && CallsOk(s, w)
  }

  ghost predicate Agree(c: Tier, s: State, u: State, now: nat) {
    && (forall ip :: LevelOf(c, s, ip, now) == LevelOf(c, u, ip, now))
    && s.calls.Keys == u.calls.Keys
    && (forall call :: call in s.calls ==> s.calls[call].ip == u.calls[call].ip)
  }

  lemma LevelsLater(c: Tier, d: nat, s: State, w: map<nat, nat>, now: nat, at: nat)
    requires Attached(d, s, w, now) && now <= at
    ensures Attached(d, s, w, at)
    ensures forall ip :: LevelOf(c, s, ip, at) == Min(c.Full(), LevelOf(c, s, ip, now) + c.Accrued(at - now))
  {
    forall ip ensures LevelOf(c, s, ip, at) == Min(c.Full(), LevelOf(c, s, ip, now) + c.Accrued(at - now)) {
      if ip in s.slots {
        LevelLater(c, s.heap[s.slots[ip].id], now, at);
      }
    }
  }

  lemma FindKeepsLevels(c: Tier, d: nat, s: State, now: nat, at: nat, call: nat, ip: string)
    requires SlotsOk(d, s, now)
    ensures forall jp :: LevelOf(c, FindStep(c, s, at, call, ip), jp, now) == LevelOf(c, s, jp, now)
  {
    forall jp ensures LevelOf(c, FindStep(c, s, at, call, ip), jp, now) == LevelOf(c, s, jp, now) {
      if jp in s.slots {
        assert SlotOk(d, s, s.slots[jp], now);
      }
    }
  }

  lemma FindKeepsCalls(c: Tier, d: nat, s: State, w: map<nat, nat>, at: nat, call: nat, ip: string)
    requires SlotsOk(d, s, at) && CallsOk(s, w) && call !in w
    ensures CallsOk(FindStep(c, s, at, call, ip), w[call := at])
  {
    var s' := FindStep(c, s, at, call, ip);
    forall other | other in s'.calls ensures CallOk(s', s'.calls[other], w[call := at][other]) {
      if other != call {
        assert CallOk(s, s.calls[other], w[other]);
        assert SlotOk(d, s, s.slots[s.calls[other].ip], at);
      }
    }
  }

  lemma FindKeeps(c: Tier, d: nat, s: State, w: map<nat, nat>, e: Event)
    requires e.Find? && Attached(d, s, w, e.at) && e.call !in w
    ensures var s' := FindStep(c, s, e.at, e.call, e.ip);
      && Attached(d, s', Waiting(w, e), e.at)
      && s'.calls.Keys == s.calls.Keys + {e.call}
      && forall ip :: LevelOf(c, s', ip, e.at) == LevelOf(c, s, ip, e.at)
  {
    var s' := FindStep(c, s, e.at, e.call, e.ip);
    forall ip | ip in s'.slots ensures SlotOk(d, s', s'.slots[ip], e.at) {
      if ip != e.ip {
        assert SlotOk(d, s, s.slots[ip], e.at);
      }
    }
    forall ip, jp | ip in s'.slots && jp in s'.slots && s'.slots[ip].id == s'.slots[jp].id ensures ip == jp {
      assert ip != e.ip ==> SlotOk(d, s, s.slots[ip], e.at);
      assert jp != e.ip ==> SlotOk(d, s, s.slots[jp], e.at);
    }
    FindKeepsCalls(c, d, s, w, e.at, e.call, e.ip);
    FindKeepsLevels(c, d, s, e.at, e.at, e.call, e.ip);
  }

  /** A request that asks in time asks the bucket its address has in the map. */
  lemma AskKeeps(c: Tier, d: nat, s: State, w: map<nat, nat>, e: Event)
    requires e.Ask? && Attached(d, s, w, e.at) && e.call in w && e.at <= w[e.call] + d
    ensures var (s', o) := AskStep(c, s, e.at, e.call);
      && Attached(d, s', Waiting(w, e), e.at)
      && var ip := s.calls[e.call].ip;
      && o == (if TOKEN <= LevelOf(c, s, ip, e.at) then Admit else Refuse)
      && LevelOf(c, s', ip, e.at) == LevelOf(c, s, ip, e.at) - (if o == Admit then TOKEN else 0)
      && s'.calls == s.calls - {e.call}
      && forall jp :: jp != ip ==> LevelOf(c, s', jp, e.at) == LevelOf(c, s, jp, e.at)
  {
    var p, s' := s.calls[e.call], AskStep(c, s, e.at, e.call).0;
    assert CallOk(s, p, w[e.call]) && SlotOk(d, s, s.slots[p.ip], e.at);
    TakeLevel(c, s.heap[p.id], e.at);
    forall ip | ip in s'.slots ensures SlotOk(d, s', s'.slots[ip], e.at) {
      assert SlotOk(d, s, s.slots[ip], e.at);
    }
    forall call | call in s'.calls ensures CallOk(s', s'.calls[call], Waiting(w, e)[call]) {
      assert CallOk(s, s.calls[call], w[call]);
    }
    forall jp | jp != p.ip ensures LevelOf(c, s', jp, e.at) == LevelOf(c, s, jp, e.at) {
      assert jp in s.slots ==> SlotOk(d, s, s.slots[jp], e.at);
    }
  }

  /** While nobody waits longer than the cutoff a sweep takes no bucket in use, and what it takes is full. */
  lemma SweepKeeps(c: Tier, d: nat, s: State, w: map<nat, nat>, at: nat)
    requires d <= IDLE && FillsWhileIdle(c, d)
    requires Attached(d, s, w, at) && forall call :: call in w ==> at <= w[call] + d
    ensures Attached(d, SweepStep(s, at), w, at)
    ensures forall ip :: LevelOf(c, SweepStep(s, at), ip, at) == LevelOf(c, s, ip, at)
  {
    var s' := SweepStep(s, at);
    forall ip | ip in s'.slots ensures SlotOk(d, s', s'.slots[ip], at) {
      assert SlotOk(d, s, s.slots[ip], at);
    }
    forall call | call in s'.calls ensures CallOk(s', s'.calls[call], w[call]) {
      assert CallOk(s, s.calls[call], w[call]);
    }
    forall ip ensures LevelOf(c, SweepStep(s, at), ip, at) == LevelOf(c, s, ip, at) {
      assert ip in s.slots ==> SlotOk(d, s, s.slots[ip], at);
      if ip in s.slots && ip !in SweepStep(s, at).slots {
        AccruedAdds(c, IDLE + 1 - d, at - s.heap[s.slots[ip].id].last);
      }
    }
  }

  /** Steps that change no level keep two states in agreement. */
  lemma AgreeOn(c: Tier, s': State, u': State, s: State, u: State, at: nat)
    requires Agree(c, s, u, at)
    requires forall ip :: LevelOf(c, s', ip, at) == LevelOf(c, s, ip, at)
    requires forall ip :: LevelOf(c, u', ip, at) == LevelOf(c, u, ip, at)
    requires s'.calls.Keys == u'.calls.Keys
    requires forall call :: call in s'.calls ==> s'.calls[call].ip == u'.calls[call].ip
    ensures Agree(c, s', u', at)
  {
    forall ip ensures LevelOf(c, s', ip, at) == LevelOf(c, u', ip, at) {
      assert LevelOf(c, s, ip, at) == LevelOf(c, u, ip, at);
    }
  }

  lemma AgreeLater(c: Tier, d: nat, s: State, u: State, w: map<nat, nat>, now: nat, at: nat)
    requires Attached(d, s, w, now) && Attached(d, u, w, now) && Agree(c, s, u, now) && now <= at
    ensures Attached(d, s, w, at) && Attached(d, u, w, at) && Agree(c, s, u, at)
  {
    LevelsLater(c, d, s, w, now, at);
    LevelsLater(c, d, u, w, now, at);
    forall ip ensures LevelOf(c, s, ip, at) == LevelOf(c, u, ip, at) {
      assert LevelOf(c, s, ip, now) == LevelOf(c, u, ip, now);
    }
  }

  lemma AskAgrees(c: Tier, d: nat, s: State, u: State, w: map<nat, nat>, e: Event)
    requires e.Ask? && Attached(d, s, w, e.at) && Attached(d, u, w, e.at) && Agree(c, s, u, e.at)
    requires e.call in w && e.at <= w[e.call] + d
    ensures var (s', o) := AskStep(c, s, e.at, e.call);
      var (u', p) := AskStep(c, u, e.at, e.call);
      o == p && Agree(c, s', u', e.at)
  {
    AskKeeps(c, d, s, w, e);
    AskKeeps(c, d, u, w, e);
    var s', u' := AskStep(c, s, e.at, e.call).0, AskStep(c, u, e.at, e.call).0;
    var own := s.calls[e.call].ip;
    assert LevelOf(c, s, own, e.at) == LevelOf(c, u, own, e.at);
    forall ip ensures LevelOf(c, s', ip, e.at) == LevelOf(c, u', ip, e.at) {
      if ip != own {
        assert LevelOf(c, s', ip, e.at) == LevelOf(c, s, ip, e.at) == LevelOf(c, u, ip, e.at);
      }
    }
  }

  lemma FindAgrees(c: Tier, d: nat, s: State, u: State, w: map<nat, nat>, e: Event)
    requires e.Find? && Attached(d, s, w, e.at) && Attached(d, u, w, e.at) && Agree(c, s, u, e.at)
    requires e.call !in w
    ensures Agree(c, FindStep(c, s, e.at, e.call, e.ip), FindStep(c, u, e.at, e.call, e.ip), e.at)
  {
    FindKeepsLevels(c, d, s, e.at, e.at, e.call, e.ip);
    FindKeepsLevels(c, d, u, e.at, e.at, e.call, e.ip);
    AgreeOn(c, FindStep(c, s, e.at, e.call, e.ip), FindStep(c, u, e.at, e.call, e.ip), s, u, e.at);
  }

  lemma SweepAgrees(c: Tier, d: nat, s: State, u: State, w: map<nat, nat>, at: nat)
    requires d <= IDLE && FillsWhileIdle(c, d)
    requires Attached(d, s, w, at) && Agree(c, s, u, at) && forall call :: call in w ==> at <= w[call] + d
    ensures Attached(d, SweepStep(s, at), w, at) && Agree(c, SweepStep(s, at), u, at)
  {
    SweepKeeps(c, d, s, w, at);
    AgreeOn(c, SweepStep(s, at), u, s, u, at);
  }

  lemma StepAgrees(c: Tier, d: nat, s: State, u: State, w: map<nat, nat>, e: Event)
    requires d <= IDLE && FillsWhileIdle(c, d)
    requires Attached(d, s, w, e.at) && Attached(d, u, w, e.at) && Agree(c, s, u, e.at)
    requires forall call :: call in w ==> e.at <= w[call] + d
    requires (e.Find? ==> e.call !in w) && (e.Ask? ==> e.call in w)
    ensures var (s', o) := Step(c, true, s, e);
      var (u', p) := Step(c, false, u, e);
      && o == p && Attached(d, s', Waiting(w, e), e.at) && Attached(d, u', Waiting(w, e), e.at)
      && Agree(c, s', u', e.at)
  {
    match e
    case Find(_, _, _) =>
      FindKeeps(c, d, s, w, e);
      FindKeeps(c, d, u, w, e);
      FindAgrees(c, d, s, u, w, e);
    case Ask(_, _) =>
      AskKeeps(c, d, s, w, e);
      AskKeeps(c, d, u, w, e);
      AskAgrees(c, d, s, u, w, e);
    case Sweep(at) =>
      SweepAgrees(c, d, s, u, w, at);
  }

  lemma {:induction false} AgreeingStatesRunAlike(
    c: Tier, d: nat, s: State, u: State, w: map<nat, nat>, events: seq<Event>, now: nat)
    requires d <= IDLE && FillsWhileIdle(c, d)
    requires Attached(d, s, w, now) && Attached(d, u, w, now) && Agree(c, s, u, now)
    requires Punctual(d, w, events, now)
    ensures Run(c, true, s, events) == Run(c, false, u, events)
    decreases |events|
  {
    if events == [] {
    } else {
      var e := events[0];
      AgreeLater(c, d, s, u, w, now, e.at);
      StepAgrees(c, d, s, u, w, e);
      AgreeingStatesRunAlike(c, d, Step(c, true, s, e).0, Step(c, false, u, e).0, Waiting(w, e), events[1..], e.at);
    }
  }

  // ----- eviction is invisible, exactly when the remaining idle time fills a bucket -----

  /** For every tier and every bound on the delay, known to the nanosecond. */
  lemma EvictionInvisibleExactly(c: Tier, d: nat)
    ensures EvictionInvisible(c, d) <==> FillsWhileIdle(c, d)
  {
    if FillsWhileIdle(c, d) {
      forall events | Punctual(d, map[], events, 0) ensures Run(c, true, Start, events) == Run(c, false, Start, events) {
        if d <= IDLE {
          AgreeingStatesRunAlike(c, d, Start, Start, map[], events, 0);
        } else {
          NothingAdmitted(c, d, Start, Start, map[], events, 0);
        }
      }
    } else {
      EvictionShows(c, d, "a");
    }
  }

  /** In seconds, as an operator would write it: 60 * burst <= perMinute * (600 - delay). */
  lemma DelayCondition(c: Tier, seconds: nat)
    requires seconds < 600 && 60 * c.burst <= c.perMinute * (600 - seconds)
    ensures FillsWhileIdle(c, seconds * SECOND)
  {
    assert c.Accrued(IDLE + 1 - seconds * SECOND) == c.perMinute * (600 - seconds) * SECOND + c.perMinute;
  }

  ghost predicate Known(s: State, w: map<nat, nat>) {
    && s.calls.Keys == w.Keys
    && (forall call :: call in s.calls ==> s.calls[call].id < |s.heap|)
    && (forall ip :: ip in s.slots ==> s.slots[ip].id < |s.heap|)
  }

  lemma NothingAdmittedStep(c: Tier, s: State, u: State, w: map<nat, nat>, e: Event)
    requires c.burst == 0 && Known(s, w) && Known(u, w) && (e.Ask? ==> e.call in w)
    ensures Known(Step(c, true, s, e).0, Waiting(w, e)) && Known(Step(c, false, u, e).0, Waiting(w, e))
    ensures Step(c, true, s, e).1 == Step(c, false, u, e).1
  {
  }

  /** A tier with no burst refuses everything, whatever is forgotten. */
  lemma {:induction false} NothingAdmitted(
    c: Tier, d: nat, s: State, u: State, w: map<nat, nat>, events: seq<Event>, now: nat)
    requires c.burst == 0 && Known(s, w) && Known(u, w) && Punctual(d, w, events, now)
    ensures Run(c, true, s, events) == Run(c, false, u, events)
    decreases |events|
  {
    if events == [] {
    } else {
      var e := events[0];
      NothingAdmittedStep(c, s, u, w, e);
      NothingAdmitted(c, d, Step(c, true, s, e).0, Step(c, false, u, e).0, Waiting(w, e), events[1..], e.at);
    }
  }

  // ----- the run that tells them apart -----

  function Finds(at: nat, ip: string, first: nat, n: nat): seq<Event>
    decreases n
  {
    if n == 0 then [] else [Find(at, first, ip)] + Finds(at, ip, first + 1, n - 1)
  }

  function Asks(at: nat, first: nat, n: nat): seq<Event>
    decreases n
  {
    if n == 0 then [] else [Ask(at, first)] + Asks(at, first + 1, n - 1)
  }

  function After(c: Tier, evicting: bool, s: State, events: seq<Event>): State
    decreases |events|
  {
    if events == [] then s else After(c, evicting, Step(c, evicting, s, events[0]).0, events[1..])
  }

  lemma {:induction false} RunAppend(c: Tier, evicting: bool, s: State, a: seq<Event>, b: seq<Event>)
    ensures Run(c, evicting, s, a + b) == Run(c, evicting, s, a) + Run(c, evicting, After(c, evicting, s, a), b)
    ensures After(c, evicting, s, a + b) == After(c, evicting, After(c, evicting, s, a), b)
    decreases |a|
  {
    if a == [] {
      assert a + b == b;
    } else {
      assert (a + b)[1..] == a[1..] + b;
      RunAppend(c, evicting, Step(c, evicting, s, a[0]).0, a[1..], b);
    }
  }

  predicate Among(i: nat, first: nat, n: nat) {
    first <= i < first + n
  }

  /** n calls, from `first` on, all holding bucket `id` of the only address. */
  function Holding(heap: seq<Bucket>, ip: string, id: nat, seen: nat, first: nat, n: nat): State {
    State(heap, map[ip := Slot(id, seen)], map i: nat | first <= i < first + n && Among(i, first, n) :: Call(ip, id, seen))
  }

  function Waiters(first: nat, n: nat, since: nat): map<nat, nat> {
    map i: nat | first <= i < first + n && Among(i, first, n) :: since
  }

  lemma HoldingGrows(heap: seq<Bucket>, ip: string, id: nat, at: nat, first: nat, k: nat)
    ensures Holding(heap, ip, id, at, first, k).calls[first + k := Call(ip, id, at)]
         == Holding(heap, ip, id, at, first, k + 1).calls
  {
  }

  lemma WaitersGrow(first: nat, k: nat, at: nat)
    ensures first + k !in Waiters(first, k, at)
    ensures Waiters(first, k, at)[first + k := at] == Waiters(first, k + 1, at)
    ensures Waiters(first, 0, at) == map[]
  {
  }

  lemma WaitersShrink(first: nat, n: nat, at: nat)
    requires n > 0
    ensures Waiters(first, n, at) - {first} == Waiters(first + 1, n - 1, at)
  {
  }

  lemma {:induction false} FindsHold(
    c: Tier, evicting: bool, heap: seq<Bucket>, ip: string, id: nat, at: nat, first: nat, k: nat, n: nat)
    ensures After(c, evicting, Holding(heap, ip, id, at, first, k), Finds(at, ip, first + k, n))
         == Holding(heap, ip, id, at, first, k + n)
    decreases n
  {
    if n == 0 {
    } else {
      HoldingGrows(heap, ip, id, at, first, k);
      assert FindStep(c, Holding(heap, ip, id, at, first, k), at, first + k, ip)
          == Holding(heap, ip, id, at, first, k + 1);
      assert Finds(at, ip, first + k, n)[1..] == Finds(at, ip, first + k + 1, n - 1);
      FindsHold(c, evicting, heap, ip, id, at, first, k + 1, n - 1);
    }
  }

  function Admits(outcomes: seq<Outcome>): nat {
    if outcomes == [] then 0 else (if outcomes[0] == Admit then 1 else 0) + Admits(outcomes[1..])
  }

  lemma {:induction false} AdmitsAppend(a: seq<Outcome>, b: seq<Outcome>)
    ensures Admits(a + b) == Admits(a) + Admits(b)
    decreases |a|
  {
    if a == [] {
      assert a + b == b;
    } else {
      assert (a + b)[1..] == a[1..] + b;
      AdmitsAppend(a[1..], b);
    }
  }

  lemma {:induction false} FindsAdmitNothing(c: Tier, evicting: bool, s: State, at: nat, ip: string, first: nat, n: nat)
    ensures Admits(Run(c, evicting, s, Finds(at, ip, first, n))) == 0
    decreases n
  {
    if n == 0 {
    } else {
      assert Finds(at, ip, first, n)[1..] == Finds(at, ip, first + 1, n - 1);
      FindsAdmitNothing(c, evicting, FindStep(c, s, at, first, ip), at, ip, first + 1, n - 1);
    }
  }

  /** The first of n calls sharing a bucket asks it. */
  lemma FirstAsks(c: Tier, heap: seq<Bucket>, ip: string, id: nat, seen: nat, at: nat, first: nat, n: nat)
    requires id < |heap| && n > 0
    ensures var (b, ok) := Take(c, heap[id], at);
      AskStep(c, Holding(heap, ip, id, seen, first, n), at, first)
      == (Holding(heap[id := b], ip, id, seen, first + 1, n - 1), if ok then Admit else Refuse)
  {
    assert Holding(heap, ip, id, seen, first, n).calls - {first} == Holding(heap, ip, id, seen, first + 1, n - 1).calls;
  }

  /** Calls that share a bucket are all admitted exactly when it holds that many tokens. */
  lemma {:induction false} AsksDrain(
    c: Tier, evicting: bool, heap: seq<Bucket>, ip: string, id: nat, seen: nat, at: nat, first: nat, n: nat)
    requires id < |heap| && heap[id].last <= at
    ensures var s := Holding(heap, ip, id, seen, first, n);
      var s' := After(c, evicting, s, Asks(at, first, n));
      var admits := Admits(Run(c, evicting, s, Asks(at, first, n)));
      && admits <= n && (admits == n <==> n * TOKEN <= Level(c, heap[id], at))
      && s'.slots == s.slots && s'.calls == map[] && |s'.heap| == |heap| && s'.heap[id].last <= at
      && Level(c, s'.heap[id], at) == Level(c, heap[id], at) - admits * TOKEN
    decreases n
  {
    if n == 0 {
    } else {
      var s := Holding(heap, ip, id, seen, first, n);
      var (b, ok) := Take(c, heap[id], at);
      TakeLevel(c, heap[id], at);
      FirstAsks(c, heap, ip, id, seen, at, first, n);
      assert Asks(at, first, n)[1..] == Asks(at, first + 1, n - 1);
      AsksDrain(c, evicting, heap[id := b], ip, id, seen, at, first + 1, n - 1);
      assert Run(c, evicting, s, Asks(at, first, n))[1..]
          == Run(c, evicting, Holding(heap[id := b], ip, id, seen, first + 1, n - 1), Asks(at, first + 1, n - 1));
    }
  }

  /** n requests find their bucket at one moment and ask it at another. */
  function Rush(found: nat, asked: nat, ip: string, first: nat, n: nat): seq<Event> {
    Finds(found, ip, first, n) + Asks(asked, first, n)
  }

  /** Between rushes: nobody waits, and only one address is known. */
  ghost predicate Idle(s: State, ip: string, now: nat) {
    && s.calls == map[] && s.slots.Keys <= {ip}
    && (ip in s.slots ==> s.slots[ip].id < |s.heap| && s.heap[s.slots[ip].id].last <= now)
  }

  lemma FirstFind(c: Tier, s: State, ip: string, found: nat, first: nat)
    requires Idle(s, ip, found)
    ensures var s1 := FindStep(c, s, found, first, ip);
      s1 == Holding(s1.heap, ip, s1.slots[ip].id, found, first, 1)
  {
    var s1 := FindStep(c, s, found, first, ip);
    assert s1.calls == Holding(s1.heap, ip, s1.slots[ip].id, found, first, 1).calls;
    assert s1.slots == Holding(s1.heap, ip, s1.slots[ip].id, found, first, 1).slots;
  }

  lemma AfterFirst(c: Tier, evicting: bool, s: State, at: nat, ip: string, first: nat, n: nat)
    requires n > 0
    ensures After(c, evicting, s, Finds(at, ip, first, n))
         == After(c, evicting, FindStep(c, s, at, first, ip), Finds(at, ip, first + 1, n - 1))
  {
    assert Finds(at, ip, first, n)[1..] == Finds(at, ip, first + 1, n - 1);
  }

  lemma RushFinds(c: Tier, evicting: bool, s: State, ip: string, found: nat, first: nat, n: nat)
    requires n > 0 && Idle(s, ip, found)
    ensures var s1 := FindStep(c, s, found, first, ip);
      After(c, evicting, s, Finds(found, ip, first, n)) == Holding(s1.heap, ip, s1.slots[ip].id, found, first, n)
  {
    AfterFirst(c, evicting, s, found, ip, first, n);
    FirstFind(c, s, ip, found, first);
    var s1 := FindStep(c, s, found, first, ip);
    FindsHold(c, evicting, s1.heap, ip, s1.slots[ip].id, found, first, 1, n - 1);
  }

  lemma RushDecides(c: Tier, evicting: bool, s: State, ip: string, found: nat, asked: nat, first: nat, n: nat)
    requires n > 0 && Idle(s, ip, found) && found <= asked
    ensures var admits := Admits(Run(c, evicting, s, Rush(found, asked, ip, first, n)));
      var s' := After(c, evicting, s, Rush(found, asked, ip, first, n));
      && admits <= n && (admits == n <==> n * TOKEN <= LevelOf(c, s, ip, asked))
      && Idle(s', ip, asked) && ip in s'.slots && s'.slots[ip].lastSeen == found
      && LevelOf(c, s', ip, asked) == LevelOf(c, s, ip, asked) - admits * TOKEN
  {
    var s1 := FindStep(c, s, found, first, ip);
    var id := s1.slots[ip].id;
    var held := Holding(s1.heap, ip, id, found, first, n);
    RushFinds(c, evicting, s, ip, found, first, n);
    FindsAdmitNothing(c, evicting, s, found, ip, first, n);
    AsksDrain(c, evicting, s1.heap, ip, id, found, asked, first, n);
    assert Level(c, s1.heap[id], asked) == LevelOf(c, s, ip, asked);
    RunAppend(c, evicting, s, Finds(found, ip, first, n), Asks(asked, first, n));
    AdmitsAppend(Run(c, evicting, s, Finds(found, ip, first, n)), Run(c, evicting, held, Asks(asked, first, n)));
  }

  /** Drain as late as the delay allows, sweep just past the cutoff, and drain again. */
  function DrainTwice(c: Tier, d: nat, ip: string): seq<Event> {
    Rush(0, Min(d, IDLE + 1), ip, 0, c.burst)
    + ([Sweep(IDLE + 1)] + Rush(IDLE + 1, IDLE + 1, ip, c.burst, c.burst))
  }

  /** A sweep in the middle of a run admits nobody. */
  lemma SweepBetween(c: Tier, evicting: bool, s: State, first: seq<Event>, at: nat, second: seq<Event>)
    ensures var drained := After(c, evicting, s, first);
      var swept := if evicting then SweepStep(drained, at) else drained;
      Admits(Run(c, evicting, s, first + ([Sweep(at)] + second)))
      == Admits(Run(c, evicting, s, first)) + Admits(Run(c, evicting, swept, second))
  {
    var drained := After(c, evicting, s, first);
    var rest := Run(c, evicting, drained, [Sweep(at)] + second);
    RunAppend(c, evicting, s, first, [Sweep(at)] + second);
    AdmitsAppend(Run(c, evicting, s, first), rest);
    assert ([Sweep(at)] + second)[1..] == second;
    assert rest[1..] == Run(c, evicting, Step(c, evicting, drained, Sweep(at)).0, second);
  }

  /** What the address holds after the wait: nothing but what has accrued, or a fresh bucket. */
  lemma AfterTheWait(c: Tier, evicting: bool, drained: State, ip: string, asked: nat)
    requires Idle(drained, ip, asked) && ip in drained.slots && drained.slots[ip].lastSeen == 0 && asked <= IDLE + 1
    ensures var swept := if evicting then SweepStep(drained, IDLE + 1) else drained;
      && Idle(swept, ip, IDLE + 1)
      && LevelOf(c, swept, ip, IDLE + 1)
         == if evicting then c.Full()
            else Min(c.Full(), LevelOf(c, drained, ip, asked) + c.Accrued(IDLE + 1 - asked))
  {
    LevelLater(c, drained.heap[drained.slots[ip].id], asked, IDLE + 1);
  }

  lemma DrainTwiceDecides(c: Tier, d: nat, evicting: bool, ip: string)
    requires c.burst > 0
    ensures Admits(Run(c, evicting, Start, DrainTwice(c, d, ip))) == 2 * c.burst <==> evicting || FillsWhileIdle(c, d)
  {
    var asked, late := Min(d, IDLE + 1), IDLE + 1;
    var first, second := Rush(0, asked, ip, 0, c.burst), Rush(late, late, ip, c.burst, c.burst);
    var drained := After(c, evicting, Start, first);
    var swept := if evicting then SweepStep(drained, late) else drained;
    RushDecides(c, evicting, Start, ip, 0, asked, 0, c.burst);
    AfterTheWait(c, evicting, drained, ip, asked);
    RushDecides(c, evicting, swept, ip, late, late, c.burst, c.burst);
    SweepBetween(c, evicting, Start, first, late, second);
  }

  lemma FindsTail(at: nat, ip: string, first: nat, n: nat, rest: seq<Event>)
    requires n > 0
    ensures Finds(at, ip, first, n) + rest == [Find(at, first, ip)] + (Finds(at, ip, first + 1, n - 1) + rest)
  {
  }

  lemma AsksTail(at: nat, first: nat, n: nat, rest: seq<Event>)
    requires n > 0
    ensures Asks(at, first, n) + rest == [Ask(at, first)] + (Asks(at, first + 1, n - 1) + rest)
  {
  }

  lemma PunctualCons(d: nat, w: map<nat, nat>, e: Event, rest: seq<Event>, from: nat)
    requires from <= e.at && Punctual(d, Waiting(w, e), rest, e.at)
    requires forall call :: call in w ==> e.at <= w[call] + d
    requires (e.Find? ==> e.call !in w) && (e.Ask? ==> e.call in w)
    ensures Punctual(d, w, [e] + rest, from)
  {
    assert ([e] + rest)[1..] == rest;
  }

  lemma FindPunctual(d: nat, w: map<nat, nat>, at: nat, call: nat, ip: string, rest: seq<Event>, from: nat)
    requires from <= at && call !in w && (forall other :: other in w ==> w[other] == at)
    requires Punctual(d, w[call := at], rest, at)
    ensures Punctual(d, w, [Find(at, call, ip)] + rest, from)
  {
    PunctualCons(d, w, Find(at, call, ip), rest, from);
  }

  lemma FindsPunctualStep(d: nat, ip: string, at: nat, first: nat, k: nat, n: nat, rest: seq<Event>, from: nat)
    requires from <= at && n > 0
    requires Punctual(d, Waiters(first, k + 1, at), Finds(at, ip, first + k + 1, n - 1) + rest, at)
    ensures Punctual(d, Waiters(first, k, at), Finds(at, ip, first + k, n) + rest, from)
  {
    WaitersGrow(first, k, at);
    FindPunctual(d, Waiters(first, k, at), at, first + k, ip, Finds(at, ip, first + k + 1, n - 1) + rest, from);
    FindsTail(at, ip, first + k, n, rest);
  }

  lemma {:induction false} FindsPunctual(
    d: nat, ip: string, at: nat, first: nat, k: nat, n: nat, rest: seq<Event>, from: nat)
    requires from <= at && Punctual(d, Waiters(first, k + n, at), rest, at)
    ensures Punctual(d, Waiters(first, k, at), Finds(at, ip, first + k, n) + rest, from)
    decreases n
  {
    if n == 0 {
      PunctualEarlier(d, Waiters(first, k, at), rest, from, at);
      assert Finds(at, ip, first + k, n) + rest == rest;
    } else {
      FindsPunctual(d, ip, at, first, k + 1, n - 1, rest, at);
      FindsPunctualStep(d, ip, at, first, k, n, rest, from);
    }
  }

  lemma PunctualEarlier(d: nat, w: map<nat, nat>, events: seq<Event>, from: nat, later: nat)
    requires from <= later && Punctual(d, w, events, later)
    ensures Punctual(d, w, events, from)
  {
  }

  lemma {:induction false} AsksPunctual(d: nat, at: nat, first: nat, n: nat, since: nat, rest: seq<Event>, from: nat)
    requires from <= at <= since + d && Punctual(d, map[], rest, at)
    ensures Punctual(d, Waiters(first, n, since), Asks(at, first, n) + rest, from)
    decreases n
  {
    if n == 0 {
      WaitersGrow(first, 0, since);
      PunctualEarlier(d, map[], rest, from, at);
      assert Asks(at, first, n) + rest == rest;
    } else {
      WaitersShrink(first, n, since);
      AsksPunctual(d, at, first + 1, n - 1, since, rest, at);
      PunctualCons(d, Waiters(first, n, since), Ask(at, first), Asks(at, first + 1, n - 1) + rest, from);
      AsksTail(at, first, n, rest);
    }
  }

  lemma RushTail(found: nat, asked: nat, ip: string, first: nat, n: nat, rest: seq<Event>)
    ensures Rush(found, asked, ip, first, n) + rest == Finds(found, ip, first, n) + (Asks(asked, first, n) + rest)
  {
  }

  lemma WaitPunctual(
    d: nat, ip: string, found: nat, asked: nat, first: nat, n: nat, rest: seq<Event>, from: nat)
    requires from <= found <= asked <= found + d && Punctual(d, map[], rest, asked)
    ensures Punctual(d, Waiters(first, 0, found), Finds(found, ip, first + 0, n) + (Asks(asked, first, n) + rest), from)
  {
    AsksPunctual(d, asked, first, n, found, rest, found);
    FindsPunctual(d, ip, found, first, 0, n, Asks(asked, first, n) + rest, from);
  }

  lemma RushPunctual(
    d: nat, ip: string, found: nat, asked: nat, first: nat, n: nat, rest: seq<Event>, from: nat)
    requires from <= found <= asked <= found + d && Punctual(d, map[], rest, asked)
    ensures Punctual(d, map[], Rush(found, asked, ip, first, n) + rest, from)
  {
    WaitPunctual(d, ip, found, asked, first, n, rest, from);
    WaitersGrow(first, 0, found);
    RushTail(found, asked, ip, first, n, rest);
  }

  lemma EvictionShows(c: Tier, d: nat, ip: string)
    requires !FillsWhileIdle(c, d)
    ensures Punctual(d, map[], DrainTwice(c, d, ip), 0)
    ensures Run(c, true, Start, DrainTwice(c, d, ip)) != Run(c, false, Start, DrainTwice(c, d, ip))
  {
    var late := IDLE + 1;
    var second := Rush(late, late, ip, c.burst, c.burst);
    RushPunctual(d, ip, late, late, c.burst, c.burst, [], late);
    assert second + [] == second;
    PunctualCons(d, map[], Sweep(late), second, Min(d, late));
    RushPunctual(d, ip, 0, Min(d, late), 0, c.burst, [Sweep(late)] + second, 0);
    DrainTwiceDecides(c, d, true, ip);
    DrainTwiceDecides(c, d, false, ip);
  }
}

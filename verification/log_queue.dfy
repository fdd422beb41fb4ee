/** The bounded queue between log calls and the database writer, and its shutdown, step by step.

    Log calls, Stop calls and the writer interleave freely; each atomic load, store, send, close and
    receive is one step.  A step that is not enabled changes nothing, so any list of steps is a run. */
module LogQueue {
  import opened LogAttrs
  import opened Wrappers

  const BUFFER_SIZE: nat := 512

  datatype Record = Record(ts: int, level: int, msg: string, attrs: Flat)

  /** How far the one Stop that sync.Once lets through has come. */
  datatype Once = Fresh | Entered(stop: nat) | Marked(stop: nat) | Over

  /** What all handlers and the writer share. */
  datatype Shared = Shared(
    once: Once,
    stopped: bool,
    queue: seq<Record>,
    closed: bool,
    writing: Option<Record>,   // received by the writer, not yet inserted
    inserted: seq<Record>,
    done: bool)

  const Initial := Shared(Fresh, false, [], false, None, [], false)

  datatype Outcome = Ignored | Queued | Dropped | Panicked

  /** The select in Handle: a send on a closed channel panics, and a full one drops. */
  function TrySend(sh: Shared, rec: Record): (Shared, Outcome) {
    if sh.closed then (sh, Panicked)
    else if |sh.queue| < BUFFER_SIZE then (sh.(queue := sh.queue + [rec]), Queued)
    else (sh, Dropped)
  }

  function EnterOnce(sh: Shared, stop: nat): Shared {
    if sh.once == Fresh then sh.(once := Entered(stop)) else sh
  }

  function StoreStopped(sh: Shared, stop: nat): Shared {
    if sh.once == Entered(stop) then sh.(once := Marked(stop), stopped := true) else sh
  }

  function CloseQueue(sh: Shared, stop: nat): Shared {
    if sh.once == Marked(stop) then sh.(once := Over, closed := true) else sh
  }

  /** The writer: take the head, insert it, and announce the end of a closed and empty channel. */
  predicate WriterEnabled(sh: Shared) {
    !sh.done && (sh.writing.Some? || sh.queue != [] || sh.closed)
  }

  function WriterStep(sh: Shared): Shared {
    if sh.done then sh
    else if sh.writing.Some? then sh.(writing := None, inserted := sh.inserted + [sh.writing.value])
    else if sh.queue != [] then sh.(writing := Some(sh.queue[0]), queue := sh.queue[1..])
    else if sh.closed then sh.(done := true)
    else sh
  }

  // ----- whole runs -----

  datatype Phase =
    | Building(rec: Record)   // passed the first check of the stop flag
    | Sending(rec: Record)    // passed the second
    | Returned(outcome: Outcome)

  datatype Step =
    | Begin(call: nat, rec: Record)
    | Recheck(call: nat)
    | Send(call: nat)
    | Enter(stop: nat)
    | Mark(stop: nat)
    | Close(stop: nat)
    | Writer

  datatype State = State(sh: Shared, calls: map<nat, Phase>, accepted: seq<Record>, closes: nat)

  const Start := State(Initial, map[], [], 0)

  ghost predicate In(s: State, call: nat, phase: Phase) {
    call in s.calls && s.calls[call] == phase
  }

  function Apply(s: State, step: Step): State {
    match step
    case Begin(call, rec) =>
      if call in s.calls then s
      else s.(calls := s.calls[call := if s.sh.stopped then Returned(Ignored) else Building(rec)])
    case Recheck(call) =>
      if call in s.calls && s.calls[call].Building? then
        s.(calls := s.calls[call := if s.sh.stopped then Returned(Ignored) else Sending(s.calls[call].rec)])
      else s
    case Send(call) =>
      if call in s.calls && s.calls[call].Sending? then
        var (sh, outcome) := TrySend(s.sh, s.calls[call].rec);
        State(sh, s.calls[call := Returned(outcome)],
              if outcome == Queued then s.accepted + [s.calls[call].rec] else s.accepted, s.closes)
      else s
    case Enter(stop) => s.(sh := EnterOnce(s.sh, stop))
    case Mark(stop) => s.(sh := StoreStopped(s.sh, stop))
    case Close(stop) => s.(sh := CloseQueue(s.sh, stop), closes := s.closes + if s.sh.once == Marked(stop) then 1 else 0)
    case Writer => s.(sh := WriterStep(s.sh))
  }

  /** The state after the first k steps. */
  function At(steps: seq<Step>, k: nat): State
    requires k <= |steps|
  {
    if k == 0 then Start else Apply(At(steps, k - 1), steps[k - 1])
  }

  // ----- what every step keeps -----

  function InHand(writing: Option<Record>): seq<Record> {
    if writing.Some? then [writing.value] else []
  }

  ghost predicate SharedInv(sh: Shared) {
    && |sh.queue| <= BUFFER_SIZE
    && (sh.stopped <==> sh.once.Marked? || sh.once.Over?)
    && (sh.closed <==> sh.once.Over?)
    && (sh.done ==> sh.closed && sh.queue == [] && sh.writing == None)
  }

  ghost predicate Inv(s: State) {
    && SharedInv(s.sh)
    && s.accepted == s.sh.inserted + InHand(s.sh.writing) + s.sh.queue
    && s.closes == (if s.sh.closed then 1 else 0)
  }

  lemma WriterKeeps(s: State)
    requires Inv(s)
    ensures Inv(Apply(s, Writer))
  {
    var sh := s.sh;
    if !sh.done && sh.writing.None? && sh.queue != [] {
      assert sh.queue == [sh.queue[0]] + sh.queue[1..];
    }
  }

  lemma ApplyKeeps(s: State, step: Step)
    requires Inv(s)
    ensures Inv(Apply(s, step))
  {
    if step.Writer? {
      WriterKeeps(s);
    }
  }

  /** In every interleaving: the records inserted, in the writer's hand and queued are the accepted ones in
      order; the queue never holds more than its size; the channel is closed at most once; and once the
      writer is done every accepted record has been inserted. */
  lemma {:induction false} QueueProtocol(steps: seq<Step>, k: nat)
    requires k <= |steps|
    ensures Inv(At(steps, k))
    ensures var s := At(steps, k);
      && s.accepted == s.sh.inserted + (if s.sh.writing.Some? then [s.sh.writing.value] else []) + s.sh.queue
      && |s.sh.queue| <= 512 && s.closes <= 1 && (s.sh.done ==> s.sh.inserted == s.accepted)
  {
    if k == 0 {
    } else {
      QueueProtocol(steps, k - 1);
      ApplyKeeps(At(steps, k - 1), steps[k - 1]);
    }
  }

  // ----- who sends, drops and panics -----

  lemma {:induction false} FlagsStay(steps: seq<Step>, i: nat, k: nat)
    requires i <= k <= |steps|
    ensures At(steps, i).sh.stopped ==> At(steps, k).sh.stopped
    ensures At(steps, i).sh.closed ==> At(steps, k).sh.closed
    decreases k
  {
    if i == k {
    } else {
      FlagsStay(steps, i, k - 1);
    }
  }

  lemma {:induction false} ReturnedStays(steps: seq<Step>, i: nat, k: nat, call: nat, outcome: Outcome)
    requires i <= k <= |steps| && In(At(steps, i), call, Returned(outcome))
    ensures In(At(steps, k), call, Returned(outcome))
    decreases k
  {
    if i == k {
    } else {
      ReturnedStays(steps, i, k - 1, call, outcome);
    }
  }

  /** Step i is the second check of a call, and it passes. */
  ghost predicate Passes(steps: seq<Step>, i: nat, call: nat) {
    && i < |steps| && steps[i] == Recheck(call) && !At(steps, i).sh.stopped
    && call in At(steps, i).calls && At(steps, i).calls[call].Building?
  }

  /** Step j stores the stop flag, or closes the channel. */
  ghost predicate Stores(steps: seq<Step>, j: nat) {
    j < |steps| && !At(steps, j).sh.stopped && At(steps, j + 1).sh.stopped
  }

  ghost predicate Closes(steps: seq<Step>, j: nat) {
    j < |steps| && !At(steps, j).sh.closed && At(steps, j + 1).sh.closed
  }

  /** Step k is a call's send. */
  ghost predicate Sends(steps: seq<Step>, k: nat, call: nat) {
    k < |steps| && steps[k] == Send(call) && call in At(steps, k).calls && At(steps, k).calls[call].Sending?
  }

  lemma {:induction false} WhenPassed(steps: seq<Step>, k: nat, call: nat) returns (i: nat)
    requires k <= |steps| && call in At(steps, k).calls && At(steps, k).calls[call].Sending?
    ensures i < k && Passes(steps, i, call)
  {
    var before := At(steps, k - 1);
    if call in before.calls && before.calls[call].Sending? {
      i := WhenPassed(steps, k - 1, call);
    } else {
      i := k - 1;
    }
  }

  lemma {:induction false} WhenSent(steps: seq<Step>, k: nat, call: nat, outcome: Outcome) returns (i: nat)
    requires k <= |steps| && In(At(steps, k), call, Returned(outcome)) && outcome != Ignored
    ensures i < k && Sends(steps, i, call) && outcome == TrySend(At(steps, i).sh, At(steps, i).calls[call].rec).1
  {
    if In(At(steps, k - 1), call, Returned(outcome)) {
      i := WhenSent(steps, k - 1, call, outcome);
    } else {
      i := k - 1;
    }
  }

  lemma {:induction false} WhenStored(steps: seq<Step>, k: nat) returns (j: nat)
    requires k <= |steps| && At(steps, k).sh.stopped
    ensures j < k && Stores(steps, j)
  {
    j := k - 1;
    if At(steps, k - 1).sh.stopped {
      j := WhenStored(steps, k - 1);
    }
  }

  lemma {:induction false} WhenClosed(steps: seq<Step>, k: nat) returns (j: nat)
    requires k <= |steps| && At(steps, k).sh.closed
    ensures j < k && Closes(steps, j)
  {
    j := k - 1;
    if At(steps, k - 1).sh.closed {
      j := WhenClosed(steps, k - 1);
    }
  }

  /** The check, the store, the close and the send of a call, in this order. */
  ghost predicate Races(steps: seq<Step>, i: nat, j: nat, l: nat, k: nat, call: nat) {
    i < j < l < k && Passes(steps, i, call) && Stores(steps, j) && Closes(steps, l) && Sends(steps, k, call)
  }

  lemma PanicRaces(steps: seq<Step>, call: nat) returns (i: nat, j: nat, l: nat, k: nat)
    requires In(At(steps, |steps|), call, Returned(Panicked))
    ensures Races(steps, i, j, l, k, call)
  {
    k := WhenSent(steps, |steps|, call, Panicked);
    i := WhenPassed(steps, k, call);
    l := WhenClosed(steps, k);
    StoppedBeforeClose(steps, l);
    j := WhenStored(steps, l);
    if j < i {
      FlagsStay(steps, j + 1, i);
    }
  }

  lemma StoppedBeforeClose(steps: seq<Step>, l: nat)
    requires Closes(steps, l)
    ensures At(steps, l).sh.stopped
  {
    QueueProtocol(steps, l);
  }

  lemma LateSendPanics(steps: seq<Step>, l: nat, k: nat, call: nat)
    requires l <= k < |steps| && At(steps, l).sh.closed && Sends(steps, k, call)
    ensures In(At(steps, |steps|), call, Returned(Panicked))
  {
    FlagsStay(steps, l, k);
    SendOnClosed(steps, k, call);
    ReturnedStays(steps, k + 1, |steps|, call, Panicked);
  }

  lemma SendOnClosed(steps: seq<Step>, k: nat, call: nat)
    requires Sends(steps, k, call) && At(steps, k).sh.closed
    ensures In(At(steps, k + 1), call, Returned(Panicked))
  {
  }

  /** A call sends on the closed channel if and only if its second check came before the flag was stored
      and its send after the close: the recheck narrows the window and does not shut it. */
  lemma PanicExactly(steps: seq<Step>, call: nat)
    ensures In(At(steps, |steps|), call, Returned(Panicked))
            <==> exists i: nat, j: nat, l: nat, k: nat :: Races(steps, i, j, l, k, call)
  {
    if In(At(steps, |steps|), call, Returned(Panicked)) {
      var i, j, l, k := PanicRaces(steps, call);
    }
    if i: nat, j: nat, l: nat, k: nat :| Races(steps, i, j, l, k, call) {
      LateSendPanics(steps, l + 1, k, call);
    }
  }

  lemma Next(steps: seq<Step>, k: nat)
    requires k < |steps|
    ensures At(steps, k + 1) == Apply(At(steps, k), steps[k])
  {
  }

  /** Such a run exists: one call, one Stop, and the send last. */
  lemma PanicHappens(rec: Record)
    ensures var steps := [Begin(0, rec), Recheck(0), Enter(0), Mark(0), Close(0), Send(0)];
      In(At(steps, |steps|), 0, Returned(Panicked))
  {
    var steps := [Begin(0, rec), Recheck(0), Enter(0), Mark(0), Close(0), Send(0)];
    var sending := map[0 := Sending(rec)];
    Next(steps, 0);
    Next(steps, 1);
    assert At(steps, 2) == State(Initial, sending, [], 0);
    Next(steps, 2);
    Next(steps, 3);
    Next(steps, 4);
    assert At(steps, 5) == State(Initial.(once := Over, stopped := true, closed := true), sending, [], 1);
    Next(steps, 5);
  }

  /** A call that passes both checks and sends while the channel is open loses its record only when the
      queue is full. */
  lemma DroppedOnlyWhenFull(steps: seq<Step>, k: nat, call: nat)
    requires Sends(steps, k, call) && !At(steps, k).sh.closed
    ensures In(At(steps, |steps|), call, Returned(Dropped)) <==> |At(steps, k).sh.queue| == 512
    ensures In(At(steps, |steps|), call, Returned(Queued)) <==> |At(steps, k).sh.queue| < 512
  {
    QueueProtocol(steps, k);
    ReturnedStays(steps, k + 1, |steps|, call, TrySend(At(steps, k).sh, At(steps, k).calls[call].rec).1);
  }

  /** A call that begins after the flag is stored never sends. */
  lemma LateCallsAreIgnored(steps: seq<Step>, b: nat, k: nat, call: nat, rec: Record)
    requires b < k <= |steps| && steps[b] == Begin(call, rec) && call !in At(steps, b).calls && At(steps, b).sh.stopped
    ensures In(At(steps, k), call, Returned(Ignored))
    ensures k < |steps| ==> !Sends(steps, k, call)
  {
    ReturnedStays(steps, b + 1, k, call, Ignored);
  }

  // ----- draining -----

  /** The writer can move exactly when its step would change something; otherwise it waits, or is done. */
  lemma WriterMovesExactly(sh: Shared)
    requires SharedInv(sh)
    ensures WriterEnabled(sh) <==> WriterStep(sh) != sh
    ensures !WriterEnabled(sh) <==> sh.done || (sh.queue == [] && sh.writing == None && !sh.closed)
  {
    if sh.writing.None? && sh.queue != [] {
      assert |WriterStep(sh).queue| < |sh.queue|;
    }
  }

  /** What the writer has left to do once the channel is closed. */
  function Work(sh: Shared): nat {
    2 * |sh.queue| + |InHand(sh.writing)| + (if sh.done then 0 else 1)
  }

  function WriterMoves(steps: seq<Step>, i: nat, k: nat): nat
    requires i <= k <= |steps|
    decreases k
  {
    if i == k then 0
    else WriterMoves(steps, i, k - 1) + (if steps[k - 1].Writer? && WriterEnabled(At(steps, k - 1).sh) then 1 else 0)
  }

  lemma WorkLeft(s: State, step: Step)
    requires Inv(s) && s.sh.closed
    ensures var s' := Apply(s, step);
      Work(s.sh) == Work(s'.sh) + (if step.Writer? && WriterEnabled(s.sh) then 1 else 0)
    ensures (WriterEnabled(s.sh) <==> Work(s.sh) > 0) && (s.sh.done <==> Work(s.sh) == 0)
  {
  }

  lemma WorkAt(steps: seq<Step>, i: nat, k: nat)
    requires i < k <= |steps| && At(steps, i).sh.closed
    ensures Work(At(steps, k - 1).sh)
         == Work(At(steps, k).sh) + (if steps[k - 1].Writer? && WriterEnabled(At(steps, k - 1).sh) then 1 else 0)
  {
    FlagsStay(steps, i, k - 1);
    QueueProtocol(steps, k - 1);
    WorkLeft(At(steps, k - 1), steps[k - 1]);
  }

  lemma {:induction false} WorkDone(steps: seq<Step>, i: nat, k: nat)
    requires i <= k <= |steps| && At(steps, i).sh.closed
    ensures WriterMoves(steps, i, k) + Work(At(steps, k).sh) == Work(At(steps, i).sh)
    decreases k
  {
    if i == k {
    } else {
      WorkAt(steps, i, k);
      WorkDone(steps, i, k - 1);
    }
  }

  /** After the close every move of the writer does one piece of the work left, and nothing adds to it;
      until the writer is done it can move.  So it is done after exactly that many moves. */
  lemma DrainTerminates(steps: seq<Step>, i: nat, k: nat)
    requires i <= k <= |steps| && At(steps, i).sh.closed
    ensures WriterMoves(steps, i, k) + Work(At(steps, k).sh) == Work(At(steps, i).sh)
    ensures var sh := At(steps, k).sh;
      (WriterEnabled(sh) <==> Work(sh) > 0) && (sh.done <==> Work(sh) == 0)
  {
    WorkDone(steps, i, k);
    FlagsStay(steps, i, k);
    QueueProtocol(steps, k);
    WorkLeft(At(steps, k), Writer);
  }
}

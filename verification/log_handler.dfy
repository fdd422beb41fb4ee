/** The log handlers as objects: derived handlers share attribute maps and one shutdown state. */
module LogHandler {
  import opened LogAttrs
  import opened LogQueue
  import opened Wrappers

  /** sharedStop: the shutdown flag, the once, the channel and the writer, for a whole family of handlers. */
  class SharedStop {
    var once: Once
    var stopped: bool
    var queue: seq<Record>
    var closed: bool
    var writing: Option<Record>
    var inserted: seq<Record>
    var done: bool

    function View(): Shared
      reads this
    {
      Shared(once, stopped, queue, closed, writing, inserted, done)
    }

    constructor ()
      ensures View() == Initial
    {
      once, stopped, queue, closed, writing, inserted, done := Fresh, false, [], false, None, [], false;
    }

    /** The non-blocking select in Handle. */
    method Offer(rec: Record) returns (outcome: Outcome)
      modifies this
      ensures (View(), outcome) == TrySend(old(View()), rec)
    {
      if closed {
        outcome := Panicked;
      } else if |queue| < BUFFER_SIZE {
        queue := queue + [rec];
        outcome := Queued;
      } else {
        outcome := Dropped;
      }
    }

    /** What a Stop call does of itself.  One that finds another inside the once, or the once done, does
        nothing: the first waits for the other, and neither closes the channel again. */
    method Stop(id: nat)
      requires SharedInv(View()) && once != Entered(id) && once != Marked(id)
      modifies this
      ensures View() == CloseQueue(StoreStopped(EnterOnce(old(View()), id), id), id)
      ensures SharedInv(View())
      ensures old(once) == Fresh || old(once) == Over ==> stopped && closed
      ensures old(once) != Fresh ==> View() == old(View())
    {
      if once == Fresh {
        once := Entered(id);
        stopped := true;
        once := Marked(id);
        closed := true;
        once := Over;
      }
    }

    /** The writer's loop as far as it gets with nothing else running: everything queued is handed over in
        order, and then it announces the end of a closed channel or waits on an open one. */
    method Run()
      requires SharedInv(View())
      modifies this
      ensures SharedInv(View()) && queue == [] && writing == None && done == closed
      ensures stopped == old(stopped) && once == old(once) && closed == old(closed)
      ensures inserted == old(inserted + InHand(writing) + queue)
    {
      if writing.Some? {
        inserted := inserted + [writing.value];
        writing := None;
      }
      while queue != []
        invariant SharedInv(View()) && writing == None && closed == old(closed)
        invariant stopped == old(stopped) && once == old(once)
        invariant inserted + queue == old(inserted + InHand(writing) + queue)
        decreases |queue|
      {
        ghost var all := inserted + queue;
        var rec := queue[0];
        queue := queue[1..];
        inserted := inserted + [rec];
        assert inserted + queue == all;
      }
      done := closed;
    }
  }

  /** A Go map of attributes: shared by reference. */
  class AttrMap {
    var entries: Flat

    constructor ()
      ensures entries == map[]
    {
      entries := map[];
    }

    /** Copy every entry of another map into this one. */
    method CopyFrom(source: AttrMap)
      requires source != this && entries == map[]
      modifies this
      ensures entries == source.entries
    {
      var keys := source.entries.Keys;
      while keys != {}
        invariant keys <= source.entries.Keys && entries.Keys == source.entries.Keys - keys
        invariant forall k :: k in entries ==> entries[k] == source.entries[k]
        decreases |keys|
      {
        var k :| k in keys;
        entries := entries[k := source.entries[k]];
        keys := keys - {k};
      }
    }

    /** resolveAttr. */
    method Resolve(group: string, a: Attr)
      modifies this
      ensures entries == Flatten(old(entries), group, a)
      decreases a
    {
      match a
      case Group(key, attrs) =>
        var sub := if group != "" then group + "." + key else key;
        for i := 0 to |attrs|
          invariant entries == FlattenAll(old(entries), sub, attrs[..i])
        {
          Resolve(sub, attrs[i]);
          OneMore(old(entries), sub, attrs, i);
        }
        assert attrs[..|attrs|] == attrs;
      case Leaf(key, value) =>
        entries := entries[(if group != "" then group + "." + key else key) := value];
    }

    method ResolveAll(group: string, attrs: seq<Attr>)
      modifies this
      ensures entries == FlattenAll(old(entries), group, attrs)
    {
      for i := 0 to |attrs|
        invariant entries == FlattenAll(old(entries), group, attrs[..i])
      {
        Resolve(group, attrs[i]);
        OneMore(old(entries), group, attrs, i);
      }
      assert attrs[..|attrs|] == attrs;
    }
  }

  lemma OneMore(m: Flat, group: string, attrs: seq<Attr>, i: nat)
    requires i < |attrs|
    ensures FlattenAll(m, group, attrs[..i + 1]) == Flatten(FlattenAll(m, group, attrs[..i]), group, attrs[i])
  {
    FlattenAppend(m, group, attrs[..i], [attrs[i]]);
    assert attrs[..i + 1] == attrs[..i] + [attrs[i]];
  }

  /** A log call's own part of a record; time 0 stands for an unset time. */
  datatype Message = Message(time: int, level: int, text: string, attrs: seq<Attr>)

  function Stamp(time: int, now: int): int {
    if time == 0 then now else time
  }

  class DBHandler {
    const minLevel: int
    const ss: SharedStop
    const preAttrs: AttrMap
    const preGroup: string

    constructor (minLevel: int, ss: SharedStop, preAttrs: AttrMap, preGroup: string)
      ensures this.minLevel == minLevel && this.ss == ss && this.preAttrs == preAttrs && this.preGroup == preGroup
    {
      this.minLevel, this.ss, this.preAttrs, this.preGroup := minLevel, ss, preAttrs, preGroup;
    }

    function View(): Handler
      reads preAttrs
    {
      Handler(preAttrs.entries, preGroup)
    }

    predicate Enabled(level: int) {
      level >= minLevel
    }

    function RecordOf(m: Message, now: int): Record
      reads preAttrs
    {
      Record(Stamp(m.time, now), m.level, m.text, Recorded(View(), m.attrs))
    }

    /** The first look at the stop flag, and the record built. */
    method Begin(m: Message, now: int) returns (rec: Option<Record>)
      ensures rec == if ss.stopped then None else Some(RecordOf(m, now))
    {
      if ss.stopped {
        return None;
      }
      var attrs := new AttrMap();
      attrs.CopyFrom(preAttrs);
      attrs.ResolveAll(preGroup, m.attrs);
      var ts := if m.time == 0 then now else m.time;
      rec := Some(Record(ts, m.level, m.text, attrs.entries));
    }

    /** The second look, whatever has happened to the shared state since the first, and the send. */
    method Finish(rec: Record) returns (outcome: Outcome)
      modifies ss
      ensures (ss.View(), outcome) ==
        if old(ss.stopped) then (old(ss.View()), Ignored) else TrySend(old(ss.View()), rec)
    {
      if ss.stopped {
        return Ignored;
      }
      outcome := ss.Offer(rec);
    }

    /** One log call with nothing else running between its looks at the flag. */
    method Handle(m: Message, now: int) returns (outcome: Outcome)
      modifies ss
      ensures (ss.View(), outcome) ==
        if old(ss.stopped) then (old(ss.View()), Ignored) else TrySend(old(ss.View()), RecordOf(m, now))
    {
      var rec := Begin(m, now);
      if rec.None? {
        return Ignored;
      }
      outcome := Finish(rec.value);
    }

    /** A new handler with its own map; this one, and everyone who shares its map, is untouched. */
    method WithAttrs(attrs: seq<Attr>) returns (h: DBHandler)
      ensures fresh(h) && fresh(h.preAttrs) && h.ss == ss && h.minLevel == minLevel
      ensures h.View() == Derive(View(), Op.WithAttrs(attrs))
    {
      var merged := new AttrMap();
      merged.CopyFrom(preAttrs);
      merged.ResolveAll(preGroup, attrs);
      h := new DBHandler(minLevel, ss, merged, preGroup);
    }

    /** A new handler that shares this one's map. */
    method WithGroup(name: string) returns (h: DBHandler)
      ensures fresh(h) && h.preAttrs == preAttrs && h.ss == ss && h.minLevel == minLevel
      ensures h.View() == Derive(View(), Op.WithGroup(name))
    {
      var prefix := name;
      if preGroup != "" {
        prefix := preGroup + "." + name;
      }
      h := new DBHandler(minLevel, ss, preAttrs, prefix);
    }
  }

  // ----- any use of a family of handlers -----

  /** Derive a handler from an earlier one, or log with it. */
  datatype Use =
    | Derivation(parent: nat, op: Op)
    | Logging(parent: nat, message: Message, now: int)

  /** What the handlers of a family hold if nobody ever interferes. */
  function Family(views: seq<Handler>, uses: seq<Use>): seq<Handler> {
    if uses == [] then views
    else
      var before := Family(views, uses[..|uses| - 1]);
      var u := uses[|uses| - 1];
      if u.Derivation? && u.parent < |before| then before + [Derive(before[u.parent], u.op)] else before
  }

  /** Over any tree of derivations and any logging in between, every handler ends up holding what its own
      chain says: no use of one handler shows in a parent, a child or a sibling. */
  method UseFamily(root: DBHandler, uses: seq<Use>) returns (family: seq<DBHandler>)
    modifies root.ss
    ensures |family| == |Family([root.View()], uses)|
    ensures forall i :: 0 <= i < |family| ==>
      family[i].View() == Family([root.View()], uses)[i] && family[i].ss == root.ss
    ensures root.View() == old(root.View())
  {
    family := [root];
    for n := 0 to |uses|
      invariant |family| == |Family([root.View()], uses[..n])|
      invariant forall i :: 0 <= i < |family| ==>
        family[i].View() == Family([root.View()], uses[..n])[i] && family[i].ss == root.ss
      invariant root.View() == old(root.View())
    {
      var u := uses[n];
      assert uses[..n + 1][..n] == uses[..n] && uses[..n + 1][n] == u;
      if u.parent < |family| {
        match u
        case Derivation(parent, op) =>
          var child;
          match op {
            case WithAttrs(attrs) => child := family[parent].WithAttrs(attrs);
            case WithGroup(name) => child := family[parent].WithGroup(name);
          }
          family := family + [child];
        case Logging(parent, message, now) =>
          var _ := family[parent].Handle(message, now);
      }
    }
    assert uses[..|uses|] == uses;
  }

  /** The chain of derivations that leads to each handler of a family. */
  function Chains(uses: seq<Use>): seq<seq<Op>> {
    if uses == [] then [[]]
    else
      var before := Chains(uses[..|uses| - 1]);
      var u := uses[|uses| - 1];
      if u.Derivation? && u.parent < |before| then before + [before[u.parent] + [u.op]] else before
  }

  lemma {:induction false} DeriveLast(h: Handler, ops: seq<Op>, op: Op)
    ensures DeriveAll(h, ops + [op]) == Derive(DeriveAll(h, ops), op)
    decreases |ops|
  {
    if ops == [] {
    } else {
      assert (ops + [op])[1..] == ops[1..] + [op];
      DeriveLast(Derive(h, ops[0]), ops[1..], op);
    }
  }

  lemma {:induction false} FamilyFollowsChains(uses: seq<Use>)
    ensures |Family([Root], uses)| == |Chains(uses)|
    ensures forall i :: 0 <= i < |Chains(uses)| ==> Family([Root], uses)[i] == DeriveAll(Root, Chains(uses)[i])
  {
    if uses == [] {
    } else {
      FamilyFollowsChains(uses[..|uses| - 1]);
      var before := Chains(uses[..|uses| - 1]);
      var u := uses[|uses| - 1];
      if u.Derivation? && u.parent < |before| {
        DeriveLast(Root, before[u.parent], u.op);
      }
    }
  }

  /** So each handler of a family records the one-pass flattening of its own chain's tree. */
  lemma FamilyRecords(uses: seq<Use>, i: nat, attrs: seq<Attr>)
    requires i < |Chains(uses)|
    ensures i < |Family([Root], uses)|
    ensures Recorded(Family([Root], uses)[i], attrs) == Write(map[], Leaves([], Nest(Chains(uses)[i], attrs)))
  {
    FamilyFollowsChains(uses);
    ChainIndependent(Chains(uses)[i], attrs);
  }

  // ----- fan-out -----

  /** What one handler offers, and to which queue. */
  datatype Offering = Offering(queue: SharedStop, rec: Option<Record>)

  /** One queue after an offering: a stopped family ignores it. */
  function Take(q: SharedStop, sh: Shared, o: Offering): Shared {
    if o.queue == q && o.rec.Some? && !sh.stopped then TrySend(sh, o.rec.value).0 else sh
  }

  /** What the queue q makes of the first n offerings, in turn. */
  function TakeAll(q: SharedStop, sh: Shared, offerings: seq<Offering>, n: nat): Shared
    requires n <= |offerings|
  {
    if n == 0 then sh else Take(q, TakeAll(q, sh, offerings, n - 1), offerings[n - 1])
  }

  class MultiHandler {
    const handlers: seq<DBHandler>

    constructor (handlers: seq<DBHandler>)
      ensures this.handlers == handlers
    {
      this.handlers := handlers;
    }

    ghost function Maps(): set<AttrMap> {
      set h | h in handlers :: h.preAttrs
    }

    ghost function Stops(): set<SharedStop> {
      set h | h in handlers :: h.ss
    }

    method Enabled(level: int) returns (r: bool)
      ensures r <==> exists i :: 0 <= i < |handlers| && handlers[i].minLevel <= level
    {
      for i := 0 to |handlers|
        invariant forall j :: 0 <= j < i ==> level < handlers[j].minLevel
      {
        if handlers[i].Enabled(level) {
          return true;
        }
      }
      r := false;
    }

    ghost function OfferingOf(i: nat, m: Message, now: int): Offering
      requires i < |handlers|
      reads handlers[i].preAttrs
    {
      Offering(handlers[i].ss, if handlers[i].minLevel <= m.level then Some(handlers[i].RecordOf(m, now)) else None)
    }

    ghost function Offerings(m: Message, now: int): (r: seq<Offering>)
      reads Maps()
      ensures |r| == |handlers| && forall i :: 0 <= i < |r| ==> r[i] == OfferingOf(i, m, now)
    {
      seq(|handlers|, i requires 0 <= i < |handlers| reads Maps() => OfferingOf(i, m, now))
    }

    /** One turn of the fan-out. */
    method HandleOne(i: nat, m: Message, now: int)
      requires i < |handlers|
      modifies handlers[i].ss
      ensures handlers[i].ss.View() == Take(handlers[i].ss, old(handlers[i].ss.View()), OfferingOf(i, m, now))
    {
      var h := handlers[i];
      if h.Enabled(m.level) {
        var _ := h.Handle(m, now);
      }
    }

    /** Every enabled handler offers the record, with its own attributes, to its own queue. */
    method Handle(m: Message, now: int)
      modifies Stops()
      ensures forall q :: q in Stops() ==> q.View() == TakeAll(q, old(q.View()), old(Offerings(m, now)), |handlers|)
    {
      ghost var offerings, before := Offerings(m, now), map q | q in Stops() :: q.View();
      for i := 0 to |handlers|
        invariant forall j :: 0 <= j < |handlers| ==> offerings[j] == OfferingOf(j, m, now)
        invariant forall q :: q in Stops() ==> q.View() == TakeAll(q, before[q], offerings, i)
      {
        assert handlers[i].ss in Stops();
        HandleOne(i, m, now);
      }
    }

    /** Deriving the fan-out derives each handler. */
    method WithAttrs(attrs: seq<Attr>) returns (r: MultiHandler)
      ensures fresh(r) && |r.handlers| == |handlers|
      ensures forall i :: 0 <= i < |handlers| ==>
        && r.handlers[i].View() == Derive(handlers[i].View(), Op.WithAttrs(attrs))
        && r.handlers[i].ss == handlers[i].ss && r.handlers[i].minLevel == handlers[i].minLevel
    {
      var next: seq<DBHandler> := [];
      for i := 0 to |handlers|
        invariant |next| == i
        invariant forall j :: 0 <= j < i ==>
          && next[j].View() == Derive(handlers[j].View(), Op.WithAttrs(attrs))
          && next[j].ss == handlers[j].ss && next[j].minLevel == handlers[j].minLevel
      {
        var h := handlers[i].WithAttrs(attrs);
        next := next + [h];
      }
      r := new MultiHandler(next);
    }

    method WithGroup(name: string) returns (r: MultiHandler)
      ensures fresh(r) && |r.handlers| == |handlers|
      ensures forall i :: 0 <= i < |handlers| ==>
        && r.handlers[i].View() == Derive(handlers[i].View(), Op.WithGroup(name))
        && r.handlers[i].ss == handlers[i].ss && r.handlers[i].minLevel == handlers[i].minLevel
    {
      var next: seq<DBHandler> := [];
      for i := 0 to |handlers|
        invariant |next| == i
        invariant forall j :: 0 <= j < i ==>
          && next[j].View() == Derive(handlers[j].View(), Op.WithGroup(name))
          && next[j].ss == handlers[j].ss && next[j].minLevel == handlers[j].minLevel
      {
        var h := handlers[i].WithGroup(name);
        next := next + [h];
      }
      r := new MultiHandler(next);
    }
  }

  // ----- the fan-out along any chain of derivations -----

  /** Deriving the fan-out along a chain derives each of its handlers along that chain. */
  method DeriveFanOut(m: MultiHandler, ops: seq<Op>) returns (r: MultiHandler)
    ensures |r.handlers| == |m.handlers|
    ensures forall i :: 0 <= i < |r.handlers| ==>
      && r.handlers[i].View() == DeriveAll(m.handlers[i].View(), ops)
      && r.handlers[i].ss == m.handlers[i].ss && r.handlers[i].minLevel == m.handlers[i].minLevel
  {
    r := m;
    for n := 0 to |ops|
      invariant |r.handlers| == |m.handlers|
      invariant forall i :: 0 <= i < |r.handlers| ==>
        && r.handlers[i].View() == DeriveAll(m.handlers[i].View(), ops[..n])
        && r.handlers[i].ss == m.handlers[i].ss && r.handlers[i].minLevel == m.handlers[i].minLevel
    {
      forall i | 0 <= i < |m.handlers|
        ensures DeriveAll(m.handlers[i].View(), ops[..n + 1])
          == Derive(DeriveAll(m.handlers[i].View(), ops[..n]), ops[n])
      {
        assert ops[..n + 1] == ops[..n] + [ops[n]];
        DeriveLast(m.handlers[i].View(), ops[..n], ops[n]);
      }
      match ops[n] {
        case WithAttrs(attrs) => r := r.WithAttrs(attrs);
        case WithGroup(name) => r := r.WithGroup(name);
      }
    }
    assert ops[..|ops|] == ops;
  }

  /** What a handler offers for a message logged through a chain of derivations, by the one-pass reference. */
  function Reference(h: DBHandler, ops: seq<Op>, m: Message, now: int): Offering {
    Offering(h.ss,
      if h.minLevel <= m.level
      then Some(Record(Stamp(m.time, now), m.level, m.text, Write(map[], Leaves([], Nest(ops, m.attrs)))))
      else None)
  }

  function References(handlers: seq<DBHandler>, ops: seq<Op>, m: Message, now: int): seq<Offering> {
    seq(|handlers|, i requires 0 <= i < |handlers| => Reference(handlers[i], ops, m, now))
  }

  /** Logging through any chain of derivations of a fan-out: every enabled handler offers its queue the
      one-pass, last-write-wins flattening of the whole attribute tree. */
  method LogThrough(m: MultiHandler, ops: seq<Op>, message: Message, now: int)
    requires forall i :: 0 <= i < |m.handlers| ==> m.handlers[i].View() == Root
    modifies m.Stops()
    ensures forall q :: q in m.Stops() ==>
      q.View() == TakeAll(q, old(q.View()), References(m.handlers, ops, message, now), |m.handlers|)
  {
    var r := DeriveFanOut(m, ops);
    assert forall i :: 0 <= i < |r.handlers| ==> r.handlers[i].ss == m.handlers[i].ss;
    assert r.Stops() == m.Stops() by {
      forall q | q in m.Stops() ensures q in r.Stops() {
        var i :| 0 <= i < |m.handlers| && m.handlers[i].ss == q;
        assert r.handlers[i] in r.handlers;
      }
    }
    ghost var references := References(m.handlers, ops, message, now);
    assert r.Offerings(message, now) == references by {
      forall i | 0 <= i < |r.handlers| ensures r.OfferingOf(i, message, now) == references[i] {
        ChainIndependent(ops, message.attrs);
      }
    }
    r.Handle(message, now);
  }

  /** A queue that only one handler of the fan-out feeds takes at most that handler's offering. */
  lemma {:induction false} OwnQueue(q: SharedStop, sh: Shared, offerings: seq<Offering>, i: nat, n: nat)
    requires i < |offerings| && n <= |offerings|
    requires forall j :: 0 <= j < |offerings| && j != i ==> offerings[j].queue != q
    ensures TakeAll(q, sh, offerings, n) == if i < n then Take(q, sh, offerings[i]) else sh
    decreases n
  {
    if n == 0 {
    } else {
      OwnQueue(q, sh, offerings, i, n - 1);
    }
  }

  /** Log one message through a fan-out, and see what becomes of one handler that has a queue of its own. */
  method LogToOwnQueue(m: MultiHandler, i: nat, message: Message, now: int)
    requires i < |m.handlers|
    requires forall j :: 0 <= j < |m.handlers| && j != i ==> m.handlers[j].ss != m.handlers[i].ss
    modifies m.Stops()
    ensures var h, ss := m.handlers[i], m.handlers[i].ss;
      if h.minLevel <= message.level && !old(ss.stopped) && !old(ss.closed) && |old(ss.queue)| < 512 then
        var time := if message.time == 0 then now else message.time;
        var attrs := FlattenAll(old(h.preAttrs.entries), h.preGroup, message.attrs);
        ss.queue == old(ss.queue) + [Record(time, message.level, message.text, attrs)]
      else
        ss.View() == old(ss.View())
  {
    ghost var h, ss := m.handlers[i], m.handlers[i].ss;
    ghost var offerings, before := m.Offerings(message, now), ss.View();
    assert offerings[i] == m.OfferingOf(i, message, now);
    assert ss in m.Stops();
    forall j | 0 <= j < |offerings| && j != i ensures offerings[j].queue != ss {
      assert offerings[j] == m.OfferingOf(j, message, now);
    }
    OwnQueue(ss, before, offerings, i, |offerings|);
    m.Handle(message, now);
    assert ss.View() == Take(ss, before, offerings[i]);
  }
}

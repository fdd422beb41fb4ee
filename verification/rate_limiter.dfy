/** The limiter's objects, with their fields updated in place, and the choice of the client's address. */
module RateLimiter {
  import opened TokenBucket
  import opened LimiterRuns
  import opened Wrappers

  /** golang.org/x/time/rate's limiter. */
  class Limiter {
    const tier: Tier
    var tokens: nat
    var last: nat

    constructor (tier: Tier)
      ensures this.tier == tier && Value() == Fresh(tier)
    {
      this.tier := tier;
      tokens := tier.Full();
      last := 0;
    }

    function Value(): Bucket
      reads this
    {
      Bucket(tokens, last)
    }

    method Allow(now: nat) returns (ok: bool)
      modifies this
      ensures (Value(), ok) == Take(tier, old(Value()), now)
    {
      var elapsed := if last <= now then now - last else 0;
      var level := tokens + tier.perMinute * elapsed;
      if tier.Full() < level {
        level := tier.Full();
      }
      ok := TOKEN <= level;
      if ok {
        tokens, last := level - TOKEN, now;
      }
    }
  }

  class IpLimiter {
    const limiter: Limiter
    var lastSeen: nat

    constructor (limiter: Limiter)
      ensures this.limiter == limiter
    {
      this.limiter := limiter;
      lastSeen := 0;
    }
  }

  datatype Response = Next | TooManyRequests(retryAfter: nat)

  class RateLimiter {
    const tier: Tier
    var limiters: map<string, IpLimiter>

    /** Every entry has a limiter of this tier, and no two entries share one. */
    ghost predicate Valid()
      reads this
    {
      && (forall ip :: ip in limiters ==> limiters[ip].limiter.tier == tier)
      && (forall ip, jp :: ip in limiters && jp in limiters && ip != jp ==>
            limiters[ip] != limiters[jp] && limiters[ip].limiter != limiters[jp].limiter)
    }

    ghost function Limiters(): set<Limiter>
      reads this
    {
      set ip | ip in limiters :: limiters[ip].limiter
    }

    /** What the objects hold, as a value. */
    ghost function Contents(): Table
      reads this, limiters.Values, Limiters()
    {
      map ip | ip in limiters :: Entry(limiters[ip].limiter.Value(), limiters[ip].lastSeen)
    }

    constructor (tier: Tier)
      ensures Valid() && this.tier == tier && Contents() == map[]
    {
      this.tier := tier;
      limiters := map[];
    }

    /** Add a full bucket for an address that has none. */
    method Create(ip: string)
      requires Valid() && ip !in limiters
      modifies this
      ensures Valid() && limiters.Keys == old(limiters.Keys) + {ip}
      ensures forall jp :: jp in old(limiters) ==> limiters[jp] == old(limiters[jp])
      ensures fresh(limiters[ip]) && fresh(limiters[ip].limiter)
      ensures limiters[ip].limiter.Value() == Fresh(tier)
    {
      var bucket := new Limiter(tier);
      var entry := new IpLimiter(bucket);
      limiters := limiters[ip := entry];
    }

    method GetLimiter(ip: string, now: nat) returns (limiter: Limiter)
      requires Valid()
      modifies this, limiters.Values
      ensures Valid() && ip in limiters && limiter == limiters[ip].limiter
      ensures Contents() == Lookup(tier, old(Contents()), ip, now)
      ensures fresh(limiter) || limiter in old(Limiters())
    {
      if ip !in limiters {
        Create(ip);
      }
      limiters[ip].lastSeen := now;
      limiter := limiters[ip].limiter;
    }

    /** Serve one request of a known address: pass it on or answer 429. */
    method Limit(ip: string, now: nat) returns (response: Response)
      requires Valid()
      modifies this, limiters.Values, Limiters()
      ensures Valid()
      ensures tier.perMinute == 0 ==> response == Next && Contents() == old(Contents())
      ensures tier.perMinute > 0 ==>
        var (table, ok) := Serve(tier, old(Contents()), ip, now);
        && Contents() == table
        && response == (if ok then Next else TooManyRequests(60 / tier.perMinute))
    {
      if tier.perMinute == 0 {
        return Next;
      }
      var limiter := GetLimiter(ip, now);
      var ok := Ask(limiter, now);
      response := if ok then Next else TooManyRequests(RetryAfterSeconds(tier.perMinute));
    }

    /** Ask a limiter that GetLimiter has handed out.  If the map still has it only its own entry changes;
        a sweep may have dropped it since, and then the map does not change at all. */
    method Ask(limiter: Limiter, now: nat) returns (ok: bool)
      requires Valid() && limiter.tier == tier
      modifies limiter
      ensures Valid() && (limiter.Value(), ok) == Take(tier, old(limiter.Value()), now)
      ensures forall ip :: ip in limiters && limiters[ip].limiter == limiter ==>
        Contents() == old(Contents())[ip := Entry(limiter.Value(), limiters[ip].lastSeen)]
      ensures limiter !in Limiters() ==> Contents() == old(Contents())
    {
      ok := limiter.Allow(now);
    }

    /** The loop of the cleanup goroutine: delete the entries idle past the cutoff, and nothing else. */
    method DeleteIdle(now: nat)
      modifies this
      ensures limiters.Keys <= old(limiters.Keys)
      ensures forall ip :: ip in limiters ==> limiters[ip] == old(limiters[ip])
      ensures forall ip :: ip in old(limiters) ==> (ip in limiters <==> now <= old(limiters[ip].lastSeen) + IDLE)
    {
      ghost var before := limiters;
      var rest := limiters.Keys;
      while rest != {}
        invariant rest <= limiters.Keys <= before.Keys
        invariant forall ip :: ip in limiters ==> limiters[ip] == before[ip]
        invariant forall ip :: ip in before.Keys - rest ==>
          (ip in limiters <==> now <= before[ip].lastSeen + IDLE)
        decreases |rest|
      {
        var ip :| ip in rest;
        if limiters[ip].lastSeen + IDLE < now {
          limiters := limiters - {ip};
        }
        rest := rest - {ip};
      }
    }

    /** One tick of the cleanup goroutine. */
    method Cleanup(now: nat)
      requires Valid()
      modifies this
      ensures Valid() && Contents() == Evict(old(Contents()), now)
    {
      ghost var before, was := limiters, Contents();
      DeleteIdle(now);
      KeptContents(was, before, now);
    }

    /** The entries looked up recently enough are the ones the sweep keeps. */
    lemma KeptContents(was: Table, before: map<string, IpLimiter>, now: nat)
      requires limiters.Keys <= before.Keys == was.Keys
      requires forall ip :: ip in limiters ==> limiters[ip] == before[ip]
      requires forall ip :: ip in before ==>
        was[ip] == Entry(before[ip].limiter.Value(), before[ip].lastSeen)
        && (ip in limiters <==> now <= before[ip].lastSeen + IDLE)
      ensures Contents() == Evict(was, now)
    {
    }
  }

  // ----- the client's address -----

  /** Go's unicode.IsSpace. */
  predicate IsSpace(ch: char) {
    ch in {'\t', '\n', '\U{0B}', '\U{0C}', '\r', ' ', '\U{85}', '\U{A0}', '\U{1680}', '\U{2028}', '\U{2029}',
           '\U{202F}', '\U{205F}', '\U{3000}'}
    || '\U{2000}' <= ch <= '\U{200A}'
  }

  function TrimSpace(s: string): string {
    if s == "" then ""
    else if IsSpace(s[0]) then TrimSpace(s[1..])
    else if IsSpace(s[|s| - 1]) then TrimSpace(s[..|s| - 1])
    else s
  }

  /** strings.Split on a comma: the pieces between the commas, always at least one. */
  function Split(s: string): (parts: seq<string>)
    ensures parts != []
  {
    if s == "" then [""]
    else
      var rest := Split(s[1..]);
      if s[0] == ',' then [""] + rest else [[s[0]] + rest[0]] + rest[1..]
  }

  function Join(parts: seq<string>): string
    requires parts != []
  {
    if |parts| == 1 then parts[0] else parts[0] + "," + Join(parts[1..])
  }

  function Canonical(parse: string -> Option<string>, host: string -> Option<string>, entry: string, remote: string)
    : string
  {
    match parse(TrimSpace(entry))
    case Some(ip) => ip
    case None => RemoteHost(host, remote)
  }

  function RemoteHost(host: string -> Option<string>, remote: string): string {
    match host(remote)
    case Some(ip) => ip
    case None => remote
  }

  /** `parse` is net.ParseIP followed by String, and `host` the address part net.SplitHostPort finds. */
  function ClientIP(trustProxy: bool, trustedProxies: int, forwarded: string, remote: string,
                    parse: string -> Option<string>, host: string -> Option<string>): string {
    if trustProxy && forwarded != "" then
      var parts := Split(forwarded);
      var hops := if trustedProxies <= 0 then 1 else trustedProxies;
      var index := |parts| - hops;
      if index >= 0 then Canonical(parse, host, parts[index], remote) else RemoteHost(host, remote)
    else
      RemoteHost(host, remote)
  }

  lemma {:induction false} SplitAppend(a: string, b: string)
    ensures Split(a + "," + b) == Split(a) + Split(b)
    decreases |a|
  {
    if a == "" {
      assert ("," + b)[1..] == b && a + "," + b == "," + b;
    } else {
      assert (a + "," + b)[1..] == a[1..] + "," + b;
      SplitAppend(a[1..], b);
    }
  }

  lemma {:induction false} SplitPiece(s: string)
    requires ',' !in s
    ensures Split(s) == [s]
    decreases |s|
  {
    if s == "" {
    } else {
      SplitPiece(s[1..]);
      assert s == [s[0]] + s[1..];
    }
  }

  /** Splitting undoes joining. */
  lemma {:induction false} SplitJoin(parts: seq<string>)
    requires parts != [] && forall p :: p in parts ==> ',' !in p
    ensures Split(Join(parts)) == parts
    decreases |parts|
  {
    SplitPiece(parts[0]);
    if |parts| <= 1 {
    } else {
      SplitJoin(parts[1..]);
      SplitAppend(parts[0], Join(parts[1..]));
      assert parts == [parts[0]] + parts[1..];
    }
  }

  lemma SpaceIs(ch: char)
    ensures IsSpace(ch) <==> ch in {
      '\t', '\n', '\U{0B}', '\U{0C}', '\r', ' ', '\U{85}', '\U{A0}', '\U{1680}', '\U{2000}', '\U{2001}', '\U{2002}',
      '\U{2003}', '\U{2004}', '\U{2005}', '\U{2006}', '\U{2007}', '\U{2008}', '\U{2009}', '\U{200A}', '\U{2028}',
      '\U{2029}', '\U{202F}', '\U{205F}', '\U{3000}'}
  {
  }

  lemma {:induction false} TrimSpaceIs(before: string, t: string, after: string)
    requires forall i :: 0 <= i < |before| ==> IsSpace(before[i])
    requires forall i :: 0 <= i < |after| ==> IsSpace(after[i])
    requires t == "" || (!IsSpace(t[0]) && !IsSpace(t[|t| - 1]))
    ensures TrimSpace(before + t + after) == t
    decreases |before| + |after|
  {
    var s := before + t + after;
    if before != "" {
      assert s[0] == before[0] && s[1..] == before[1..] + t + after;
      TrimSpaceIs(before[1..], t, after);
    } else if after == "" {
      assert s == t;
    } else if t == "" {
      assert s == after && s[0] == after[0] && s[1..] == before + t + after[1..];
      TrimSpaceIs(before, t, after[1..]);
    } else {
      assert s[0] == t[0] && s[|s| - 1] == after[|after| - 1];
      assert s[..|s| - 1] == before + t + after[..|after| - 1];
      TrimSpaceIs(before, t, after[..|after| - 1]);
    }
  }

  /** Without trust in a proxy, or without a header, the answer is the host of the remote address, and the
      remote text itself if it has none, whatever the header says. */
  lemma UntrustedIgnoresHeader(
    trustProxy: bool, trustedProxies: int, forwarded: string, remote: string,
    parse: string -> Option<string>, host: string -> Option<string>)
    requires !trustProxy || forwarded == ""
    ensures ClientIP(trustProxy, trustedProxies, forwarded, remote, parse, host)
      == if host(remote).Some? then host(remote).value else remote
  {
  }

  /** Behind k trusted proxies the answer is the address in the first of their k entries, white space around
      it left out, whatever header the client sent; the remote address if that is no address. */
  lemma TrustedTailDecides(
    trustedProxies: int, prefix: string, before: string, address: string, after: string, others: seq<string>,
    remote: string, parse: string -> Option<string>, host: string -> Option<string>)
    requires |others| + 1 == (if trustedProxies <= 0 then 1 else trustedProxies)
    requires ',' !in address && forall p :: p in others ==> ',' !in p
    requires forall i :: 0 <= i < |before + after| ==> (before + after)[i] in {' ', '\t'}
    requires address != "" && !IsSpace(address[0]) && !IsSpace(address[|address| - 1])
    ensures var tail := Join([before + address + after] + others);
      var answer :=
        if parse(address).Some? then parse(address).value
        else if host(remote).Some? then host(remote).value
        else remote;
      && ClientIP(true, trustedProxies, prefix + "," + tail, remote, parse, host) == answer
      && ClientIP(true, trustedProxies, tail, remote, parse, host) == answer
  {
    var entry := before + address + after;
    var tail := [entry] + others;
    SpacesAround(before, address, after);
    TrimSpaceIs(before, address, after);
    SplitJoin(tail);
    JoinNonEmpty(tail);
    SplitAppend(prefix, Join(tail));
    PicksEntry(trustedProxies, prefix + "," + Join(tail), Split(prefix), entry, others, remote, parse, host);
    PicksEntry(trustedProxies, Join(tail), [], entry, others, remote, parse, host);
  }

  lemma PicksEntry(
    trustedProxies: int, forwarded: string, earlier: seq<string>, entry: string, others: seq<string>,
    remote: string, parse: string -> Option<string>, host: string -> Option<string>)
    requires |others| + 1 == (if trustedProxies <= 0 then 1 else trustedProxies)
    requires forwarded != "" && Split(forwarded) == earlier + ([entry] + others)
    ensures ClientIP(true, trustedProxies, forwarded, remote, parse, host) == Canonical(parse, host, entry, remote)
  {
    assert (earlier + ([entry] + others))[|earlier|] == entry;
  }

  lemma SpacesAround(before: string, address: string, after: string)
    requires ',' !in address && forall i :: 0 <= i < |before + after| ==> (before + after)[i] in {' ', '\t'}
    ensures forall i :: 0 <= i < |before| ==> IsSpace(before[i])
    ensures forall i :: 0 <= i < |after| ==> IsSpace(after[i])
    ensures ',' !in before + address + after
  {
    forall i | 0 <= i < |before| ensures before[i] in {' ', '\t'} {
      assert (before + after)[i] == before[i];
    }
    forall i | 0 <= i < |after| ensures after[i] in {' ', '\t'} {
      assert (before + after)[|before| + i] == after[i];
    }
  }

  lemma JoinNonEmpty(parts: seq<string>)
    requires parts != [] && parts[0] != ""
    ensures Join(parts) != ""
  {
  }

  /** Fewer entries than trusted proxies: the header is not believed at all. */
  lemma ShortHeaderIgnored(
    trustedProxies: int, entries: seq<string>, remote: string,
    parse: string -> Option<string>, host: string -> Option<string>)
    requires entries != [] && |entries| < trustedProxies && forall p :: p in entries ==> ',' !in p
    ensures ClientIP(true, trustedProxies, Join(entries), remote, parse, host)
      == if host(remote).Some? then host(remote).value else remote
  {
    SplitJoin(entries);
  }
}

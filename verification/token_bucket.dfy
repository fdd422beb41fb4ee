/** The token bucket behind one client address, in exact arithmetic.

    Time is a whole number of nanoseconds since Go's zero time.  One token is TOKEN units, so that a tier
    of `perMinute` requests a minute accrues exactly `perMinute` units each nanosecond.  The bucket is
    the one golang.org/x/time/rate documents: it starts full, refills up to its burst, and a refused
    request is not charged. */
module TokenBucket {
  const SECOND: nat := 1_000_000_000
  const TOKEN: nat := 60_000_000_000
  const IDLE: nat := 600_000_000_000

  /** One rate-limited route: the sustained rate and the spike allowed above it. */
  datatype Tier = Tier(perMinute: nat, burst: nat) {
    function Full(): nat {
      burst * TOKEN
    }

    /** Units that arrive in `elapsed` nanoseconds. */
    function Accrued(elapsed: nat): nat {
      perMinute * elapsed
    }
  }

  datatype Bucket = Bucket(tokens: nat, last: nat)

  function Fresh(c: Tier): Bucket {
    Bucket(c.Full(), 0)
  }

  function Min(a: nat, b: nat): nat {
    if a <= b then a else b
  }

  /** What the bucket holds at `now`. */
  function Level(c: Tier, b: Bucket, now: nat): nat {
    Min(c.Full(), b.tokens + c.Accrued(if b.last <= now then now - b.last else 0))
  }

  /** One call of Allow: the bucket afterwards, and whether the request may pass. */
  function Take(c: Tier, b: Bucket, now: nat): (Bucket, bool) {
    var level := Level(c, b, now);
    if TOKEN <= level then (Bucket(level - TOKEN, now), true) else (b, false)
  }

  lemma AccruedAdds(c: Tier, a: nat, b: nat)
    ensures c.Accrued(a + b) == c.Accrued(a) + c.Accrued(b)
    ensures a <= b ==> c.Accrued(a) <= c.Accrued(b)
  {
    if a <= b {
      assert c.perMinute * b == c.perMinute * a + c.perMinute * (b - a);
    }
  }

  /** A bucket's future depends on its present level alone. */
  lemma LevelLater(c: Tier, b: Bucket, t: nat, u: nat)
    requires b.last <= t <= u
    ensures Level(c, b, u) == Min(c.Full(), Level(c, b, t) + c.Accrued(u - t))
  {
    AccruedAdds(c, t - b.last, u - t);
  }

  lemma TakeLevel(c: Tier, b: Bucket, now: nat)
    requires b.last <= now
    ensures var (b', ok) := Take(c, b, now);
      && (ok <==> TOKEN <= Level(c, b, now))
      && Level(c, b', now) == Level(c, b, now) - (if ok then TOKEN else 0)
      && b'.last <= now
  {
  }

  /** The bucket alone, with nobody else in the process: one decision for each request time. */
  function Solo(c: Tier, b: Bucket, times: seq<nat>): seq<bool>
    decreases |times|
  {
    if times == [] then []
    else
      var (b', ok) := Take(c, b, times[0]);
      [ok] + Solo(c, b', times[1..])
  }

  function Admitted(decisions: seq<bool>): nat {
    if decisions == [] then 0 else (if decisions[0] then 1 else 0) + Admitted(decisions[1..])
  }

  /** How many of them are admissions. */
  lemma {:induction false} AdmittedCounts(decisions: seq<bool>)
    ensures Admitted(decisions) == multiset(decisions)[true]
  {
    if decisions == [] {
    } else {
      AdmittedCounts(decisions[1..]);
      assert decisions == [decisions[0]] + decisions[1..];
    }
  }

  ghost predicate NonDecreasing(times: seq<nat>, from: nat) {
    times == [] || (from <= times[0] && NonDecreasing(times[1..], times[0]))
  }

  /** Over any requests up to `end`, the bucket admits no more than its level plus what arrives. */
  lemma {:induction false} SoloBound(c: Tier, b: Bucket, times: seq<nat>, start: nat, end: nat)
    requires b.last <= start <= end && NonDecreasing(times, start)
    requires times == [] || times[|times| - 1] <= end
    ensures Admitted(Solo(c, b, times)) * TOKEN <= Level(c, b, start) + c.Accrued(end - start)
    decreases |times|
  {
    if times == [] {
    } else {
      var t := times[0];
      LastIsLatest(times, start);
      LevelLater(c, b, start, t);
      TakeLevel(c, b, t);
      var (b', ok) := Take(c, b, t);
      SoloBound(c, b', times[1..], t, end);
      AccruedAdds(c, t - start, end - t);
      assert Solo(c, b, times)[1..] == Solo(c, b', times[1..]);
    }
  }

  lemma {:induction false} LastIsLatest(times: seq<nat>, from: nat)
    requires times != [] && NonDecreasing(times, from)
    ensures from <= times[0] <= times[|times| - 1]
  {
    if |times| <= 1 {
    } else {
      LastIsLatest(times[1..], times[0]);
    }
  }
}

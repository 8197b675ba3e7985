/** The per-address token bucket. Times are seconds as reals. */
module Limiter {
  import opened Octets

  datatype Ip = IpV4(v4: u32) | IpV6(high: u64, low: u64)

  datatype Bucket = Bucket(tokens: real, last: real)

  type Buckets = map<Ip, Bucket>

  /** One request. `clock(ip)` is the reading the cleanup takes for the bucket of
      `ip`; `now` is the reading taken after it. */
  datatype Request = Request(ip: Ip, clock: Ip -> real, now: real)

  const CLEANUP_ABOVE: nat := 65536
  const IDLE_SECONDS: real := 300.0

  function Min(a: real, b: real): real {
    if a <= b then a else b
  }

  /** A clock reading that lies in the past counts as no time. */
  function Elapsed(now: real, last: real): real {
    if last < now then now - last else 0.0
  }

  function Refill(b: Bucket, qps: real, now: real): real {
    Min(b.tokens + Elapsed(now, b.last) * qps, qps)
  }

  function Sweep(b: Buckets, clock: Ip -> real): Buckets {
    if |b| > CLEANUP_ABOVE then map ip | ip in b && Elapsed(clock(ip), b[ip].last) < IDLE_SECONDS :: b[ip] else b
  }

  /** One request against buckets that are never forgotten. */
  function Spend(b: Buckets, qps: real, ip: Ip, now: real): (Buckets, bool) {
    var tokens := Refill(if ip in b then b[ip] else Bucket(qps, now), qps, now);
    if tokens < 1.0 then (b[ip := Bucket(tokens, now)], false) else (b[ip := Bucket(tokens - 1.0, now)], true)
  }

  function Step(b: Buckets, qps: real, e: Request): (Buckets, bool) {
    if qps <= 0.0 then (b, true) else Spend(Sweep(b, e.clock), qps, e.ip, e.now)
  }

  class RateLimiter {
    const qps: real
    var buckets: Buckets

    constructor (configured: u32)
      ensures qps == (if configured == 0 then 1.0 else configured as real) && buckets == map[]
    {
      qps := if configured == 0 then 1.0 else configured as real;
      buckets := map[];
    }

    method Allow(ip: Ip, clock: Ip -> real, now: real) returns (allowed: bool)
      modifies this`buckets
      ensures (buckets, allowed) == Step(old(buckets), qps, Request(ip, clock, now))
    {
      if qps <= 0.0 {
        return true;
      }
      if |buckets| > CLEANUP_ABOVE {
        buckets := map i | i in buckets && Elapsed(clock(i), buckets[i].last) < IDLE_SECONDS :: buckets[i];
      }
      ghost var swept := buckets;
      if ip !in buckets {
        buckets := buckets[ip := Bucket(qps, now)];
      }
      var tokens := Refill(buckets[ip], qps, now);
      if tokens < 1.0 {
        buckets := buckets[ip := Bucket(tokens, now)];
        assert buckets == swept[ip := Bucket(tokens, now)];
        return false;
      }
      buckets := buckets[ip := Bucket(tokens - 1.0, now)];
      assert buckets == swept[ip := Bucket(tokens - 1.0, now)];
      allowed := true;
    }
  }

  // ---- runs ----------------------------------------------------------------

  function Run(b: Buckets, qps: real, es: seq<Request>): (res: (Buckets, seq<bool>))
    ensures |res.1| == |es|
    decreases |es|
  {
    if es == [] then (b, [])
    else
      var (b1, d) := Step(b, qps, es[0]);
      var (b2, ds) := Run(b1, qps, es[1..]);
      (b2, [d] + ds)
  }

  /** The reference: a limiter that never forgets a bucket. */
  function RunForever(b: Buckets, qps: real, es: seq<Request>): (ds: seq<bool>)
    ensures |ds| == |es|
    decreases |es|
  {
    if es == [] then []
    else
      var (b1, d) := Spend(b, qps, es[0].ip, es[0].now);
      [d] + RunForever(b1, qps, es[1..])
  }

  ghost predicate Timely(es: seq<Request>) {
    && (forall i, j :: 0 <= i <= j < |es| ==> es[i].now <= es[j].now)
    && (forall i, ip :: 0 <= i < |es| ==> es[i].clock(ip) <= es[i].now)
  }

  ghost predicate InRange(b: Buckets, qps: real) {
    forall ip :: ip in b ==> 0.0 <= b[ip].tokens <= qps
  }

  ghost predicate Past(b: Buckets, now: real) {
    forall ip :: ip in b ==> b[ip].last <= now
  }

  lemma TimelyTail(es: seq<Request>)
    requires Timely(es) && es != []
    ensures Timely(es[1..])
    ensures |es| > 1 ==> es[0].now <= es[1..][0].now
  {
    var t := es[1..];
    forall i, j | 0 <= i <= j < |t| ensures t[i].now <= t[j].now {
      assert t[i] == es[i + 1] && t[j] == es[j + 1];
    }
    forall i, ip | 0 <= i < |t| ensures t[i].clock(ip) <= t[i].now {
      assert t[i] == es[i + 1];
    }
  }

  lemma Positive(d: real, qps: real)
    requires d >= 0.0 && qps >= 1.0
    ensures d * qps >= d
  {
  }

  lemma RefillRange(b: Bucket, qps: real, now: real)
    requires qps >= 1.0 && 0.0 <= b.tokens <= qps
    ensures b.tokens <= Refill(b, qps, now) <= qps
  {
    Positive(Elapsed(now, b.last), qps);
  }

  /** Every reachable bucket holds between 0 and `qps` tokens. */
  lemma {:induction false} TokensStayInRange(b: Buckets, qps: real, es: seq<Request>)
    requires qps >= 1.0 && InRange(b, qps)
    ensures InRange(Run(b, qps, es).0, qps)
    decreases |es|
  {
    if es == [] {
    } else {
      SpendKeepsRange(Sweep(b, es[0].clock), qps, es[0].ip, es[0].now);
      TokensStayInRange(Step(b, qps, es[0]).0, qps, es[1..]);
    }
  }

  lemma SpendKeepsRange(b: Buckets, qps: real, ip: Ip, now: real)
    requires qps >= 1.0 && InRange(b, qps)
    ensures InRange(Spend(b, qps, ip, now).0, qps)
  {
    RefillRange(if ip in b then b[ip] else Bucket(qps, now), qps, now);
  }

  // ---- the cleanup ---------------------------------------------------------

  /** `a` is `b` without some buckets that have been idle long enough. */
  ghost predicate Forgot(a: Buckets, b: Buckets, since: real) {
    && (forall ip :: ip in a ==> ip in b && a[ip] == b[ip])
    && (forall ip :: ip in b && ip !in a ==> b[ip].last + IDLE_SECONDS <= since)
  }

  lemma ForgottenIsFull(b: Bucket, qps: real, now: real)
    requires qps >= 1.0 && 0.0 <= b.tokens && b.last + IDLE_SECONDS <= now
    ensures Refill(b, qps, now) == qps
  {
    assert (now - b.last) * qps >= qps by {
      assert (now - b.last - 1.0) * qps >= 0.0;
    }
  }

  lemma StepAgrees(a: Buckets, b: Buckets, qps: real, e: Request, since: real)
    requires qps >= 1.0 && InRange(b, qps) && Forgot(a, b, since) && since <= e.now
    requires forall ip :: e.clock(ip) <= e.now
    ensures Step(a, qps, e).1 == Spend(b, qps, e.ip, e.now).1
    ensures Forgot(Step(a, qps, e).0, Spend(b, qps, e.ip, e.now).0, e.now)
  {
    var swept := Sweep(a, e.clock);
    assert Forgot(swept, b, e.now);
    if e.ip in b && e.ip !in swept {
      ForgottenIsFull(b[e.ip], qps, e.now);
    }
  }

  lemma {:induction false} RunsAgree(a: Buckets, b: Buckets, qps: real, es: seq<Request>, since: real)
    requires qps >= 1.0 && InRange(b, qps) && Forgot(a, b, since) && Timely(es)
    requires es != [] ==> since <= es[0].now
    ensures Run(a, qps, es).1 == RunForever(b, qps, es)
    decreases |es|
  {
    if es == [] {
    } else {
      var e := es[0];
      StepAgrees(a, b, qps, e, since);
      SpendKeepsRange(b, qps, e.ip, e.now);
      TimelyTail(es);
      RunsAgree(Step(a, qps, e).0, Spend(b, qps, e.ip, e.now).0, qps, es[1..], e.now);
    }
  }

  /** The cleanup is invisible: over any requests with a clock that does not go
      back, from any addresses, the decisions are those of a limiter that never
      forgets a bucket. */
  lemma CleanupInvisible(qps: real, es: seq<Request>)
    requires qps >= 1.0 && Timely(es)
    ensures Run(map[], qps, es).1 == RunForever(map[], qps, es)
  {
    if es != [] {
      RunsAgree(map[], map[], qps, es, es[0].now);
    }
  }

  // ---- the bound -----------------------------------------------------------

  /** The tokens an address has at `now`. */
  function Level(b: Buckets, qps: real, ip: Ip, now: real): real {
    if ip in b then Refill(b[ip], qps, now) else qps
  }

  function Allowed(es: seq<Request>, ds: seq<bool>, ip: Ip): nat
    requires |es| == |ds|
  {
    if es == [] then 0 else (if es[0].ip == ip && ds[0] then 1 else 0) + Allowed(es[1..], ds[1..], ip)
  }

  /** The cleanup changes nobody's level. */
  lemma SweepKeepsLevels(b: Buckets, qps: real, clock: Ip -> real, now: real, ip: Ip)
    requires qps >= 1.0 && InRange(b, qps) && Past(b, now) && clock(ip) <= now
    ensures var swept := Sweep(b, clock);
      InRange(swept, qps) && Past(swept, now) && Level(swept, qps, ip, now) == Level(b, qps, ip, now)
  {
    hide Refill;
    if ip in b && ip !in Sweep(b, clock) {
      ForgottenIsFull(b[ip], qps, now);
    }
  }

  lemma SpendTakesToken(b: Buckets, qps: real, from: Ip, now: real, ip: Ip)
    requires qps >= 1.0 && InRange(b, qps) && Past(b, now)
    ensures var (b', allowed) := Spend(b, qps, from, now);
      && InRange(b', qps) && Past(b', now)
      && (allowed <==> Level(b, qps, from, now) >= 1.0)
      && Level(b', qps, ip, now) == Level(b, qps, ip, now) - (if allowed && ip == from then 1.0 else 0.0)
  {
    hide Refill;
    SpendKeepsRange(b, qps, from, now);
    var before := if from in b then b[from] else Bucket(qps, now);
    RefillRange(before, qps, now);
    RefillNow(qps, qps, now);
    var tokens := Refill(before, qps, now);
    RefillNow(tokens, qps, now);
    if tokens >= 1.0 {
      RefillNow(tokens - 1.0, qps, now);
    }
  }

  /** A bucket touched just now holds what it was left with. */
  lemma RefillNow(tokens: real, qps: real, now: real)
    requires 0.0 <= tokens <= qps
    ensures Refill(Bucket(tokens, now), qps, now) == tokens
  {
  }

  /** A request is allowed exactly when its address has a whole token, and takes
      one; no other address is affected, nor is anybody by the cleanup. */
  lemma StepTakesToken(b: Buckets, qps: real, e: Request, ip: Ip)
    requires qps >= 1.0 && InRange(b, qps) && Past(b, e.now)
    requires forall i :: e.clock(i) <= e.now
    ensures var (b', allowed) := Step(b, qps, e);
      && InRange(b', qps) && Past(b', e.now)
      && (allowed <==> Level(b, qps, e.ip, e.now) >= 1.0)
      && Level(b', qps, ip, e.now) == Level(b, qps, ip, e.now) - (if allowed && ip == e.ip then 1.0 else 0.0)
  {
    hide Level, Sweep, Spend, InRange, Past;
    SweepKeepsLevels(b, qps, e.clock, e.now, ip);
    SweepKeepsLevels(b, qps, e.clock, e.now, e.ip);
    SpendTakesToken(Sweep(b, e.clock), qps, e.ip, e.now, ip);
  }

  /** The tokens refilled from `t` to `now`. */
  function Earned(t: real, now: real, qps: real): real {
    (now - t) * qps
  }

  lemma EarnedAdds(t: real, u: real, now: real, qps: real)
    ensures Earned(t, now, qps) == Earned(t, u, qps) + Earned(u, now, qps)
  {
  }

  lemma EarnedRises(t: real, now: real, qps: real)
    requires qps >= 1.0 && t <= now
    ensures Earned(t, now, qps) >= 0.0
  {
    Positive(now - t, qps);
  }

  lemma RefillEarned(b: Bucket, qps: real, now: real)
    requires b.last <= now
    ensures Refill(b, qps, now) == Min(b.tokens + Earned(b.last, now, qps), qps)
  {
  }

  lemma LevelRises(b: Buckets, qps: real, ip: Ip, t: real, now: real)
    requires qps >= 1.0 && Past(b, t) && t <= now
    ensures Level(b, qps, ip, now) <= Level(b, qps, ip, t) + Earned(t, now, qps)
  {
    hide Refill, Earned;
    EarnedRises(t, now, qps);
    if ip in b {
      RefillEarned(b[ip], qps, now);
      RefillEarned(b[ip], qps, t);
      EarnedAdds(b[ip].last, t, now, qps);
    }
  }

  /** The tokens spent in a run come out of the level at its start and of the
      refill since. */
  lemma {:induction false} SpentIsCovered(b: Buckets, qps: real, es: seq<Request>, ip: Ip)
    requires qps >= 1.0 && InRange(b, qps) && Timely(es) && es != [] && Past(b, es[0].now)
    ensures Allowed(es, Run(b, qps, es).1, ip) as real
      <= Level(b, qps, ip, es[0].now) + Earned(es[0].now, es[|es| - 1].now, qps)
    decreases |es|
  {
    hide Level, Past, InRange, Timely, Step, Earned;
    var e, rest := es[0], es[1..];
    var (b1, d) := Step(b, qps, e);
    TimelyHere(es);
    StepTakesToken(b, qps, e, ip);
    var ds := Run(b, qps, es).1;
    assert ds[1..] == Run(b1, qps, rest).1;
    if rest == [] {
      LevelNotNegative(b1, qps, ip, e.now);
      EarnedRises(e.now, e.now, qps);
    } else {
      TimelyTail(es);
      PastLater(b1, e.now, rest[0].now);
      SpentIsCovered(b1, qps, rest, ip);
      LevelRises(b1, qps, ip, e.now, rest[0].now);
      EarnedAdds(e.now, rest[0].now, rest[|rest| - 1].now, qps);
    }
  }

  lemma TimelyHere(es: seq<Request>)
    requires Timely(es) && es != []
    ensures forall i :: es[0].clock(i) <= es[0].now
  {
  }

  lemma PastLater(b: Buckets, t: real, now: real)
    requires Past(b, t) && t <= now
    ensures Past(b, now)
  {
  }

  lemma LevelNotNegative(b: Buckets, qps: real, ip: Ip, now: real)
    requires qps >= 1.0 && InRange(b, qps)
    ensures 0.0 <= Level(b, qps, ip, now) <= qps
  {
    if ip in b {
      RefillRange(b[ip], qps, now);
    }
  }

  lemma {:induction false} RunInParts(b: Buckets, qps: real, before: seq<Request>, after: seq<Request>)
    ensures Run(b, qps, before + after).1
      == Run(b, qps, before).1 + Run(Run(b, qps, before).0, qps, after).1
    decreases |before|
  {
    if before == [] {
      assert before + after == after;
    } else {
      assert (before + after)[1..] == before[1..] + after;
      RunInParts(Step(b, qps, before[0]).0, qps, before[1..], after);
    }
  }

  lemma {:induction false} RunStaysPast(b: Buckets, qps: real, es: seq<Request>, now: real)
    requires qps >= 1.0 && InRange(b, qps) && Timely(es) && Past(b, now)
    requires forall i :: 0 <= i < |es| ==> es[i].now <= now
    ensures Past(Run(b, qps, es).0, now)
    decreases |es|
  {
    if es == [] {
    } else {
      TimelyTail(es);
      SpendKeepsRange(Sweep(b, es[0].clock), qps, es[0].ip, es[0].now);
      RunStaysPast(Step(b, qps, es[0]).0, qps, es[1..], now);
    }
  }

  /** The bound: whatever came before and from whatever addresses, in any window
      of requests an address gets at most `qps` plus `qps` for every second the
      window lasts. */
  lemma WindowBound(qps: real, before: seq<Request>, window: seq<Request>, ip: Ip)
    requires qps >= 1.0 && Timely(before + window) && window != []
    ensures var ds := Run(map[], qps, before + window).1;
      Allowed(window, ds[|before|..], ip) as real <= qps + Earned(window[0].now, window[|window| - 1].now, qps)
  {
    hide Level, Step;
    var all := before + window;
    var start := window[0].now;
    TimelyParts(before, window);
    RunInParts(map[], qps, before, window);
    TokensStayInRange(map[], qps, before);
    RunStaysPast(map[], qps, before, start);
    var b := Run(map[], qps, before).0;
    SpentIsCovered(b, qps, window, ip);
    LevelNotNegative(b, qps, ip, start);
  }

  lemma TimelyParts(before: seq<Request>, window: seq<Request>)
    requires Timely(before + window) && window != []
    ensures Timely(before) && Timely(window)
    ensures forall i :: 0 <= i < |before| ==> before[i].now <= window[0].now
  {
    var all := before + window;
    forall i | 0 <= i < |before| ensures all[i] == before[i] {}
    forall i | 0 <= i < |window| ensures all[|before| + i] == window[i] {}
    forall i, j | 0 <= i <= j < |window| ensures window[i].now <= window[j].now {
      assert all[|before| + i] == window[i] && all[|before| + j] == window[j];
    }
    forall i, ip | 0 <= i < |window| ensures window[i].clock(ip) <= window[i].now {
      assert all[|before| + i] == window[i];
    }
    forall i | 0 <= i < |before| ensures before[i].now <= window[0].now {
      assert all[i] == before[i] && all[|before|] == window[0];
    }
  }

  // ---- addresses do not affect each other ----------------------------------

  function From(es: seq<Request>, ip: Ip): seq<Request> {
    if es == [] then [] else (if es[0].ip == ip then [es[0]] else []) + From(es[1..], ip)
  }

  function DecisionsFor(es: seq<Request>, ds: seq<bool>, ip: Ip): seq<bool>
    requires |es| == |ds|
  {
    if es == [] then [] else (if es[0].ip == ip then [ds[0]] else []) + DecisionsFor(es[1..], ds[1..], ip)
  }

  lemma {:induction false} ForeverIndependent(a: Buckets, b: Buckets, qps: real, es: seq<Request>, ip: Ip)
    requires ip in a <==> ip in b
    requires ip in a ==> a[ip] == b[ip]
    ensures DecisionsFor(es, RunForever(a, qps, es), ip) == RunForever(b, qps, From(es, ip))
    decreases |es|
  {
    if es == [] {
    } else {
      var e := es[0];
      var a1 := Spend(a, qps, e.ip, e.now).0;
      assert RunForever(a, qps, es)[1..] == RunForever(a1, qps, es[1..]);
      if e.ip == ip {
        ForeverIndependent(a1, Spend(b, qps, ip, e.now).0, qps, es[1..], ip);
        assert From(es, ip)[1..] == From(es[1..], ip);
      } else {
        ForeverIndependent(a1, b, qps, es[1..], ip);
        assert From(es, ip) == From(es[1..], ip);
      }
    }
  }

  lemma TimelyCons(e: Request, rest: seq<Request>)
    requires Timely(rest) && (forall i :: 0 <= i < |rest| ==> e.now <= rest[i].now) && forall ip :: e.clock(ip) <= e.now
    ensures Timely([e] + rest)
  {
    var es := [e] + rest;
    forall i, j | 0 <= i <= j < |es| ensures es[i].now <= es[j].now {
      if i > 0 {
        assert es[i] == rest[i - 1] && es[j] == rest[j - 1];
      }
    }
    forall i, ip | 0 <= i < |es| ensures es[i].clock(ip) <= es[i].now {
      if i > 0 {
        assert es[i] == rest[i - 1];
      }
    }
  }

  lemma {:induction false} FromTimely(es: seq<Request>, ip: Ip, t: real)
    requires Timely(es) && (es != [] ==> t <= es[0].now)
    ensures Timely(From(es, ip))
    ensures forall i :: 0 <= i < |From(es, ip)| ==> t <= From(es, ip)[i].now
    decreases |es|
  {
    hide Timely;
    if es == [] {
    } else {
      TimelyTail(es);
      TimelyHere(es);
      FromTimely(es[1..], ip, es[0].now);
      if es[0].ip == ip {
        TimelyCons(es[0], From(es[1..], ip));
      } else {
        assert From(es, ip) == From(es[1..], ip);
      }
    }
  }

  /** An address is served exactly as if the others had sent nothing, however
      many they are and whatever cleanups they cause. */
  lemma AddressesIndependent(qps: real, es: seq<Request>, ip: Ip)
    requires qps >= 1.0 && Timely(es)
    ensures DecisionsFor(es, Run(map[], qps, es).1, ip) == Run(map[], qps, From(es, ip)).1
  {
    if es != [] {
      FromTimely(es, ip, es[0].now);
    }
    CleanupInvisible(qps, es);
    CleanupInvisible(qps, From(es, ip));
    ForeverIndependent(map[], map[], qps, es, ip);
  }
}

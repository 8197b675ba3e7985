/** The limiter's decisions, read off the requests alone. */
module LimiterExact {
  import opened Limiter

  // ---- one step at a time --------------------------------------------------

  function BucketsAt(qps: real, es: seq<Request>, i: nat): Buckets
    requires i <= |es|
  {
    Run(map[], qps, es[..i]).0
  }

  function Decisions(qps: real, es: seq<Request>): (ds: seq<bool>)
    ensures |ds| == |es|
  {
    Run(map[], qps, es).1
  }

  lemma {:induction false} RunSnoc(b: Buckets, qps: real, es: seq<Request>, e: Request)
    ensures Run(b, qps, es + [e]).0 == Step(Run(b, qps, es).0, qps, e).0
    ensures Run(b, qps, es + [e]).1 == Run(b, qps, es).1 + [Step(Run(b, qps, es).0, qps, e).1]
    decreases |es|
  {
    hide Step;
    if es == [] {
      assert ([] + [e])[1..] == [];
      assert Run(Step(b, qps, e).0, qps, []) == (Step(b, qps, e).0, []);
    } else {
      assert (es + [e])[1..] == es[1..] + [e];
      RunSnoc(Step(b, qps, es[0]).0, qps, es[1..], e);
    }
  }

  lemma BucketsNext(qps: real, es: seq<Request>, i: nat)
    requires i < |es|
    ensures BucketsAt(qps, es, i + 1) == Step(BucketsAt(qps, es, i), qps, es[i]).0
    ensures Decisions(qps, es)[i] == Step(BucketsAt(qps, es, i), qps, es[i]).1
  {
    hide Step, Run;
    assert es[..i + 1] == es[..i] + [es[i]];
    RunSnoc(map[], qps, es[..i], es[i]);
    assert es == es[..i + 1] + es[i + 1..];
    RunInParts(map[], qps, es[..i + 1], es[i + 1..]);
  }

  lemma {:induction false} BucketsOk(qps: real, es: seq<Request>, i: nat)
    requires qps >= 1.0 && Timely(es) && i < |es|
    ensures InRange(BucketsAt(qps, es, i), qps) && Past(BucketsAt(qps, es, i), es[i].now)
    ensures forall ip :: es[i].clock(ip) <= es[i].now
    decreases i
  {
    hide Step, Run, InRange, Past;
    if i == 0 {
      NoBuckets(qps, es[0].now);
      assert es[..0] == [];
    } else {
      BucketsOk(qps, es, i - 1);
      BucketsNext(qps, es, i - 1);
      StepTakesToken(BucketsAt(qps, es, i - 1), qps, es[i - 1], es[i].ip);
      PastLater(BucketsAt(qps, es, i), es[i - 1].now, es[i].now);
    }
  }

  lemma NoBuckets(qps: real, now: real)
    ensures Run(map[], qps, []).0 == map[] && InRange(map[], qps) && Past(map[], now)
  {
  }

  // ---- what an address can still afford ------------------------------------

  /** How many of the requests `j` to `i - 1` from `ip` were allowed. */
  function Served(es: seq<Request>, ds: seq<bool>, ip: Ip, j: nat, i: nat): nat
    requires i <= |es| == |ds|
    decreases i
  {
    if i <= j then 0 else Served(es, ds, ip, j, i - 1) + (if es[i - 1].ip == ip && ds[i - 1] then 1 else 0)
  }

  /** `x` more tokens can be had at `now`, if `i` requests came before: they fit
      the bucket, and since each earlier request of the address no more is taken
      than a full bucket and what flowed into it. */
  predicate Affords(qps: real, es: seq<Request>, ds: seq<bool>, ip: Ip, i: nat, now: real, x: real)
    requires i <= |es| == |ds|
  {
    && x <= qps
    && forall j :: 0 <= j < i && es[j].ip == ip ==>
      Served(es, ds, ip, j, i) as real + x <= qps + Earned(es[j].now, now, qps)
  }

  lemma LevelLater(b: Buckets, qps: real, ip: Ip, t: real, now: real)
    requires qps >= 1.0 && Past(b, t) && t <= now
    ensures Level(b, qps, ip, now) == Min(Level(b, qps, ip, t) + Earned(t, now, qps), qps)
  {
    hide Earned, Refill;
    EarnedRises(t, now, qps);
    if ip in b {
      RefillEarned(b[ip], qps, now);
      RefillEarned(b[ip], qps, t);
      EarnedAdds(b[ip].last, t, now, qps);
    }
  }

  lemma ServedNext(es: seq<Request>, ds: seq<bool>, ip: Ip, i: nat)
    requires i < |es| == |ds|
    ensures forall j :: 0 <= j <= i ==>
      Served(es, ds, ip, j, i + 1) == Served(es, ds, ip, j, i) + (if es[i].ip == ip && ds[i] then 1 else 0)
    ensures Served(es, ds, ip, i, i) == 0
  {
  }

  function Spent(es: seq<Request>, ds: seq<bool>, ip: Ip, i: nat): real
    requires i < |es| == |ds|
  {
    if es[i].ip == ip && ds[i] then 1.0 else 0.0
  }

  /** One more request, and the time since then. */
  lemma AffordsNext(qps: real, es: seq<Request>, ds: seq<bool>, ip: Ip, i: nat, now: real, x: real)
    requires i < |es| == |ds| && es[i].now <= now && qps >= 1.0
    ensures var y := x - Earned(es[i].now, now, qps) + Spent(es, ds, ip, i);
      Affords(qps, es, ds, ip, i + 1, now, x) <==> x <= qps && Affords(qps, es, ds, ip, i, es[i].now, y)
  {
    hide Served, Earned;
    var t := es[i].now;
    ServedNext(es, ds, ip, i);
    EarnedRises(t, now, qps);
    forall j | 0 <= j < i
      ensures Earned(es[j].now, now, qps) == Earned(es[j].now, t, qps) + Earned(t, now, qps)
    {
      EarnedAdds(es[j].now, t, now, qps);
    }
  }

  /** The level of an address, at the time of request `i`. */
  lemma {:induction false} LevelExactly(qps: real, es: seq<Request>, ip: Ip, i: nat, x: real)
    requires qps >= 1.0 && Timely(es) && i < |es|
    ensures Level(BucketsAt(qps, es, i), qps, ip, es[i].now) >= x <==>
      Affords(qps, es, Decisions(qps, es), ip, i, es[i].now, x)
    decreases i
  {
    hide Level, Earned, Step, Run, InRange, Past, Affords;
    var ds := Decisions(qps, es);
    if i == 0 {
      FullAtFirst(qps, es, ip, x);
    } else {
      var b, t, now := BucketsAt(qps, es, i - 1), es[i - 1].now, es[i].now;
      BucketsOk(qps, es, i - 1);
      BucketsNext(qps, es, i - 1);
      StepTakesToken(b, qps, es[i - 1], ip);
      var y := x - Earned(t, now, qps) + Spent(es, ds, ip, i - 1);
      LevelLater(BucketsAt(qps, es, i), qps, ip, t, now);
      LevelExactly(qps, es, ip, i - 1, y);
      AffordsNext(qps, es, ds, ip, i - 1, now, x);
    }
  }

  lemma FullAtFirst(qps: real, es: seq<Request>, ip: Ip, x: real)
    requires es != []
    ensures Level(BucketsAt(qps, es, 0), qps, ip, es[0].now) >= x <==>
      Affords(qps, es, Decisions(qps, es), ip, 0, es[0].now, x)
  {
    assert es[..0] == [];
    assert Run(map[], qps, []) == (map[], []);
  }

  /** Counted from each earlier request of its address, the requests allowed to
      that address so far leave a whole one of the rate and what the rate yields in
      the time since. */
  predicate LeavesOne(qps: real, es: seq<Request>, ds: seq<bool>, i: nat)
    requires i < |es| == |ds|
  {
    forall j :: 0 <= j < i && es[j].ip == es[i].ip ==>
      Served(es, ds, es[i].ip, j, i) as real + 1.0 <= qps + (es[i].now - es[j].now) * qps
  }

  lemma AffordsOne(qps: real, es: seq<Request>, ds: seq<bool>, i: nat)
    requires qps >= 1.0 && i < |es| == |ds|
    ensures Affords(qps, es, ds, es[i].ip, i, es[i].now, 1.0) <==> LeavesOne(qps, es, ds, i)
  {
    hide Served;
  }

  /** A request is allowed exactly when the requests allowed to its address leave
      one; in particular the first request of an address is allowed. */
  lemma AllowedExactly(qps: real, es: seq<Request>, i: nat)
    requires qps >= 1.0 && Timely(es) && i < |es|
    ensures Decisions(qps, es)[i] <==> LeavesOne(qps, es, Decisions(qps, es), i)
    ensures (forall j :: 0 <= j < i ==> es[j].ip != es[i].ip) ==> Decisions(qps, es)[i]
  {
    hide Level, Step, Run, InRange, Past, Served, Affords, Earned;
    BucketsOk(qps, es, i);
    BucketsNext(qps, es, i);
    StepTakesToken(BucketsAt(qps, es, i), qps, es[i], es[i].ip);
    LevelExactly(qps, es, es[i].ip, i, 1.0);
    AffordsOne(qps, es, Decisions(qps, es), i);
  }

  /** A cleanup happens exactly when more than 65536 addresses are known: then no
      address but the requester's is still known that was idle for five minutes,
      and nobody else is forgotten. */
  lemma CleanupExactly(b: Buckets, qps: real, e: Request, ip: Ip)
    requires qps >= 1.0 && ip != e.ip
    ensures var b' := Step(b, qps, e).0;
      && e.ip in b'
      && (ip in b' <==> ip in b && (|b| <= 65536 || e.clock(ip) - b[ip].last < 300.0))
      && (ip in b' ==> b'[ip] == b[ip])
  {
  }
}

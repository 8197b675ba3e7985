/** The cache steps of a query, end to end: keys, tiers, codec and id patching
    together. */
module Pipeline {
  import opened Octets
  import opened Results
  import opened Names
  import opened NameForms
  import opened Messages
  import opened RoundTrip
  import opened MessageRoundTrip
  import opened CacheHit
  import opened Keys
  import Tiered
  import TieredOps
  import TieredRuns

  datatype Request = Request(qname: Name, qtype: u16, ecs: Option<EcsInfo>)

  /** `Ask` is a cache lookup, `Fill` stores a resolver's answer, `Forget` is an
      operator's delete. `bytes` is the answer as the resolver gave it, stored
      when the message made of it cannot be encoded again. */
  datatype Step =
    | Ask(req: Request, now: Tiered.Millis)
    | Fill(req: Request, msg: Message, bytes: Bytes, ttl: i64, now: Tiered.Millis)
    | Forget(req: Request, now: Tiered.Millis)
    | Compact(now: Tiered.Millis)

  /** The requests that share an answer. */
  ghost predicate SameRequest(a: Request, b: Request) {
    SameName(a.qname, b.qname) && a.qtype == b.qtype && Subnet(a.ecs) == Subnet(b.ecs)
  }

  function KeyOf(v6: Ipv6Text, r: Request): Bytes {
    CacheKey(r.qname, r.qtype, TokenOf(v6, r.ecs))
  }

  lemma KeyOfRequest(v6: Ipv6Text, a: Request, b: Request)
    requires Writes(v6)
    ensures KeyOf(v6, a) == KeyOf(v6, b) <==> SameRequest(a, b)
  {
    KeyUnambiguous(v6, a.qname, a.qtype, a.ecs, b.qname, b.qtype, b.ecs);
  }

  function StoredBytes(s: Step): Bytes
    requires s.Fill?
  {
    if Encode(s.msg).Some? then Encode(s.msg).value else s.bytes
  }

  function EventOf(v6: Ipv6Text, s: Step): TieredRuns.Event {
    match s
    case Ask(req, now) => TieredRuns.Event(TieredRuns.OpGet(KeyOf(v6, req)), now)
    case Fill(req, _, _, ttl, now) => TieredRuns.Event(TieredRuns.OpPut(KeyOf(v6, req), StoredBytes(s), ttl), now)
    case Forget(req, now) => TieredRuns.Event(TieredRuns.OpDel(KeyOf(v6, req)), now)
    case Compact(now) => TieredRuns.Event(TieredRuns.OpCompact, now)
  }

  function Events(v6: Ipv6Text, steps: seq<Step>): (es: seq<TieredRuns.Event>)
    decreases |steps|
  {
    if steps == [] then [] else [EventOf(v6, steps[0])] + Events(v6, steps[1..])
  }

  /** The step stores or drops the answer to the request. */
  ghost predicate Affects(s: Step, req: Request) {
    ((s.Fill? && s.ttl > 0) || s.Forget?) && SameRequest(s.req, req)
  }

  /** Step `i` is the last to affect the request, and it stored this answer. */
  ghost predicate LastStored(steps: seq<Step>, i: int, req: Request, last: TieredOps.Last) {
    && 0 <= i < |steps|
    && Affects(steps[i], req) && steps[i].Fill?
    && StoredBytes(steps[i]) == last.raw && last.expireAt == steps[i].now + steps[i].ttl * 1000
    && forall j :: i < j < |steps| ==> !Affects(steps[j], req)
  }

  lemma {:induction false} LastFill(v6: Ipv6Text, ref: TieredRuns.Reference, steps: seq<Step>, req: Request)
    returns (i: int)
    requires Writes(v6)
    requires KeyOf(v6, req) in TieredRuns.RememberFrom(ref, Events(v6, steps)).current
    ensures var k, h' := KeyOf(v6, req), TieredRuns.RememberFrom(ref, Events(v6, steps)).current;
      if i == -1 then
        k in ref.current && h'[k] == ref.current[k] && forall j :: 0 <= j < |steps| ==> !Affects(steps[j], req)
      else LastStored(steps, i, req, h'[k])
    decreases |steps|
  {
    hide Writes, KeyOf, SameRequest, StoredBytes;
    i := -1;
    if steps == [] {
    } else {
      var s := steps[0];
      if !s.Compact? {
        KeyOfRequest(v6, s.req, req);
      }
      var es := Events(v6, steps);
      assert es[1..] == Events(v6, steps[1..]);
      var ref1 := TieredRuns.Remember(ref, es[0]);
      var r := LastFill(v6, ref1, steps[1..], req);
      if r >= 0 {
        i := r + 1;
        assert steps[i] == steps[1..][r];
      } else if Affects(s, req) {
        i := 0;
      }
      forall j | 0 <= j < |steps| && j > i ensures !Affects(steps[j], req) {
        if j > 0 {
          assert steps[j] == steps[1..][j - 1];
        }
      }
    }
  }

  /** Over any run of lookups, stores, deletes and compactions: when a lookup
      hits, some earlier step stored an answer for the same canonical name, type
      and client subnet, nothing stored or deleted that answer since, and it
      expired less than a minute ago (two with a shared tier). The hit, with the
      client's id patched in, parses to that very message under that id exactly
      when the message's fields agree and its SOA records survive. */
  lemma HitAnswersRequest(
    v6: Ipv6Text, maxEntries: nat, l1Ttl: int, withShared: bool, clock: Tiered.Millis, steps: seq<Step>,
    req: Request, id: u16, now: Tiered.Millis) returns (i: int)
    requires Writes(v6)
    requires TieredRuns.ClockRuns(Events(v6, steps), clock)
    requires TieredRuns.EndOf(Events(v6, steps), clock) <= now
    requires Tiered.Get(
      TieredRuns.Run(TieredRuns.Fresh(maxEntries, l1Ttl, withShared), Events(v6, steps)), KeyOf(v6, req), now).1.Some?
    ensures var cache := TieredRuns.Run(TieredRuns.Fresh(maxEntries, l1Ttl, withShared), Events(v6, steps));
      var hit := Tiered.Get(cache, KeyOf(v6, req), now).1;
      && 0 <= i < |steps| && steps[i].Fill? && SameRequest(steps[i].req, req)
      && (forall j :: i < j < |steps| ==> !Affects(steps[j], req))
      && now < steps[i].now + steps[i].ttl * 1000 + (if withShared then 120000 else 60000)
      && hit == Some(StoredBytes(steps[i]))
      && var m, bytes := steps[i].msg, Patched(hit.value, id);
      GoodMessage(m) ==>
        (Parse(bytes) == Ok(m.(header := m.header.(id := id))) <==> FieldsAgree(m) && SoasSurvive(bytes, m))
  {
    hide Writes, Tiered.Get, TieredRuns.Run, TieredRuns.RememberFrom, Events, KeyOf, SameRequest, Encode, Parse,
      Patched, GoodMessage, FieldsAgree, SoasSurvive, TieredRuns.Fresh, TieredRuns.ClockRuns;
    TieredRuns.HitWindow(maxEntries, l1Ttl, withShared, clock, Events(v6, steps), KeyOf(v6, req), now);
    i := LastFill(v6, TieredRuns.NOTHING, steps, req);
    if GoodMessage(steps[i].msg) {
      CacheHitParses(steps[i].msg, id);
    }
  }

  lemma {:induction false} NoDiskLoss(v6: Ipv6Text, steps: seq<Step>)
    ensures TieredRuns.KeepsLocal(Events(v6, steps))
    decreases |steps|
  {
    hide KeyOf;
    if steps == [] {
    } else {
      NoDiskLoss(v6, steps[1..]);
    }
  }

  lemma {:induction false} FillCurrent(v6: Ipv6Text, ref: TieredRuns.Reference, steps: seq<Step>, i: nat)
    requires Writes(v6) && i < |steps| && steps[i].Fill? && steps[i].ttl > 0
    requires forall j :: i < j < |steps| ==> !Affects(steps[j], steps[i].req)
    ensures KeyOf(v6, steps[i].req) in TieredRuns.RememberFrom(ref, Events(v6, steps)).current
    ensures TieredRuns.RememberFrom(ref, Events(v6, steps)).current[KeyOf(v6, steps[i].req)]
      == TieredOps.Last(StoredBytes(steps[i]), steps[i].now + steps[i].ttl * 1000)
    decreases |steps|
  {
    hide Writes, KeyOf, SameRequest, StoredBytes;
    var es := Events(v6, steps);
    assert es[1..] == Events(v6, steps[1..]);
    var ref1 := TieredRuns.Remember(ref, es[0]);
    if i > 0 {
      assert steps[i] == steps[1..][i - 1];
      forall j | i - 1 < j < |steps[1..]| ensures !Affects(steps[1..][j], steps[i].req) {
        assert steps[1..][j] == steps[j + 1];
      }
      FillCurrent(v6, ref1, steps[1..], i - 1);
    } else {
      forall j | 0 <= j < |steps[1..]| ensures !Affects(steps[1..][j], steps[0].req) {
        assert steps[1..][j] == steps[j + 1];
      }
      StaysCurrent(v6, ref1, steps[1..], steps[0].req);
    }
  }

  lemma {:induction false} StaysCurrent(v6: Ipv6Text, ref: TieredRuns.Reference, steps: seq<Step>, req: Request)
    requires Writes(v6) && KeyOf(v6, req) in ref.current
    requires forall j :: 0 <= j < |steps| ==> !Affects(steps[j], req)
    ensures var h := TieredRuns.RememberFrom(ref, Events(v6, steps)).current;
      KeyOf(v6, req) in h && h[KeyOf(v6, req)] == ref.current[KeyOf(v6, req)]
    decreases |steps|
  {
    hide Writes, KeyOf, SameRequest, StoredBytes;
    if steps == [] {
    } else {
      var es := Events(v6, steps);
      assert es[1..] == Events(v6, steps[1..]);
      if !steps[0].Compact? {
        KeyOfRequest(v6, steps[0].req, req);
      }
      forall j | 0 <= j < |steps[1..]| ensures !Affects(steps[1..][j], req) {
        assert steps[1..][j] == steps[j + 1];
      }
      StaysCurrent(v6, TieredRuns.Remember(ref, es[0]), steps[1..], req);
    }
  }

  /** The other way round: an answer that was stored, and neither replaced nor
      deleted since, is the hit for every request that shares it until its ttl runs
      out. */
  lemma StoredAnswerHits(
    v6: Ipv6Text, maxEntries: nat, l1Ttl: int, withShared: bool, clock: Tiered.Millis, steps: seq<Step>, i: nat,
    req: Request, now: Tiered.Millis)
    requires Writes(v6)
    requires TieredRuns.ClockRuns(Events(v6, steps), clock)
    requires TieredRuns.EndOf(Events(v6, steps), clock) <= now
    requires i < |steps| && steps[i].Fill? && steps[i].ttl > 0 && SameRequest(steps[i].req, req)
    requires forall j :: i < j < |steps| ==> !Affects(steps[j], steps[i].req)
    requires now < steps[i].now + steps[i].ttl * 1000
    ensures var cache := TieredRuns.Run(TieredRuns.Fresh(maxEntries, l1Ttl, withShared), Events(v6, steps));
      Tiered.Get(cache, KeyOf(v6, req), now).1 == Some(StoredBytes(steps[i]))
  {
    hide Writes, Tiered.Get, TieredRuns.Run, TieredRuns.RememberFrom, Events, KeyOf, SameRequest, Encode,
      TieredRuns.Fresh, TieredRuns.ClockRuns, TieredRuns.KeepsLocal, StoredBytes;
    KeyOfRequest(v6, steps[i].req, req);
    NoDiskLoss(v6, steps);
    FillCurrent(v6, TieredRuns.NOTHING, steps, i);
    TieredRuns.HitWindow(maxEntries, l1Ttl, withShared, clock, Events(v6, steps), KeyOf(v6, req), now);
  }
}

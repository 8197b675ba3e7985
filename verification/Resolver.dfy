/** The recursive resolver as the source writes it: loops over servers, referrals
    and nameservers that advance the clock and append to the trace. Each method
    is proved equal to the walk of module Recursion. */
module Resolver {
  import opened Octets
  import opened Results
  import opened Names
  import opened Messages
  import opened Recursion
  import opened WalkOutcomes

  /** The NS names and the glue of a response. */
  method ExtractReferral(m: Message) returns (names: seq<Name>, glue: map<Name, Server>)
    ensures names == NsNames(m.authority) && glue == Glue(m.additional)
  {
    names, glue := [], map[];
    for i := 0 to |m.authority|
      invariant NsNames(m.authority) == names + NsNames(m.authority[i..])
    {
      var r := m.authority[i];
      assert m.authority[i..][1..] == m.authority[i + 1..];
      if r.rtype == TYPE_NS && r.data.NameData? {
        names := names + [r.data.target];
      }
    }
    for i := 0 to |m.additional|
      invariant glue == Glue(m.additional[..i])
    {
      var r := m.additional[i];
      assert m.additional[..i + 1][..i] == m.additional[..i];
      var addr := AddressIn(r.data);
      if addr.Some? {
        glue := glue[r.name := addr.value];
      }
    }
    assert m.additional[..|m.additional|] == m.additional;
  }

  lemma CatServers(a: seq<Server>, b: seq<Server>, c: seq<Server>)
    ensures (a + b) + c == a + (b + c)
  {
  }

  lemma NoNames(env: Env, w: World, glue: map<Name, Server>, deadline: nat)
    ensures Addresses(env, w, [], glue, deadline) == (w, [])
  {
  }

  class Engine {
    const env: Env
    var world: World

    constructor (env: Env)
      ensures this.env == env && world == World(0, 0, [])
    {
      this.env, world := env, World(0, 0, []);
    }

    method Now() returns (now: nat)
      modifies this`world
      ensures world == Tick(env, old(world)) && now == world.clock
    {
      world := Tick(env, world);
      now := world.clock;
    }

    method Exchange(server: Server, q: Query) returns (m: Option<Message>)
      modifies this`world
      ensures var reply := env.net(server, q, old(world).clock);
        && m == reply.message
        && world == old(world).(
          clock := old(world).clock + reply.ticks,
          trace := old(world).trace + [Recursion.Exchange(server, q, old(world).clock, m)])
    {
      var reply := env.net(server, q, world.clock);
      m := reply.message;
      world := world.(
        clock := world.clock + reply.ticks,
        trace := world.trace + [Recursion.Exchange(server, q, world.clock, m)]);
    }

    method QueryServers(servers: seq<Server>, q: Query, deadline: nat) returns (r: Outcome)
      modifies this`world
      ensures (world, r) == Recursion.QueryServers(env, old(world), servers, q, deadline)
      ensures var x := Round(env, old(world), servers, q);
        match r
        case Ok(m) => exists k :: AnsweredBy(x, deadline, k, world, m)
        case Err(_) => exists n :: NobodyAnswers(x, deadline, n, world)
    {
      hide Paid, AnsweredBy, NobodyAnswers;
      ghost var n := QueryServersMeets(env, world, servers, q, deadline);
      for i := 0 to |servers|
        invariant Recursion.QueryServers(env, world, servers[i..], q, deadline)
          == Recursion.QueryServers(env, old(world), servers, q, deadline)
      {
        assert servers[i..][1..] == servers[i + 1..];
        var now := Now();
        if now >= deadline {
          return Err(Unreachable);
        }
        var m := Exchange(servers[i], q);
        if m.Some? && m.value.header.qr {
          return Ok(m.value);
        }
      }
      r := Err(Unreachable);
    }

    /** The iterative walk, with its nested lookups of nameservers that have no
        glue; only the deadline bounds those. */
    method Iterative(q: Query, deadline: nat) returns (r: Outcome)
      modifies this`world
      ensures (world, r) == Recursion.Iterative(env, old(world), q, deadline)
      ensures exists stops :: WalkEnds(env, q, deadline, old(world), env.roots, env.maxDepth, stops, world, r)
      decreases TimeLeft(world, deadline), 1, 1
    {
      hide Paid, Recursion.QueryServers, Glue, NsNames, WalkEnds, AnsweredBy, NobodyAnswers;
      ghost var stops := ResolutionMeets(env, world, q, deadline);
      var servers := env.roots;
      for depth := 0 to env.maxDepth
        invariant Walk(env, world, servers, depth, q, deadline) == Recursion.Iterative(env, old(world), q, deadline)
        invariant TimeLeft(world, deadline) <= TimeLeft(old(world), deadline)
      {
        var now := Now();
        if now >= deadline {
          return Err(DeadlineExceeded);
        }
        ghost var before := world;
        r := QueryServers(servers, q, deadline);
        if r.Err? {
          return r;
        }
        var resp := r.value;
        if resp.answers != [] || resp.header.rcode == RCODE_NXDOMAIN {
          return r;
        }
        if resp.header.rcode != 0 {
          return r;
        }
        var names, glue := ExtractReferral(resp);
        if names == [] {
          return r;
        }
        assert TimeLeft(world, deadline) < TimeLeft(before, deadline);
        ghost var asked := world;
        var next := ServerAddresses(names, glue, deadline);
        PaidTime(asked, world, deadline);
        if next == [] {
          return Err(NoNameservers);
        }
        servers := next;
      }
      r := Err(DepthExceeded);
    }

    /** The inner loop over the NS names of a referral. */
    method ServerAddresses(names: seq<Name>, glue: map<Name, Server>, deadline: nat) returns (next: seq<Server>)
      modifies this`world
      ensures (world, next) == Addresses(env, old(world), names, glue, deadline)
      decreases TimeLeft(world, deadline), 2
    {
      hide Paid, Recursion.Glueless, Addresses;
      next := [];
      assert names[0..] == names;
      ghost var all := Addresses(env, world, names, glue, deadline);
      for i := 0 to |names|
        invariant TimeLeft(world, deadline) <= TimeLeft(old(world), deadline)
        invariant Addresses(env, world, names[i..], glue, deadline).0 == all.0
        invariant next + Addresses(env, world, names[i..], glue, deadline).1 == all.1
      {
        var ns := names[i];
        AddressesAt(env, world, names, i, glue, deadline);
        ghost var w0, next0 := world, next;
        if ns in glue {
          next := next + [glue[ns]];
        } else {
          var addrs := Glueless(ns, deadline);
          PaidTime(w0, world, deadline);
          next := next + addrs;
        }
        ghost var here := if ns in glue then [glue[ns]] else Recursion.Glueless(env, w0, ns, deadline).1;
        CatServers(next0, here, Addresses(env, world, names[i + 1..], glue, deadline).1);
      }
      assert names[|names|..] == [];
      NoNames(env, world, glue, deadline);
      assert next == all.1;
    }

    /** A nameserver without glue: its IPv4 addresses, or else its IPv6 ones. */
    method Glueless(ns: Name, deadline: nat) returns (next: seq<Server>)
      modifies this`world
      ensures (world, next) == Recursion.Glueless(env, old(world), ns, deadline)
      decreases TimeLeft(world, deadline), 1, 2
    {
      hide Paid, Recursion.Iterative, ResponseAddresses;
      next := [];
      var a := Iterative(Query(ns, TYPE_A, None), deadline);
      PaidTime(old(world), world, deadline);
      var found := false;
      if a.Ok? {
        next := ResponseAddresses(a.value, TYPE_A);
        found := next != [];
      }
      if !found {
        var aaaa := Iterative(Query(ns, TYPE_AAAA, None), deadline);
        if aaaa.Ok? {
          next := ResponseAddresses(aaaa.value, TYPE_AAAA);
        }
      }
    }

    /** Resolution of one query within `timeout` of its start: exactly one walk
        for the canonical name. A response is returned as soon as it has an
        answer, so one that ends in a CNAME is never followed. */
    method DoResolve(qname: Name, qtype: u16, ecs: Option<Bytes>, timeout: nat) returns (r: Outcome)
      modifies this`world
      ensures var w := Tick(env, old(world));
        (world, r) == Recursion.Iterative(env, w, Query(CanonicalName(qname), qtype, ecs), w.clock + timeout)
    {
      hide *;
      var now := Now();
      r := Iterative(Query(CanonicalName(qname), qtype, ecs), now + timeout);
      if r.Err? {
        return;
      }
      var resp := r.value;
      if resp.header.rcode != 0 || resp.answers != [] {
        return;
      }
      if resp.answers == [] {
        return;
      }
      // the search for a CNAME target would start here
      assert false;
    }
  }
}

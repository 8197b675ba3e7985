/** The iterative walk from the roots, as functions over a world that holds the
    clock and the trace of exchanges. The network answers as an arbitrary
    function of server, query and time; since every exchange takes time, no two
    exchanges share a time and the function constrains nothing. */
module Recursion {
  import opened Octets
  import opened Results
  import opened Names
  import opened Messages

  datatype Server = V4(ip4: Ipv4, port: u16) | V6(ip6: Ipv6, port: u16)

  const DNS_PORT: u16 := 53

  type Ticks = n: nat | n > 0 witness 1

  /** How long an exchange took, and the parsed message if one came back. */
  datatype Reply = Reply(ticks: Ticks, message: Option<Message>)

  datatype Query = Query(name: Name, qtype: u16, ecs: Option<Bytes>)

  /** `lag(n)` is the time that passes before the n-th reading of the clock. */
  datatype Env = Env(roots: seq<Server>, maxDepth: nat, net: (Server, Query, nat) -> Reply, lag: nat -> nat)

  datatype Exchange = Exchange(server: Server, query: Query, at: nat, message: Option<Message>)

  datatype World = World(clock: nat, readings: nat, trace: seq<Exchange>)

  datatype Failure = DeadlineExceeded | Unreachable | NoNameservers | DepthExceeded

  type Outcome = Result<Message, Failure>

  // ---- the pieces of a response --------------------------------------------

  function NsNames(rs: seq<Record>): seq<Name> {
    if rs == [] then []
    else if rs[0].rtype == TYPE_NS && rs[0].data.NameData? then [rs[0].data.target] + NsNames(rs[1..])
    else NsNames(rs[1..])
  }

  function AddressIn(d: RData): Option<Server> {
    match d
    case A(ip) => Some(V4(ip, DNS_PORT))
    case Aaaa(ip) => Some(V6(ip, DNS_PORT))
    case _ => None
  }

  /** Later records override earlier ones of the same owner. */
  function Glue(rs: seq<Record>): map<Name, Server> {
    if rs == [] then map[]
    else
      var last := rs[|rs| - 1];
      var front := Glue(rs[..|rs| - 1]);
      var addr := AddressIn(last.data);
      if addr.Some? then front[last.name := addr.value] else front
  }

  /** The addresses of one family in a list of records. */
  function AddressesOf(rs: seq<Record>, rtype: u16): seq<Server> {
    if rs == [] then []
    else
      var rest := AddressesOf(rs[1..], rtype);
      var addr := AddressIn(rs[0].data);
      if rs[0].rtype == rtype && addr.Some? && addr.value.V4? == (rtype == TYPE_A) then [addr.value] + rest else rest
  }

  function ResponseAddresses(m: Message, rtype: u16): seq<Server> {
    AddressesOf(m.answers + m.additional, rtype)
  }

  predicate Final(m: Message) {
    m.answers != [] || m.header.rcode != 0 || NsNames(m.authority) == []
  }

  // ---- the clock -----------------------------------------------------------

  /** Reading the clock. */
  function Tick(env: Env, w: World): World {
    w.(clock := w.clock + env.lag(w.readings), readings := w.readings + 1)
  }

  function TimeLeft(w: World, deadline: nat): nat {
    if w.clock < deadline then deadline - w.clock else 0
  }

  /** The exchanges from `n` on start in order, one at a time, within the given
      times and before the deadline. */
  predicate InOrder(trace: seq<Exchange>, n: nat, start: nat, end: nat, deadline: nat) {
    && (forall i :: n <= i < |trace| ==> start <= trace[i].at < end && trace[i].at < deadline)
    && (forall i, j :: n <= i < j < |trace| ==> trace[i].at < trace[j].at)
  }

  /** Time spent pays for every exchange. */
  predicate Paid(w: World, w': World, deadline: nat) {
    && w.clock <= w'.clock
    && w.trace <= w'.trace
    && |w'.trace| + TimeLeft(w', deadline) <= |w.trace| + TimeLeft(w, deadline)
    && InOrder(w'.trace, |w.trace|, w.clock, w'.clock, deadline)
  }

  lemma PaidInTurn(a: World, b: World, c: World, deadline: nat)
    requires Paid(a, b, deadline) && Paid(b, c, deadline)
    ensures Paid(a, c, deadline)
  {
    assert forall i :: 0 <= i < |b.trace| ==> c.trace[i] == b.trace[i];
  }

  lemma PaidTime(w: World, w': World, deadline: nat)
    requires Paid(w, w', deadline)
    ensures TimeLeft(w', deadline) <= TimeLeft(w, deadline)
  {
  }

  // ---- the walk ------------------------------------------------------------

  function QueryServers(env: Env, w: World, servers: seq<Server>, q: Query, deadline: nat): (res: (World, Outcome))
    ensures Paid(w, res.0, deadline)
    ensures res.1.Ok? ==> w.clock < res.0.clock && w.clock < deadline
    decreases |servers|
  {
    if servers == [] then (w, Err(Unreachable))
    else
      var w1 := Tick(env, w);
      if w1.clock >= deadline then (w1, Err(Unreachable))
      else
        var reply := env.net(servers[0], q, w1.clock);
        var ex := Exchange(servers[0], q, w1.clock, reply.message);
        var w2 := w1.(clock := w1.clock + reply.ticks, trace := w1.trace + [ex]);
        if reply.message.Some? && reply.message.value.header.qr then (w2, Ok(reply.message.value))
        else
          PaidInTurn(w, w2, QueryServers(env, w2, servers[1..], q, deadline).0, deadline);
          QueryServers(env, w2, servers[1..], q, deadline)
  }

  function Iterative(env: Env, w: World, q: Query, deadline: nat): (res: (World, Outcome))
    ensures Paid(w, res.0, deadline)
    decreases TimeLeft(w, deadline), 1, 0
  {
    Walk(env, w, env.roots, 0, q, deadline)
  }

  function Walk(env: Env, w: World, servers: seq<Server>, depth: nat, q: Query, deadline: nat): (res: (World, Outcome))
    ensures Paid(w, res.0, deadline)
    decreases TimeLeft(w, deadline), 0, 0
  {
    if depth >= env.maxDepth then (w, Err(DepthExceeded))
    else
      var w1 := Tick(env, w);
      if w1.clock >= deadline then (w1, Err(DeadlineExceeded))
      else
        var (w2, r) := QueryServers(env, w1, servers, q, deadline);
        PaidInTurn(w, w1, w2, deadline);
        if r.Err? || Final(r.value) then (w2, r)
        else
          var (w3, next) := Addresses(env, w2, NsNames(r.value.authority), Glue(r.value.additional), deadline);
          PaidInTurn(w, w2, w3, deadline);
          if next == [] then (w3, Err(NoNameservers))
          else
            PaidInTurn(w, w3, Walk(env, w3, next, depth + 1, q, deadline).0, deadline);
            Walk(env, w3, next, depth + 1, q, deadline)
  }

  /** The addresses of the listed nameservers: glue, or else looked up. */
  function Addresses(env: Env, w: World, names: seq<Name>, glue: map<Name, Server>, deadline: nat):
    (res: (World, seq<Server>))
    ensures Paid(w, res.0, deadline)
    decreases TimeLeft(w, deadline), 2, |names|
  {
    if names == [] then (w, [])
    else if names[0] in glue then
      var (w', rest) := Addresses(env, w, names[1..], glue, deadline);
      (w', [glue[names[0]]] + rest)
    else
      var (w2, all) := Glueless(env, w, names[0], deadline);
      var (w', rest) := Addresses(env, w2, names[1..], glue, deadline);
      PaidInTurn(w, w2, w', deadline);
      (w', all + rest)
  }

  /** One round of the loop over nameservers, at index `i`. */
  lemma AddressesAt(env: Env, w: World, names: seq<Name>, i: nat, glue: map<Name, Server>, deadline: nat)
    requires i < |names|
    ensures var ns := names[i];
      var (w1, here) := if ns in glue then (w, [glue[ns]]) else Glueless(env, w, ns, deadline);
      var (w', rest) := Addresses(env, w1, names[i + 1..], glue, deadline);
      Addresses(env, w, names[i..], glue, deadline) == (w', here + rest)
  {
    assert names[i..][0] == names[i] && names[i..][1..] == names[i + 1..];
  }

  /** The addresses of a nameserver without glue: IPv4, or else IPv6. */
  function Glueless(env: Env, w: World, ns: Name, deadline: nat): (res: (World, seq<Server>))
    ensures Paid(w, res.0, deadline)
    decreases TimeLeft(w, deadline), 1, 2
  {
    var (w1, found) := Lookup(env, w, ns, TYPE_A, deadline);
    if found != [] then (w1, found)
    else
      PaidInTurn(w, w1, Lookup(env, w1, ns, TYPE_AAAA, deadline).0, deadline);
      Lookup(env, w1, ns, TYPE_AAAA, deadline)
  }

  function Lookup(env: Env, w: World, ns: Name, rtype: u16, deadline: nat): (res: (World, seq<Server>))
    ensures Paid(w, res.0, deadline)
    decreases TimeLeft(w, deadline), 1, 1
  {
    var (w', r) := Iterative(env, w, Query(ns, rtype, None), deadline);
    (w', if r.Ok? then ResponseAddresses(r.value, rtype) else [])
  }

  // ---- cost ----------------------------------------------------------------

  /** Every exchange of the whole recursion tree starts strictly before the
      deadline, and there are at most as many as ticks from start to deadline:
      the nested lookups that restart the depth counter included. */
  lemma WalkCost(env: Env, w: World, q: Query, deadline: nat)
    ensures var w' := Iterative(env, w, q, deadline).0;
      && w.trace <= w'.trace
      && |w'.trace| - |w.trace| <= (if w.clock < deadline then deadline - w.clock else 0)
      && (forall i :: |w.trace| <= i < |w'.trace| ==> w'.trace[i].at < deadline)
  {
  }

  // ---- failover ------------------------------------------------------------

  /** A usable answer. */
  predicate Responds(ex: Exchange) {
    ex.message.Some? && ex.message.value.header.qr
  }

  /** A success is the first listed server that gave a response: servers are
      tried in order, once each, and every earlier one failed. */
  lemma {:induction false} FirstResponder(env: Env, w: World, servers: seq<Server>, q: Query, deadline: nat)
    returns (asked: seq<Exchange>)
    requires QueryServers(env, w, servers, q, deadline).1.Ok?
    ensures var (w', r) := QueryServers(env, w, servers, q, deadline);
      && w'.trace == w.trace + asked && 0 < |asked| <= |servers|
      && (forall j :: 0 <= j < |asked| ==> asked[j].server == servers[j] && asked[j].query == q)
      && (forall j :: 0 <= j < |asked| - 1 ==> !Responds(asked[j]))
      && Responds(asked[|asked| - 1]) && asked[|asked| - 1].message == Some(r.value)
    decreases |servers|
  {
    hide Paid;
    var w1 := Tick(env, w);
    var reply := env.net(servers[0], q, w1.clock);
    var ex := Exchange(servers[0], q, w1.clock, reply.message);
    if Responds(ex) {
      asked := [ex];
    } else {
      var w2 := w1.(clock := w1.clock + reply.ticks, trace := w1.trace + [ex]);
      var rest := FirstResponder(env, w2, servers[1..], q, deadline);
      asked := [ex] + rest;
      assert w.trace + [ex] + rest == w.trace + asked;
      forall j | 0 <= j < |asked|
        ensures asked[j].server == servers[j] && asked[j].query == q
        ensures j < |asked| - 1 ==> !Responds(asked[j])
      {
        if j > 0 {
          assert asked[j] == rest[j - 1] && servers[1..][j - 1] == servers[j];
        }
      }
    }
  }

  // ---- delegation ----------------------------------------------------------

  /** One stop: the servers asked, the response one of them gave, and the place
      of that exchange in the trace. */
  datatype Hop = Hop(servers: seq<Server>, response: Message, at: nat)

  /** The address comes from an NS name of the response: by glue in the same
      response, or from a walk that looked that name up, all of whose exchanges
      stand in the trace from `from` on. */
  ghost predicate DelegatedTo(
    env: Env, m: Message, addr: Server, deadline: nat, from: nat, trace: seq<Exchange>)
  {
    exists ns :: ns in NsNames(m.authority) && (ByGlue(m, ns, addr) || ByLookup(env, ns, addr, deadline, from, trace))
  }

  predicate ByGlue(m: Message, ns: Name, addr: Server) {
    ns in Glue(m.additional) && Glue(m.additional)[ns] == addr
  }

  ghost predicate ByLookup(env: Env, ns: Name, addr: Server, deadline: nat, from: nat, trace: seq<Exchange>) {
    exists w, rtype :: LookedUp(env, w, ns, rtype, addr, deadline, from, trace)
  }

  predicate LookedUp(
    env: Env, w: World, ns: Name, rtype: u16, addr: Server, deadline: nat, from: nat, trace: seq<Exchange>)
  {
    var (w', found) := Lookup(env, w, ns, rtype, deadline);
    (rtype == TYPE_A || rtype == TYPE_AAAA) && addr in found && from <= |w.trace| && w'.trace <= trace
  }

  lemma DelegatedGrows(
    env: Env, m: Message, addr: Server, deadline: nat, from: nat, trace: seq<Exchange>, from': nat, more: seq<Exchange>)
    requires DelegatedTo(env, m, addr, deadline, from, trace) && trace <= more && from' <= from
    ensures DelegatedTo(env, m, addr, deadline, from', more)
  {
    hide Lookup, Glue, NsNames;
    var ns :| ns in NsNames(m.authority) && (ByGlue(m, ns, addr) || ByLookup(env, ns, addr, deadline, from, trace));
    if !ByGlue(m, ns, addr) {
      var w, rtype :| LookedUp(env, w, ns, rtype, addr, deadline, from, trace);
      assert LookedUp(env, w, ns, rtype, addr, deadline, from', more);
    }
  }

  predicate Answered(trace: seq<Exchange>, h: Hop, q: Query) {
    && h.at < |trace|
    && trace[h.at].server in h.servers && trace[h.at].query == q
    && Responds(trace[h.at]) && trace[h.at].message == Some(h.response)
  }

  /** The next servers come from the response before them, by lookups made after
      it and before they were asked. */
  ghost predicate Delegation(env: Env, from: Hop, to: Hop, deadline: nat, trace: seq<Exchange>) {
    && !Final(from.response)
    && to.servers != []
    && from.at < to.at <= |trace|
    && forall addr :: addr in to.servers ==>
      DelegatedTo(env, from.response, addr, deadline, from.at + 1, trace[..to.at])
  }

  /** The hops in the order of their exchanges, all of them from `start` on. */
  ghost predicate Chain(env: Env, hops: seq<Hop>, trace: seq<Exchange>, q: Query, deadline: nat, start: nat) {
    && (hops != [] ==> start <= hops[0].at)
    && (forall i :: 0 <= i < |hops| ==> Answered(trace, hops[i], q))
    && (forall i :: 0 < i < |hops| ==> Delegation(env, hops[i - 1], hops[i], deadline, trace))
  }

  lemma QueryAnswered(env: Env, w: World, servers: seq<Server>, q: Query, deadline: nat)
    requires QueryServers(env, w, servers, q, deadline).1.Ok?
    ensures var (w', r) := QueryServers(env, w, servers, q, deadline);
      |w.trace| < |w'.trace| && Answered(w'.trace, Hop(servers, r.value, |w'.trace| - 1), q)
  {
    hide Paid;
    var asked := FirstResponder(env, w, servers, q, deadline);
    var w' := QueryServers(env, w, servers, q, deadline).0;
    assert w'.trace[|w'.trace| - 1] == asked[|asked| - 1] && servers[|asked| - 1] in servers;
  }

  lemma {:induction false} AddressesDelegated(
    env: Env, w: World, names: seq<Name>, m: Message, deadline: nat, addr: Server)
    requires forall n :: n in names ==> n in NsNames(m.authority)
    requires addr in Addresses(env, w, names, Glue(m.additional), deadline).1
    ensures DelegatedTo(
              env, m, addr, deadline, |w.trace|, Addresses(env, w, names, Glue(m.additional), deadline).0.trace)
    decreases |names|
  {
    hide Lookup, Glue, NsNames, DelegatedTo;
    var glue, ns := Glue(m.additional), names[0];
    assert ns in names;
    assert forall n :: n in names[1..] ==> n in names;
    var trace := Addresses(env, w, names, glue, deadline).0.trace;
    if ns in glue {
      if addr in Addresses(env, w, names[1..], glue, deadline).1 {
        AddressesDelegated(env, w, names[1..], m, deadline, addr);
      } else {
        assert ByGlue(m, ns, addr);
        Delegated(env, m, ns, addr, deadline, |w.trace|, trace);
      }
    } else {
      var (w2, all) := Glueless(env, w, ns, deadline);
      if addr in all {
        var (w1, found) := Lookup(env, w, ns, TYPE_A, deadline);
        assert w.trace <= w1.trace <= w2.trace <= trace;
        assert LookedUp(env, w, ns, TYPE_A, addr, deadline, |w.trace|, trace)
            || LookedUp(env, w1, ns, TYPE_AAAA, addr, deadline, |w.trace|, trace);
        assert ByLookup(env, ns, addr, deadline, |w.trace|, trace);
        Delegated(env, m, ns, addr, deadline, |w.trace|, trace);
      } else {
        AddressesDelegated(env, w2, names[1..], m, deadline, addr);
        DelegatedGrows(env, m, addr, deadline, |w2.trace|, trace, |w.trace|, trace);
      }
    }
  }

  lemma Delegated(env: Env, m: Message, ns: Name, addr: Server, deadline: nat, from: nat, trace: seq<Exchange>)
    requires ns in NsNames(m.authority) && (ByGlue(m, ns, addr) || ByLookup(env, ns, addr, deadline, from, trace))
    ensures DelegatedTo(env, m, addr, deadline, from, trace)
  {
  }

  lemma AnsweredGrows(trace: seq<Exchange>, more: seq<Exchange>, h: Hop, q: Query)
    requires Answered(trace, h, q) && trace <= more
    ensures Answered(more, h, q)
  {
    hide Responds;
    assert more[h.at] == trace[h.at];
  }

  lemma ChainExtends(
    env: Env, here: Hop, rest: seq<Hop>, trace: seq<Exchange>, q: Query, deadline: nat, start: nat, middle: nat)
    requires Answered(trace, here, q) && start <= here.at
    requires rest != [] && Chain(env, rest, trace, q, deadline, middle)
    requires Delegation(env, here, rest[0], deadline, trace)
    ensures Chain(env, [here] + rest, trace, q, deadline, start)
  {
    hide Answered, Delegation;
    var hops := [here] + rest;
    forall i | 0 < i < |hops| ensures Delegation(env, hops[i - 1], hops[i], deadline, trace) {
      if i > 1 {
        assert hops[i - 1] == rest[i - 2] && hops[i] == rest[i - 1];
      }
    }
  }

  /** The servers a referral leads to are delegated by it. */
  lemma ReferralDelegates(env: Env, w2: World, here: Hop, to: Hop, deadline: nat, trace: seq<Exchange>)
    requires !Final(here.response) && here.at + 1 == |w2.trace|
    requires var (w3, next) :=
      Addresses(env, w2, NsNames(here.response.authority), Glue(here.response.additional), deadline);
      next != [] && to.servers == next && w3.trace <= trace && |w3.trace| <= to.at <= |trace|
    ensures Delegation(env, here, to, deadline, trace)
  {
    hide DelegatedTo, Addresses, Glue, NsNames, Final;
    var m := here.response;
    var (w3, next) := Addresses(env, w2, NsNames(m.authority), Glue(m.additional), deadline);
    forall addr | addr in next ensures DelegatedTo(env, m, addr, deadline, here.at + 1, trace[..to.at]) {
      AddressesDelegated(env, w2, NsNames(m.authority), m, deadline, addr);
      assert w3.trace <= trace[..to.at];
      DelegatedGrows(env, m, addr, deadline, |w2.trace|, w3.trace, here.at + 1, trace[..to.at]);
    }
  }

  lemma {:induction false} WalkChain(env: Env, w: World, servers: seq<Server>, depth: nat, q: Query, deadline: nat)
    returns (hops: seq<Hop>)
    requires Walk(env, w, servers, depth, q, deadline).1.Ok?
    ensures var (w', r) := Walk(env, w, servers, depth, q, deadline);
      && 0 < |hops| && depth + |hops| <= env.maxDepth
      && hops[0].servers == servers
      && hops[|hops| - 1].response == r.value && Final(r.value)
      && Chain(env, hops, w'.trace, q, deadline, |w.trace|)
    decreases env.maxDepth - depth
  {
    hide Answered, Delegation, Addresses, QueryServers, Final, Glue, NsNames, InOrder;
    var w1 := Tick(env, w);
    var (w2, r) := QueryServers(env, w1, servers, q, deadline);
    QueryAnswered(env, w1, servers, q, deadline);
    var here := Hop(servers, r.value, |w2.trace| - 1);
    if Final(r.value) {
      hops := [here];
    } else {
      var (w3, next) := Addresses(env, w2, NsNames(r.value.authority), Glue(r.value.additional), deadline);
      var rest := WalkChain(env, w3, next, depth + 1, q, deadline);
      hops := [here] + rest;
      var w' := Walk(env, w3, next, depth + 1, q, deadline).0;
      assert Walk(env, w, servers, depth, q, deadline).0 == w';
      AnsweredGrows(w2.trace, w'.trace, here, q);
      ChainAt(env, rest, w'.trace, q, deadline, |w3.trace|);
      ReferralDelegates(env, w2, here, rest[0], deadline, w'.trace);
      ChainExtends(env, here, rest, w'.trace, q, deadline, |w.trace|, |w3.trace|);
    }
  }

  lemma ChainAt(env: Env, hops: seq<Hop>, trace: seq<Exchange>, q: Query, deadline: nat, start: nat)
    requires hops != [] && Chain(env, hops, trace, q, deadline, start)
    ensures start <= hops[0].at < |trace|
  {
    assert Answered(trace, hops[0], q);
  }

  /** Every Ok result was given by a server reached from the configured roots
      through fewer than `maxDepth` referrals, each of which is backed by the NS
      records of the response before it; and it has answers, an error code, or
      no NS record. The exchanges of the chain are the walk's own, in order, and
      the lookups that back a referral lie between the two exchanges it links. */
  lemma ResultIsDelegated(env: Env, w: World, q: Query, deadline: nat) returns (hops: seq<Hop>)
    requires Iterative(env, w, q, deadline).1.Ok?
    ensures var (w', r) := Iterative(env, w, q, deadline);
      && 0 < |hops| <= env.maxDepth
      && hops[0].servers == env.roots
      && hops[|hops| - 1].response == r.value && Final(r.value)
      && Chain(env, hops, w'.trace, q, deadline, |w.trace|)
  {
    hops := WalkChain(env, w, env.roots, 0, q, deadline);
  }
}

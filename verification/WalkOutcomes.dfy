/** What a resolution returns and why, said of the network's answers and the
    clock: when each server is asked, who answers, what each referral leads to,
    and what each failure means. */
module WalkOutcomes {
  import opened Octets
  import opened Results
  import opened Names
  import opened Messages
  import opened Recursion

  // ---- asking servers in turn ----------------------------------------------

  /** One call of `query_servers`: the listed servers are asked from `w` on. */
  datatype Round = Round(env: Env, w: World, servers: seq<Server>, q: Query)

  /** When the first `k` servers have been asked, all in vain. */
  function FreeAt(x: Round, k: nat): nat
    requires k <= |x.servers|
    decreases k
  {
    if k == 0 then x.w.clock
    else
      var t := FreeAt(x, k - 1) + x.env.lag(x.w.readings + k - 1);
      t + x.env.net(x.servers[k - 1], x.q, t).ticks
  }

  /** What the clock says when it is the turn of server `k`. */
  function AskTime(x: Round, k: nat): nat
    requires k <= |x.servers|
  {
    FreeAt(x, k) + x.env.lag(x.w.readings + k)
  }

  function ReplyOf(x: Round, k: nat): Reply
    requires k < |x.servers|
  {
    x.env.net(x.servers[k], x.q, AskTime(x, k))
  }

  predicate Usable(x: Round, k: nat)
    requires k < |x.servers|
  {
    var m := ReplyOf(x, k).message;
    m.Some? && m.value.header.qr
  }

  /** The first `n` exchanges. */
  function Asked(x: Round, n: nat): (trace: seq<Exchange>)
    requires n <= |x.servers|
    ensures |trace| == n
  {
    if n == 0 then []
    else Asked(x, n - 1) + [Exchange(x.servers[n - 1], x.q, AskTime(x, n - 1), ReplyOf(x, n - 1).message)]
  }

  /** The first `n` servers were asked in time and gave nothing usable. */
  predicate InVain(x: Round, deadline: nat, n: nat)
    requires n <= |x.servers|
  {
    forall j :: 0 <= j < n ==> AskTime(x, j) < deadline && !Usable(x, j)
  }

  /** Server `k` is the first to answer, and it was asked in time. */
  ghost predicate AnsweredBy(x: Round, deadline: nat, k: nat, w': World, m: Message) {
    && k < |x.servers|
    && InVain(x, deadline, k)
    && AskTime(x, k) < deadline && Usable(x, k) && m == ReplyOf(x, k).message.value
    && w' == World(FreeAt(x, k + 1), x.w.readings + k + 1, x.w.trace + Asked(x, k + 1))
  }

  /** The first `n` servers were asked in vain, and either there are no more or
      the deadline had come when it was the next one's turn. */
  ghost predicate NobodyAnswers(x: Round, deadline: nat, n: nat, w': World) {
    && n <= |x.servers|
    && InVain(x, deadline, n)
    && if n == |x.servers| then w' == World(FreeAt(x, n), x.w.readings + n, x.w.trace + Asked(x, n))
       else
         AskTime(x, n) >= deadline && w' == World(AskTime(x, n), x.w.readings + n + 1, x.w.trace + Asked(x, n))
  }

  /** The round that is left after its first server failed. */
  function Rest(x: Round): Round
    requires x.servers != []
  {
    var w := World(FreeAt(x, 1), x.w.readings + 1, x.w.trace + Asked(x, 1));
    Round(x.env, w, x.servers[1..], x.q)
  }

  lemma NextFree(x: Round, k: nat)
    requires k < |x.servers|
    ensures FreeAt(x, k + 1) == AskTime(x, k) + ReplyOf(x, k).ticks
  {
  }

  lemma RestFields(x: Round)
    requires x.servers != []
    ensures Rest(x) == Round(x.env, World(FreeAt(x, 1), x.w.readings + 1, x.w.trace + Asked(x, 1)), x.servers[1..], x.q)
    ensures FreeAt(Rest(x), 0) == FreeAt(x, 1)
  {
  }

  lemma {:induction false} RestTimes(x: Round, k: nat)
    requires k < |x.servers|
    ensures FreeAt(Rest(x), k) == FreeAt(x, k + 1) && AskTime(Rest(x), k) == AskTime(x, k + 1)
    decreases k
  {
    hide FreeAt, Rest;
    RestFields(x);
    if k == 0 {
    } else {
      RestTimes(x, k - 1);
      NextFree(x, k);
      NextFree(Rest(x), k - 1);
    }
  }

  lemma RestReply(x: Round, k: nat)
    requires k + 1 < |x.servers|
    ensures AskTime(Rest(x), k) == AskTime(x, k + 1) && ReplyOf(Rest(x), k) == ReplyOf(x, k + 1)
    ensures Usable(Rest(x), k) == Usable(x, k + 1)
  {
    hide AskTime, FreeAt, Rest;
    RestFields(x);
    RestTimes(x, k);
  }

  lemma {:induction false} RestAsked(x: Round, n: nat)
    requires n < |x.servers|
    ensures x.w.trace + Asked(x, n + 1) == Rest(x).w.trace + Asked(Rest(x), n)
  {
    hide AskTime, FreeAt, ReplyOf, Rest;
    RestFields(x);
    if n == 0 {
      assert Asked(Rest(x), 0) == [];
    } else {
      RestAsked(x, n - 1);
      RestReply(x, n - 1);
      var e := Exchange(x.servers[n], x.q, AskTime(x, n), ReplyOf(x, n).message);
      assert Asked(x, n + 1) == Asked(x, n) + [e];
      assert Asked(Rest(x), n) == Asked(Rest(x), n - 1) + [e];
      var t, y := x.w.trace, Rest(x).w.trace;
      assert t + Asked(x, n + 1) == (t + Asked(x, n)) + [e] == (y + Asked(Rest(x), n - 1)) + [e];
    }
  }

  lemma InVainRest(x: Round, deadline: nat, n: nat)
    requires n < |x.servers|
    requires AskTime(x, 0) < deadline && !Usable(x, 0) && InVain(Rest(x), deadline, n)
    ensures InVain(x, deadline, n + 1)
  {
    hide AskTime, Usable;
    forall j | 0 <= j < n + 1 ensures AskTime(x, j) < deadline && !Usable(x, j) {
      if j > 0 {
        RestReply(x, j - 1);
      }
    }
  }

  lemma AnsweredRest(x: Round, deadline: nat, k: nat, w': World, m: Message)
    requires x.servers != [] && AskTime(x, 0) < deadline && !Usable(x, 0)
    requires AnsweredBy(Rest(x), deadline, k, w', m)
    ensures AnsweredBy(x, deadline, k + 1, w', m)
  {
    hide AskTime, FreeAt, InVain, Asked, ReplyOf, Usable;
    InVainRest(x, deadline, k);
    RestReply(x, k);
    RestAsked(x, k + 1);
    RestTimes(x, k + 1);
  }

  lemma NobodyRest(x: Round, deadline: nat, n: nat, w': World)
    requires x.servers != [] && AskTime(x, 0) < deadline && !Usable(x, 0)
    requires NobodyAnswers(Rest(x), deadline, n, w')
    ensures NobodyAnswers(x, deadline, n + 1, w')
  {
    hide AskTime, FreeAt, InVain, Asked, ReplyOf;
    InVainRest(x, deadline, n);
    RestAsked(x, n);
    RestTimes(x, n);
  }

  /** A call of `query_servers` asks the servers in order until one answers. It
      fails only when all were asked in vain or the deadline came first. */
  lemma {:induction false} QueryServersMeets(env: Env, w: World, servers: seq<Server>, q: Query, deadline: nat)
    returns (n: nat)
    ensures var x, (w', r) := Round(env, w, servers, q), QueryServers(env, w, servers, q, deadline);
      match r
      case Ok(m) => AnsweredBy(x, deadline, n, w', m)
      case Err(e) => e == Unreachable && NobodyAnswers(x, deadline, n, w')
    decreases |servers|
  {
    hide Paid, AskTime, FreeAt, Rest;
    var x := Round(env, w, servers, q);
    n := 0;
    assert x.w.trace + Asked(x, 0) == w.trace;
    FirstTurn(x);
    if servers == [] {
    } else if AskTime(x, 0) < deadline && !Usable(x, 0) {
      var y := Rest(x);
      var rest := QueryServersMeets(env, y.w, servers[1..], q, deadline);
      n := rest + 1;
      OneInVain(x, deadline);
      RestFields(x);
      var (w', r) := QueryServers(env, y.w, servers[1..], q, deadline);
      if r.Ok? {
        AnsweredRest(x, deadline, rest, w', r.value);
      } else {
        NobodyRest(x, deadline, rest, w');
      }
    }
  }

  lemma FirstTurn(x: Round)
    ensures FreeAt(x, 0) == x.w.clock && AskTime(x, 0) == Tick(x.env, x.w).clock
    ensures x.servers != [] ==>
      && Asked(x, 1) == [Exchange(x.servers[0], x.q, AskTime(x, 0), ReplyOf(x, 0).message)]
      && FreeAt(x, 1) == AskTime(x, 0) + ReplyOf(x, 0).ticks
  {
    if x.servers != [] {
      NextFree(x, 0);
      assert Asked(x, 0) == [];
    }
  }

  lemma OneInVain(x: Round, deadline: nat)
    requires x.servers != [] && AskTime(x, 0) < deadline && !Usable(x, 0)
    ensures QueryServers(x.env, x.w, x.servers, x.q, deadline)
      == QueryServers(x.env, Rest(x).w, x.servers[1..], x.q, deadline)
  {
    hide Paid, AskTime, FreeAt;
    FirstTurn(x);
    RestFields(x);
    var w1 := Tick(x.env, x.w);
    var reply := x.env.net(x.servers[0], x.q, w1.clock);
    assert ReplyOf(x, 0) == reply;
    var ex := Exchange(x.servers[0], x.q, w1.clock, reply.message);
    assert Rest(x).w == w1.(clock := w1.clock + reply.ticks, trace := w1.trace + [ex]);
  }

  lemma {:induction false} TurnsInOrder(x: Round, j: nat, k: nat)
    requires j <= k <= |x.servers|
    ensures AskTime(x, j) <= AskTime(x, k)
    decreases k
  {
    if j < k {
      TurnsInOrder(x, j, k - 1);
    }
  }

  /** It succeeds exactly when some listed server, asked in its turn, would answer
      and its turn comes before the deadline. */
  lemma SucceedsExactly(env: Env, w: World, servers: seq<Server>, q: Query, deadline: nat)
    ensures var x := Round(env, w, servers, q);
      QueryServers(env, w, servers, q, deadline).1.Ok? <==>
        exists k :: 0 <= k < |servers| && AskTime(x, k) < deadline && Usable(x, k)
  {
    hide QueryServers, AskTime, Usable, Paid;
    var x := Round(env, w, servers, q);
    var n := QueryServersMeets(env, w, servers, q, deadline);
    if QueryServers(env, w, servers, q, deadline).1.Err? {
      forall k | 0 <= k < |servers| && AskTime(x, k) < deadline ensures !Usable(x, k) {
        if n <= k {
          TurnsInOrder(x, n, k);
        }
      }
    }
  }

  // ---- what a response says ------------------------------------------------

  /** `out` is what `pick` takes from the records, in their order. */
  predicate Picks<T(==)>(rs: seq<Record>, pick: Record -> Option<T>, out: seq<T>)
    decreases |rs|
  {
    if rs == [] then out == []
    else if pick(rs[0]).Some? then out != [] && pick(rs[0]) == Some(out[0]) && Picks(rs[1..], pick, out[1..])
    else Picks(rs[1..], pick, out)
  }

  /** The target of an NS record. */
  function NsTarget(r: Record): Option<Name> {
    if r.rtype == 2 && r.data.NameData? then Some(r.data.target) else None
  }

  /** The address of a record of that type, at port 53. */
  function AddressFrom(rtype: int): Record -> Option<Server> {
    (r: Record) =>
      if rtype == 1 && r.rtype == 1 && r.data.A? then Some(V4(r.data.ip4, 53))
      else if rtype == 28 && r.rtype == 28 && r.data.Aaaa? then Some(V6(r.data.ip6, 53))
      else None
  }

  predicate IsAddress(d: RData, addr: Server) {
    (d.A? && addr == V4(d.ip4, 53)) || (d.Aaaa? && addr == V6(d.ip6, 53))
  }

  predicate NoAddress(rs: seq<Record>, ns: Name) {
    forall r :: r in rs && r.name == ns ==> !r.data.A? && !r.data.Aaaa?
  }

  /** The last address record of that owner, if it has any, holds the address. */
  ghost predicate LastAddress(rs: seq<Record>, ns: Name, addr: Server) {
    exists i :: 0 <= i < |rs| && rs[i].name == ns && IsAddress(rs[i].data, addr) && NoAddress(rs[i + 1..], ns)
  }

  /** The response is the answer: it has answers, an error code, or no NS record. */
  predicate Conclusive(m: Message) {
    || m.answers != []
    || m.header.rcode != 0
    || forall r :: r in m.authority && r.data.NameData? ==> r.rtype != 2
  }

  lemma {:induction false} NsNamesMeet(rs: seq<Record>)
    ensures Picks(rs, NsTarget, NsNames(rs))
  {
    if rs != [] {
      NsNamesMeet(rs[1..]);
    }
  }

  lemma {:induction false} AddressesMeet(rs: seq<Record>, rtype: u16)
    requires rtype == 1 || rtype == 28
    ensures Picks(rs, AddressFrom(rtype), AddressesOf(rs, rtype))
  {
    if rs != [] {
      AddressesMeet(rs[1..], rtype);
    }
  }

  lemma AddressLast(front: seq<Record>, last: Record, ns: Name, addr: Server)
    requires last.name == ns && IsAddress(last.data, addr)
    ensures LastAddress(front + [last], ns, addr)
  {
    var rs, m := front + [last], |front|;
    assert rs[m] == last && rs[m + 1..] == [];
  }

  lemma AddressEarlier(front: seq<Record>, last: Record, ns: Name, addr: Server)
    requires LastAddress(front, ns, addr) && NoAddress([last], ns)
    ensures LastAddress(front + [last], ns, addr)
  {
    hide IsAddress;
    var i :| 0 <= i < |front| && front[i].name == ns && IsAddress(front[i].data, addr) && NoAddress(front[i + 1..], ns);
    var rs := front + [last];
    assert rs[i] == front[i] && rs[i + 1..] == front[i + 1..] + [last];
    NoAddressTwice(front[i + 1..], [last], ns);
  }

  lemma NoAddressTwice(a: seq<Record>, b: seq<Record>, ns: Name)
    ensures NoAddress(a + b, ns) <==> NoAddress(a, ns) && NoAddress(b, ns)
  {
    assert forall r :: r in a + b <==> r in a || r in b;
  }

  lemma {:induction false} GlueMeets(rs: seq<Record>, ns: Name)
    ensures if ns in Glue(rs) then LastAddress(rs, ns, Glue(rs)[ns]) else NoAddress(rs, ns)
  {
    hide LastAddress;
    if rs == [] {
    } else {
      var m := |rs| - 1;
      var front, last := rs[..m], rs[m];
      assert rs == front + [last];
      GlueMeets(front, ns);
      NoAddressTwice(front, [last], ns);
      if last.name == ns && AddressIn(last.data).Some? {
        AddressLast(front, last, ns, Glue(rs)[ns]);
      } else if ns in Glue(front) {
        AddressEarlier(front, last, ns, Glue(front)[ns]);
      }
    }
  }

  lemma {:induction false} NoNsNames(rs: seq<Record>)
    ensures NsNames(rs) == [] <==> forall r :: r in rs && r.data.NameData? ==> r.rtype != 2
  {
    if rs != [] {
      NoNsNames(rs[1..]);
      assert forall r :: r in rs <==> r == rs[0] || r in rs[1..];
    }
  }

  lemma FinalMeans(m: Message)
    ensures Final(m) <==> Conclusive(m)
  {
    NoNsNames(m.authority);
  }

  // ---- where a referral leads ----------------------------------------------

  /** The addresses one walk for the nameserver's name yields: those of the type
      among answers and additional records, or none if the walk fails. */
  ghost predicate Finds(env: Env, w: World, ns: Name, rtype: u16, deadline: nat, w': World, found: seq<Server>) {
    var (after, r) := Iterative(env, w, Query(ns, rtype, None), deadline);
    && w' == after
    && if r.Ok? then Picks(r.value.answers + r.value.additional, AddressFrom(rtype), found) else found == []
  }

  /** What one NS name contributes: the glue of the response and nothing else, or
      without glue what a walk for its IPv4 addresses finds, or if that is nothing
      a second walk for its IPv6 addresses. */
  ghost predicate Contributes(
    env: Env, w: World, m: Message, ns: Name, deadline: nat, w': World, part: seq<Server>)
  {
    || (w' == w && exists addr :: LastAddress(m.additional, ns, addr) && part == [addr])
    || (NoAddress(m.additional, ns) && part != [] && Finds(env, w, ns, 1, deadline, w', part))
    || (NoAddress(m.additional, ns) && exists between ::
          Finds(env, w, ns, 1, deadline, between, []) && Finds(env, between, ns, 28, deadline, w', part))
  }

  /** The names contribute in turn. */
  ghost predicate Supplies(
    env: Env, w: World, m: Message, names: seq<Name>, deadline: nat, w': World, next: seq<Server>)
    decreases |names|
  {
    if names == [] then w' == w && next == []
    else exists between, part, rest ::
      && Contributes(env, w, m, names[0], deadline, between, part)
      && Supplies(env, between, m, names[1..], deadline, w', rest)
      && next == part + rest
  }

  /** The servers a referral leads to. */
  ghost predicate LeadsTo(env: Env, w: World, m: Message, deadline: nat, w': World, next: seq<Server>) {
    exists names :: Picks(m.authority, NsTarget, names) && Supplies(env, w, m, names, deadline, w', next)
  }

  lemma LookupMeets(env: Env, w: World, ns: Name, rtype: u16, deadline: nat)
    requires rtype == 1 || rtype == 28
    ensures var (w', found) := Lookup(env, w, ns, rtype, deadline); Finds(env, w, ns, rtype, deadline, w', found)
  {
    hide Iterative, Picks, AddressesOf, Paid;
    var r := Iterative(env, w, Query(ns, rtype, None), deadline).1;
    if r.Ok? {
      AddressesMeet(r.value.answers + r.value.additional, rtype);
    }
  }

  lemma GluelessMeets(env: Env, w: World, m: Message, ns: Name, deadline: nat)
    requires NoAddress(m.additional, ns)
    ensures var (w', part) := Glueless(env, w, ns, deadline); Contributes(env, w, m, ns, deadline, w', part)
  {
    hide Lookup, Finds, NoAddress, LastAddress, Paid;
    LookupMeets(env, w, ns, TYPE_A, deadline);
    LookupMeets(env, Lookup(env, w, ns, TYPE_A, deadline).0, ns, TYPE_AAAA, deadline);
  }

  lemma {:induction false} AddressesMeetNames(env: Env, w: World, m: Message, names: seq<Name>, deadline: nat)
    ensures var (w', next) := Addresses(env, w, names, Glue(m.additional), deadline);
      Supplies(env, w, m, names, deadline, w', next)
    decreases |names|
  {
    hide Glue, Glueless, Finds, NoAddress, LastAddress, Paid;
    if names == [] {
    } else {
      var ns, glue := names[0], Glue(m.additional);
      GlueMeets(m.additional, ns);
      var (between, part) := if ns in glue then (w, [glue[ns]]) else Glueless(env, w, ns, deadline);
      if ns !in glue {
        GluelessMeets(env, w, m, ns, deadline);
      }
      assert Contributes(env, w, m, ns, deadline, between, part);
      AddressesMeetNames(env, between, m, names[1..], deadline);
    }
  }

  lemma ReferralMeets(env: Env, w: World, m: Message, deadline: nat)
    ensures var (w', next) := Addresses(env, w, NsNames(m.authority), Glue(m.additional), deadline);
      LeadsTo(env, w, m, deadline, w', next)
  {
    hide Addresses, Supplies, Picks, NsNames, Glue;
    NsNamesMeet(m.authority);
    AddressesMeetNames(env, w, m, NsNames(m.authority), deadline);
  }

  // ---- the walk ------------------------------------------------------------

  /** One referral: the loop reads the clock in `before`, one of the servers
      answers with a referral, and that leads to the next servers. */
  datatype Stop = Stop(before: World, servers: seq<Server>, answered: World, response: Message,
                       after: World, next: seq<Server>)

  /** The world after one more reading of the clock. */
  function Later(env: Env, w: World): World {
    World(w.clock + env.lag(w.readings), w.readings + 1, w.trace)
  }

  /** The clock is read before the deadline, and then a listed server answers. */
  ghost predicate Answers(
    env: Env, before: World, servers: seq<Server>, q: Query, deadline: nat, answered: World, m: Message)
  {
    && Later(env, before).clock < deadline
    && exists k :: AnsweredBy(Round(env, Later(env, before), servers, q), deadline, k, answered, m)
  }

  ghost predicate Refers(env: Env, q: Query, deadline: nat, s: Stop) {
    && Answers(env, s.before, s.servers, q, deadline, s.answered, s.response)
    && !Conclusive(s.response)
    && LeadsTo(env, s.answered, s.response, deadline, s.after, s.next)
    && s.next != []
  }

  /** The stops lead from these servers to those, one referral after the other. */
  ghost predicate Path(
    env: Env, q: Query, deadline: nat, w: World, servers: seq<Server>, stops: seq<Stop>, w': World, last: seq<Server>)
    decreases |stops|
  {
    if stops == [] then w' == w && last == servers
    else
      && stops[0].before == w && stops[0].servers == servers
      && Refers(env, q, deadline, stops[0])
      && Path(env, q, deadline, stops[0].after, stops[0].next, stops[1..], w', last)
  }

  /** The last round of a walk, from these servers on: a conclusive response, or
      the reason why there is none. */
  ghost predicate Concludes(
    env: Env, q: Query, deadline: nat, before: World, servers: seq<Server>, w': World, r: Outcome)
  {
    match r
    case Ok(m) => Answers(env, before, servers, q, deadline, w', m) && Conclusive(m)
    case Err(DeadlineExceeded) => w' == Later(env, before) && w'.clock >= deadline
    case Err(Unreachable) =>
      && Later(env, before).clock < deadline
      && exists n :: NobodyAnswers(Round(env, Later(env, before), servers, q), deadline, n, w')
    case Err(NoNameservers) =>
      exists answered, m ::
        && Answers(env, before, servers, q, deadline, answered, m) && !Conclusive(m)
        && LeadsTo(env, answered, m, deadline, w', [])
    case Err(DepthExceeded) => false
  }

  /** A walk over at most `depth` rounds: referrals lead to a last round, or all
      rounds are referrals and the depth is used up. */
  ghost predicate WalkEnds(
    env: Env, q: Query, deadline: nat, w: World, servers: seq<Server>, depth: nat, stops: seq<Stop>, w': World,
    r: Outcome)
  {
    exists before, last ::
      && Path(env, q, deadline, w, servers, stops, before, last)
      && if r == Err(DepthExceeded) then |stops| == depth && w' == before
         else |stops| < depth && Concludes(env, q, deadline, before, last, w', r)
  }

  lemma PathExtends(env: Env, q: Query, deadline: nat, depth: nat, stop: Stop, stops: seq<Stop>, w': World, r: Outcome)
    requires Refers(env, q, deadline, stop) && depth > 0
    requires WalkEnds(env, q, deadline, stop.after, stop.next, depth - 1, stops, w', r)
    ensures WalkEnds(env, q, deadline, stop.before, stop.servers, depth, [stop] + stops, w', r)
  {
    hide Refers, Concludes;
    var before, last :| Path(env, q, deadline, stop.after, stop.next, stops, before, last)
      && if r == Err(DepthExceeded) then |stops| == depth - 1 && w' == before
         else |stops| < depth - 1 && Concludes(env, q, deadline, before, last, w', r);
    assert ([stop] + stops)[1..] == stops;
    assert Path(env, q, deadline, stop.before, stop.servers, [stop] + stops, before, last);
  }

  /** A walk that ends in its first round. */
  lemma EndsAtOnce(
    env: Env, q: Query, deadline: nat, w: World, servers: seq<Server>, depth: nat, w': World, r: Outcome)
    requires if r == Err(DepthExceeded) then depth == 0 && w' == w
             else depth > 0 && Concludes(env, q, deadline, w, servers, w', r)
    ensures WalkEnds(env, q, deadline, w, servers, depth, [], w', r)
  {
    hide Concludes;
    assert Path(env, q, deadline, w, servers, [], w, servers);
  }

  lemma AskedMeets(env: Env, before: World, servers: seq<Server>, q: Query, deadline: nat)
    requires Later(env, before).clock < deadline
    ensures var (w', r) := QueryServers(env, Later(env, before), servers, q, deadline);
      match r
      case Ok(m) => Answers(env, before, servers, q, deadline, w', m)
      case Err(e) => e == Unreachable && exists n ::
        NobodyAnswers(Round(env, Later(env, before), servers, q), deadline, n, w')
  {
    hide QueryServers, AnsweredBy, NobodyAnswers;
    var n := QueryServersMeets(env, Later(env, before), servers, q, deadline);
  }

  lemma {:induction false} WalkMeets(env: Env, w: World, servers: seq<Server>, depth: nat, q: Query, deadline: nat)
    returns (stops: seq<Stop>)
    requires depth <= env.maxDepth
    ensures var (w', r) := Walk(env, w, servers, depth, q, deadline);
      WalkEnds(env, q, deadline, w, servers, env.maxDepth - depth, stops, w', r)
    decreases env.maxDepth - depth
  {
    hide QueryServers, Addresses, AnsweredBy, NobodyAnswers, WalkEnds, LeadsTo, Final, Conclusive, Paid;
    stops := [];
    var (w', res) := Walk(env, w, servers, depth, q, deadline);
    var left := env.maxDepth - depth;
    assert Later(env, w) == Tick(env, w);
    if depth == env.maxDepth || Later(env, w).clock >= deadline {
      EndsAtOnce(env, q, deadline, w, servers, left, w', res);
    } else {
      AskedMeets(env, w, servers, q, deadline);
      var (answered, r) := QueryServers(env, Later(env, w), servers, q, deadline);
      if r.Ok? {
        FinalMeans(r.value);
      }
      if r.Err? || Final(r.value) {
        EndsAtOnce(env, q, deadline, w, servers, left, w', res);
      } else {
        ReferralMeets(env, answered, r.value, deadline);
        var (after, next) :=
          Addresses(env, answered, NsNames(r.value.authority), Glue(r.value.additional), deadline);
        if next == [] {
          EndsAtOnce(env, q, deadline, w, servers, left, w', res);
        } else {
          var stop := Stop(w, servers, answered, r.value, after, next);
          var rest := WalkMeets(env, after, next, depth + 1, q, deadline);
          PathExtends(env, q, deadline, left, stop, rest, w', res);
          stops := [stop] + rest;
        }
      }
    }
  }

  /** Every resolution, successful or not: referrals lead from the configured
      roots to a conclusive response or to the cause of the failure. */
  lemma ResolutionMeets(env: Env, w: World, q: Query, deadline: nat) returns (stops: seq<Stop>)
    ensures var (w', r) := Iterative(env, w, q, deadline);
      WalkEnds(env, q, deadline, w, env.roots, env.maxDepth, stops, w', r)
  {
    stops := WalkMeets(env, w, env.roots, 0, q, deadline);
  }

  // ---- what each failure means ---------------------------------------------

  /** Both walks for the nameserver's addresses found none. */
  ghost predicate LookedUpInVain(env: Env, ns: Name, deadline: nat) {
    exists w, between, after ::
      Finds(env, w, ns, 1, deadline, between, []) && Finds(env, between, ns, 28, deadline, after, [])
  }

  lemma {:induction false} SuppliesNothing(
    env: Env, w: World, m: Message, names: seq<Name>, deadline: nat, w': World, ns: Name)
    requires Supplies(env, w, m, names, deadline, w', []) && ns in names
    ensures NoAddress(m.additional, ns) && LookedUpInVain(env, ns, deadline)
    decreases |names|
  {
    hide Finds, NoAddress, LastAddress;
    var between, part, rest :| Contributes(env, w, m, names[0], deadline, between, part)
      && Supplies(env, between, m, names[1..], deadline, w', rest) && [] == part + rest;
    if ns != names[0] {
      SuppliesNothing(env, between, m, names[1..], deadline, w', ns);
    }
  }

  lemma {:induction false} PickedAll(rs: seq<Record>, names: seq<Name>, r: Record)
    requires Picks(rs, NsTarget, names) && r in rs && r.rtype == 2 && r.data.NameData?
    ensures r.data.target in names
  {
    if r != rs[0] {
      PickedAll(rs[1..], if NsTarget(rs[0]).Some? then names[1..] else names, r);
    }
  }

  /** When a referral leads nowhere, no NS record of it has glue, and both walks
      for each of its names found nothing. */
  lemma LeadsNowhere(env: Env, w: World, m: Message, deadline: nat, w': World, r: Record)
    requires LeadsTo(env, w, m, deadline, w', []) && r in m.authority && r.rtype == 2 && r.data.NameData?
    ensures NoAddress(m.additional, r.data.target) && LookedUpInVain(env, r.data.target, deadline)
  {
    hide Supplies, Picks, NoAddress, LookedUpInVain;
    var names :| Picks(m.authority, NsTarget, names) && Supplies(env, w, m, names, deadline, w', []);
    PickedAll(m.authority, names, r);
    SuppliesNothing(env, w, m, names, deadline, w', r.data.target);
  }
}

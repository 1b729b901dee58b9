/** The router's routes: TCP connections that several AmsNetIds may share, counted by their AddRoute calls. */
module Routes {
  import opened AdsConstants
  import opened Bytes
  import AdsRequests

  const ROUTERERR_PORTALREADYINUSE := 0x506

  type NetId = AdsRequests.NetId
  /** A socket address: family, address and port. */
  type Address = nat

  // ---- State and steps -------------------------------------------------------------------------

  datatype Link = Link(ownIp: uint32, refCount: uint64)

  /** The owned connections by the address of their peer, and the mapping from AmsNetIds to connections. */
  datatype State = State(links: map<Address, Link>, routes: map<NetId, Address>)

  /** The calls that can change the state: an AddRoute that used or opened the connection to peer, and a DelRoute. */
  datatype Event =
    | Added(ams: NetId, hosts: seq<Address>, peer: Address, ownIp: uint32)
    | Deleted(ams: NetId)

  predicate MappedAreOwned(s: State) {
    forall ams <- s.routes :: s.routes[ams] in s.links
  }

  /** ams has a route, and it leads to none of these addresses. */
  predicate Conflicts(s: State, ams: NetId, hosts: seq<Address>) {
    ams in s.routes && s.routes[ams] !in hosts
  }

  predicate AnyConnected(s: State, hosts: seq<Address>) {
    exists h <- hosts :: h in s.links
  }

  predicate Enabled(s: State, e: Event) {
    match e
    case Added(ams, hosts, peer, _) =>
      !Conflicts(s, ams, hosts) && peer in hosts && (AnyConnected(s, hosts) ==> peer in s.links)
    case Deleted(_) => true
  }

  /** size_t arithmetic: ++ and --. */
  function Up(count: uint64): uint64 {
    (count + 1) % SIZES
  }

  function Down(count: uint64): uint64 {
    (count + SIZES - 1) % SIZES
  }

  function Apply(s: State, e: Event): State
    requires MappedAreOwned(s)
  {
    match e
    case Added(ams, _, peer, ownIp) =>
      var link := if peer in s.links then s.links[peer] else Link(ownIp, 0);
      State(s.links[peer := link.(refCount := Up(link.refCount))], s.routes[ams := peer])
    case Deleted(ams) =>
      if ams in s.routes then Release(s, ams) else s
  }

  function Release(s: State, ams: NetId): State
    requires MappedAreOwned(s) && ams in s.routes
  {
    var peer := s.routes[ams];
    var left := Down(s.links[peer].refCount);
    var links := s.links[peer := s.links[peer].(refCount := left)];
    if left != 0 then s.(links := links)
    else if LastRoute(s, ams) then State(s.links - {peer}, s.routes - {ams})
    else State(links, s.routes - {ams})
  }

  /** No other AmsNetId is mapped to the connection of ams. */
  predicate LastRoute(s: State, ams: NetId)
    requires ams in s.routes
  {
    forall b <- s.routes :: b != ams ==> s.routes[b] != s.routes[ams]
  }

  /** A connection that was just opened is attached like one that was there. */
  lemma AttachOpened(s: State, ams: NetId, hosts: seq<Address>, peer: Address, ownIp: uint32)
    requires MappedAreOwned(s) && peer !in s.links
    ensures Apply(State(s.links[peer := Link(ownIp, 0)], s.routes), Added(ams, hosts, peer, ownIp))
            == Apply(s, Added(ams, hosts, peer, ownIp))
  {
    assert s.links[peer := Link(ownIp, 0)][peer := Link(ownIp, 1)] == s.links[peer := Link(ownIp, 1)];
  }

  lemma AttachInSteps(s: State, ams: NetId, hosts: seq<Address>, peer: Address, ownIp: uint32)
    requires MappedAreOwned(s) && peer in s.links && s.links[peer].ownIp == ownIp
    ensures Apply(s, Added(ams, hosts, peer, ownIp))
            == State(s.links[peer := Link(ownIp, Up(s.links[peer].refCount))], s.routes[ams := peer])
  {
  }

  /** A release in the router's own steps: count down, unmap, look for other routes. */
  lemma ReleaseInSteps(s: State, ams: NetId, peer: Address)
    requires MappedAreOwned(s) && RouteTo(s, ams, peer)
    ensures var left := Down(s.links[peer].refCount);
            var counted := State(s.links[peer := Link(s.links[peer].ownIp, left)], s.routes);
            var unmapped := State(counted.links, counted.routes - {ams});
            Apply(s, Deleted(ams)) ==
            if left != 0 then counted
            else if exists b :: RouteTo(unmapped, b, peer) then unmapped
            else State(unmapped.links - {peer}, unmapped.routes)
  {
    var links := s.links[peer := Link(s.links[peer].ownIp, Down(s.links[peer].refCount))];
    assert links - {peer} == s.links - {peer};
    var unmapped := State(links, s.routes - {ams});
    if !LastRoute(s, ams) {
      var b :| b in s.routes && b != ams && s.routes[b] == peer;
      assert RouteTo(unmapped, b, peer);
    }
  }

  // ---- Runs ------------------------------------------------------------------------------------

  ghost predicate IsRun(run: seq<Event>)
    decreases |run|, 0
  {
    run != [] ==> IsRun(Init(run)) && Enabled(After(Init(run)), Last(run))
  }

  /** The state after a run. Whatever the run, every mapped connection is still owned. */
  ghost function After(run: seq<Event>): (s: State)
    requires IsRun(run)
    ensures MappedAreOwned(s)
    decreases |run|, 1
  {
    if run == [] then State(map[], map[]) else Apply(After(Init(run)), Last(run))
  }

  function Init(run: seq<Event>): seq<Event>
    requires run != []
  {
    run[..|run| - 1]
  }

  function Last(run: seq<Event>): Event
    requires run != []
  {
    run[|run| - 1]
  }

  lemma Extend(run: seq<Event>, e: Event)
    requires IsRun(run) && Enabled(After(run), e)
    ensures IsRun(run + [e]) && After(run + [e]) == Apply(After(run), e)
    ensures Init(run + [e]) == run && Last(run + [e]) == e
  {
    assert Init(run + [e]) == run;
  }

  /** How many AddRoutes of ams are not yet undone by a DelRoute. */
  function Outstanding(run: seq<Event>, ams: NetId): (n: nat)
    ensures n <= |run|
  {
    if run == [] then 0 else NextOutstanding(Outstanding(Init(run), ams), Last(run), ams)
  }

  function NextOutstanding(n: nat, e: Event, ams: NetId): (m: nat)
    ensures m <= n + 1
  {
    if e.ams != ams then n
    else if e.Added? then n + 1
    else if n > 0 then n - 1
    else 0
  }

  /** Each host resolves to one address. */
  predicate SingleAddress(run: seq<Event>) {
    forall e <- run :: e.Added? ==> |e.hosts| == 1
  }

  /** Each connection is reached by one AmsNetId. */
  predicate AliasFree(run: seq<Event>) {
    forall e <- run, f <- run :: e.Added? && f.Added? && e.peer == f.peer ==> e.ams == f.ams
  }

  /** Every DelRoute undoes an AddRoute. */
  predicate Balanced(run: seq<Event>) {
    run != [] ==> Balanced(Init(run)) && (Last(run).Deleted? ==> Outstanding(Init(run), Last(run).ams) > 0)
  }

  // ---- Runs without aliases --------------------------------------------------------------------

  /** ams has a route exactly while n > 0, and its connection counts n. */
  predicate CountedAt(s: State, ams: NetId, n: nat) {
    && (ams in s.routes <==> n > 0)
    && (ams in s.routes ==> s.routes[ams] in s.links && s.links[s.routes[ams]].refCount == n)
  }

  /** Every connection has a route. */
  ghost predicate AllMapped(s: State) {
    forall p <- s.links :: exists ams :: RouteTo(s, ams, p)
  }

  predicate RouteTo(s: State, ams: NetId, p: Address) {
    ams in s.routes && s.routes[ams] == p
  }

  predicate WasAdded(run: seq<Event>, ams: NetId, p: Address) {
    exists e <- run :: e.Added? && e.ams == ams && e.peer == p
  }

  predicate RoutesWereAdded(run: seq<Event>, s: State) {
    forall ams <- s.routes :: WasAdded(run, ams, s.routes[ams])
  }

  /** In every run without aliases and with one address per host: a route exists exactly while AddRoutes of it are
      outstanding, its connection's count is their number, and a connection lives exactly as long as its route. */
  lemma {:induction false} AliasFreeCounts(run: seq<Event>)
    requires IsRun(run) && SingleAddress(run) && AliasFree(run) && |run| < SIZES
    ensures forall ams: NetId :: CountedAt(After(run), ams, Outstanding(run, ams))
    ensures AllMapped(After(run))
    ensures RoutesWereAdded(run, After(run))
  {
    hide Apply, Enabled, CountedAt, AllMapped, RoutesWereAdded, AliasFree;
    if run != [] {
      var e, s := Last(run), After(Init(run));
      InitOfRun(run);
      AliasFreeCounts(Init(run));
      RoutesStep(run, s);
      NoStranding(run, s);
      forall ams: NetId
        ensures CountedAt(After(run), ams, Outstanding(run, ams))
      {
        NoSharing(run, s, ams);
        CountStep(s, e, ams, Outstanding(Init(run), ams));
      }
    } else {
      EmptyRun();
    }
  }

  lemma EmptyRun()
    ensures IsRun([]) && After([]) == State(map[], map[])
    ensures forall ams: NetId :: CountedAt(After([]), ams, 0)
    ensures AllMapped(After([])) && RoutesWereAdded([], After([]))
  {
  }

  lemma InitOfRun(run: seq<Event>)
    requires run != []
    ensures SingleAddress(run) ==> SingleAddress(Init(run)) && (Last(run).Added? ==> |Last(run).hosts| == 1)
    ensures AliasFree(run) ==> AliasFree(Init(run))
  {
    assert Last(run) in run && forall e <- Init(run) :: e in run;
  }

  lemma RoutesStep(run: seq<Event>, s: State)
    requires run != [] && MappedAreOwned(s) && Enabled(s, Last(run)) && RoutesWereAdded(Init(run), s)
    ensures RoutesWereAdded(run, Apply(s, Last(run)))
  {
    var e, t := Last(run), Apply(s, Last(run));
    assert e in run && forall f <- Init(run) :: f in run;
    forall ams <- t.routes
      ensures WasAdded(run, ams, t.routes[ams])
    {
      if !(e.Added? && e.ams == ams) {
        assert WasAdded(Init(run), ams, s.routes[ams]);
      }
    }
  }

  lemma NoStranding(run: seq<Event>, s: State)
    requires run != [] && MappedAreOwned(s) && Enabled(s, Last(run)) && AllMapped(s)
    requires SingleAddress(run)
    ensures AllMapped(Apply(s, Last(run)))
  {
    hide AllMapped, Apply;
    assert Last(run) in run;
    StrandsIff(s, Last(run));
  }

  /** What alias-freedom says about one AmsNetId and the last event. */
  lemma NoSharing(run: seq<Event>, s: State, ams: NetId)
    requires run != [] && AliasFree(run) && RoutesWereAdded(Init(run), s) && AllMapped(s)
    ensures Apart(s, Last(run), ams)
  {
    var e := Last(run);
    assert e in run && forall f <- Init(run) :: f in run;
    if ams in s.routes {
      assert WasAdded(Init(run), ams, s.routes[ams]);
    }
    if e.ams in s.routes {
      assert WasAdded(Init(run), e.ams, s.routes[e.ams]);
    }
    if e.Added? && e.peer in s.links {
      var b :| RouteTo(s, b, e.peer);
      assert WasAdded(Init(run), b, s.routes[b]);
    }
  }

  predicate Apart(s: State, e: Event, ams: NetId) {
    && (e.ams != ams && ams in s.routes && e.ams in s.routes ==> s.routes[e.ams] != s.routes[ams])
    && (e.ams != ams && ams in s.routes && e.Added? ==> e.peer != s.routes[ams])
    && (e.Added? && e.peer in s.links ==> e.ams in s.routes)
  }

  lemma CountStep(s: State, e: Event, ams: NetId, n: nat)
    requires MappedAreOwned(s) && Enabled(s, e) && Apart(s, e, ams) && n + 1 < SIZES
    requires e.Added? ==> |e.hosts| == 1
    requires CountedAt(s, ams, n)
    ensures CountedAt(Apply(s, e), ams, NextOutstanding(n, e, ams))
  {
    hide LastRoute, AnyConnected;
  }

  // ---- Runs with aliases -----------------------------------------------------------------------

  /** The AmsNetIds whose AddRoutes the connection to p still counts. */
  ghost function Holders(run: seq<Event>, p: Address): multiset<NetId>
    requires IsRun(run)
    decreases |run|
  {
    if run == [] then multiset{} else NextHolders(Holders(Init(run), p), After(Init(run)), Last(run), p)
  }

  function NextHolders(m: multiset<NetId>, s: State, e: Event, p: Address): multiset<NetId> {
    if e.Added? then if e.peer == p then m + multiset{e.ams} else m
    else if RouteTo(s, e.ams, p) then m - multiset{e.ams}
    else m
  }

  predicate LinkCounts(s: State, p: Address, m: multiset<NetId>) {
    |m| == if p in s.links then s.links[p].refCount else 0
  }

  predicate HolderCounts(s: State, p: Address, ams: NetId, m: multiset<NetId>, n: nat) {
    && m[ams] == (if RouteTo(s, ams, p) then n else 0)
    && (n > 0 ==> ams in s.routes)
  }

  /** With aliases, a connection's count is still the sum of what its AmsNetIds have outstanding. */
  lemma {:induction false} BalancedCounts(run: seq<Event>)
    requires IsRun(run) && SingleAddress(run) && Balanced(run) && |run| < SIZES
    ensures forall p: Address :: |Holders(run, p)| <= |run| && LinkCounts(After(run), p, Holders(run, p))
    ensures forall p: Address, ams: NetId ::
              HolderCounts(After(run), p, ams, Holders(run, p), Outstanding(run, ams))
  {
    hide Apply, Enabled, LinkCounts, HolderCounts, NextHolders, NextOutstanding;
    if run == [] {
      NobodyYet();
    } else {
      var e, s, n := Last(run), After(Init(run)), Outstanding(Init(run), Last(run).ams);
      InitOfRun(run);
      BalancedCounts(Init(run));
      forall p: Address
        ensures |Holders(run, p)| <= |run| && LinkCounts(After(run), p, Holders(run, p))
      {
        assert HolderCounts(s, p, e.ams, Holders(Init(run), p), n);
        LinkStep(s, e, p, Holders(Init(run), p), n);
      }
      forall p: Address, ams: NetId
        ensures HolderCounts(After(run), p, ams, Holders(run, p), Outstanding(run, ams))
      {
        var own := if ams in s.routes then s.routes[ams] else p;
        HolderStep(s, e, p, ams, Holders(Init(run), p), own, Holders(Init(run), own), Outstanding(Init(run), ams));
      }
    }
  }

  lemma NobodyYet()
    ensures forall p: Address :: Holders([], p) == multiset{} && LinkCounts(After([]), p, multiset{})
    ensures forall p: Address, ams: NetId :: HolderCounts(After([]), p, ams, multiset{}, 0)
  {
  }

  lemma LinkStep(s: State, e: Event, p: Address, m: multiset<NetId>, n: nat)
    requires MappedAreOwned(s) && Enabled(s, e) && |m| + 1 < SIZES
    requires LinkCounts(s, p, m) && HolderCounts(s, p, e.ams, m, n) && (e.Deleted? ==> n > 0)
    ensures LinkCounts(Apply(s, e), p, NextHolders(m, s, e, p)) && |NextHolders(m, s, e, p)| <= |m| + 1
  {
    hide LastRoute, AnyConnected, Conflicts;
    if e.Deleted? && RouteTo(s, e.ams, p) {
      OnlyHolder(m, e.ams);
    }
  }

  /** own and mOwn are the connection of ams and its holders. */
  lemma HolderStep(s: State, e: Event, p: Address, ams: NetId, m: multiset<NetId>, own: Address, mOwn: multiset<NetId>,
                   n: nat)
    requires MappedAreOwned(s) && Enabled(s, e) && (e.Added? ==> |e.hosts| == 1)
    requires ams in s.routes ==> own == s.routes[ams]
    requires LinkCounts(s, own, mOwn) && HolderCounts(s, own, ams, mOwn, n) && HolderCounts(s, p, ams, m, n)
    requires e.Deleted? && e.ams == ams ==> n > 0
    requires |mOwn| < SIZES
    ensures HolderCounts(Apply(s, e), p, ams, NextHolders(m, s, e, p), NextOutstanding(n, e, ams))
  {
    hide LastRoute, AnyConnected;
    if e.Deleted? && e.ams == ams {
      OnlyHolder(mOwn, ams);
    }
  }

  lemma OnlyHolder(m: multiset<NetId>, ams: NetId)
    requires ams in m
    ensures |m - multiset{ams}| == |m| - 1
    ensures |m| == 1 <==> m[ams] == 1 && forall b: NetId :: b != ams ==> m[b] == 0
  {
    assert m == (m - multiset{ams}) + multiset{ams};
    if |m| == 1 {
      assert m - multiset{ams} == multiset{};
    }
    if m[ams] == 1 && forall b: NetId :: b != ams ==> m[b] == 0 {
      assert m == multiset{ams};
    }
  }

  predicate NoOtherHolder(run: seq<Event>, s: State, ams: NetId)
    requires ams in s.routes
  {
    forall b <- s.routes :: b != ams && s.routes[b] == s.routes[ams] ==> Outstanding(run, b) == 0
  }

  /** In every balanced single-address run, a DelRoute removes the route iff it undoes the last AddRoute of its own
      AmsNetId and no alias on the same connection has one outstanding; it destroys the connection iff, besides,
      no alias is still mapped to it. */
  lemma DelRouteUnmapsIff(run: seq<Event>, ams: NetId)
    requires IsRun(run) && SingleAddress(run) && Balanced(run) && |run| < SIZES
    requires Outstanding(run, ams) > 0
    ensures var s := After(run);
            && ams in s.routes
            && var t, last := Apply(s, Deleted(ams)), Outstanding(run, ams) == 1 && NoOtherHolder(run, s, ams);
            && (ams !in t.routes <==> last)
            && (s.routes[ams] !in t.links <==> last && LastRoute(s, ams))
  {
    hide Holders, Outstanding, IsRun, After, Balanced, SingleAddress, LastRoute;
    BalancedCounts(run);
    var s := After(run);
    assert HolderCounts(s, 0, ams, Holders(run, 0), Outstanding(run, ams));
    var p := s.routes[ams];
    var m := Holders(run, p);
    assert LinkCounts(s, p, m);
    forall b: NetId
      ensures m[b] == if RouteTo(s, b, p) then Outstanding(run, b) else 0
    {
      assert HolderCounts(s, p, b, m, Outstanding(run, b));
    }
    OnlyHolder(m, ams);
    assert NoOtherHolder(run, s, ams) <==> forall b: NetId :: b != ams ==> m[b] == 0;
  }

  /** Why the alias-free runs are singled out: two AmsNetIds on one connection, each added and deleted once, leave
      the first one mapped, to a connection that counts nobody. */
  lemma AliasesLeak(a: NetId, b: NetId, p: Address, ip: uint32)
    requires a != b
    ensures var run := [Added(a, [p], p, ip), Added(b, [p], p, ip), Deleted(a), Deleted(b)];
            && IsRun(run) && SingleAddress(run) && Balanced(run)
            && Outstanding(run, a) == Outstanding(run, b) == 0
            && After(run) == State(map[p := Link(ip, 0)], map[a := p])
  {
    hide IsRun, After, SingleAddress;
    EmptyRun();
    var run: seq<Event> := [];
    Extend(run, Added(a, [p], p, ip));
    run := run + [Added(a, [p], p, ip)];
    assert After(run) == State(map[p := Link(ip, 1)], map[a := p]);
    assert Outstanding(run, a) == 1 && Outstanding(run, b) == 0 && Balanced(run);
    Extend(run, Added(b, [p], p, ip));
    run := run + [Added(b, [p], p, ip)];
    assert After(run) == State(map[p := Link(ip, 2)], map[a := p, b := p]);
    assert Outstanding(run, a) == 1 && Outstanding(run, b) == 1 && Balanced(run);
    Extend(run, Deleted(a));
    run := run + [Deleted(a)];
    assert After(run) == State(map[p := Link(ip, 1)], map[a := p, b := p]);
    assert Outstanding(run, a) == 0 && Outstanding(run, b) == 1 && Balanced(run);
    Extend(run, Deleted(b));
    run := run + [Deleted(b)];
    assert Outstanding(run, a) == 0 && Outstanding(run, b) == 0 && Balanced(run);
    assert run == [Added(a, [p], p, ip), Added(b, [p], p, ip), Deleted(a), Deleted(b)];
    SingleAddresses(run, p);
  }

  lemma SingleAddresses(run: seq<Event>, p: Address)
    requires forall e <- run :: e.Added? ==> e.hosts == [p]
    ensures SingleAddress(run)
  {
  }

  // ---- Hosts with several addresses ------------------------------------------------------------

  /** A connection is left without a route, never to be destroyed, iff an AddRoute takes the last route of one
      connection over to another of its host's addresses. */
  lemma StrandsIff(s: State, e: Event)
    requires MappedAreOwned(s) && AllMapped(s) && Enabled(s, e)
    ensures !AllMapped(Apply(s, e)) <==>
            e.Added? && e.ams in s.routes && s.routes[e.ams] != e.peer && LastRoute(s, e.ams)
  {
    var t := Apply(s, e);
    if e.Added? && e.ams in s.routes && s.routes[e.ams] != e.peer && LastRoute(s, e.ams) {
      var p := s.routes[e.ams];
      assert p in t.links && forall ams :: !RouteTo(t, ams, p);
    } else {
      forall p <- t.links
        ensures exists ams :: RouteTo(t, ams, p)
      {
        StillMapped(s, e, p);
      }
    }
  }

  lemma StillMapped(s: State, e: Event, p: Address)
    requires MappedAreOwned(s) && AllMapped(s) && Enabled(s, e) && p in Apply(s, e).links
    requires !(e.Added? && e.ams in s.routes && s.routes[e.ams] != e.peer && LastRoute(s, e.ams))
    ensures exists ams :: RouteTo(Apply(s, e), ams, p)
  {
    var t := Apply(s, e);
    if e.Added? && p == e.peer {
      assert RouteTo(t, e.ams, p);
    } else {
      var ams :| RouteTo(s, ams, p);
      if ams in t.routes && t.routes[ams] == p {
        assert RouteTo(t, ams, p);
      } else {
        assert ams == e.ams && !LastRoute(s, ams);
        var b :| b in s.routes && b != ams && s.routes[b] == p;
        assert RouteTo(t, b, p);
      }
    }
  }

  /** So some choice that AddRoute may make for these hosts leaves a connection behind iff ams has the last route of its
      connection, that is one to the hosts, and there is another connection to them. */
  lemma ChoiceStrandsIff(s: State, ams: NetId, hosts: seq<Address>)
    requires MappedAreOwned(s) && AllMapped(s)
    ensures (exists p: Address, ip: uint32 ::
               Enabled(s, Added(ams, hosts, p, ip)) && !AllMapped(Apply(s, Added(ams, hosts, p, ip))))
       <==> ams in s.routes && s.routes[ams] in hosts && LastRoute(s, ams)
            && exists h <- hosts :: h != s.routes[ams] && h in s.links
  {
    hide AllMapped, Apply;
    forall p: Address, ip: uint32 | Enabled(s, Added(ams, hosts, p, ip))
      ensures !AllMapped(Apply(s, Added(ams, hosts, p, ip)))
         <==> ams in s.routes && s.routes[ams] != p && LastRoute(s, ams)
    {
      StrandsIff(s, Added(ams, hosts, p, ip));
    }
    if ams in s.routes && s.routes[ams] in hosts && LastRoute(s, ams)
       && exists h <- hosts :: h != s.routes[ams] && h in s.links {
      var h :| h in hosts && h != s.routes[ams] && h in s.links;
      assert Enabled(s, Added(ams, hosts, h, 0));
    }
  }

  /** A run that does it: a host with two addresses, to each of which there is a connection. Its second route takes a
      over to the other one, and after as many DelRoutes as AddRoutes the first connection still counts one. */
  lemma MovedRouteStrands(a: NetId, b: NetId, p: Address, q: Address, ip: uint32)
    requires a != b && p != q
    ensures var run := [Added(a, [p], p, ip), Added(b, [q], q, ip), Added(a, [p, q], q, ip),
                        Deleted(b), Deleted(a), Deleted(a)];
            && IsRun(run) && Balanced(run) && Outstanding(run, a) == Outstanding(run, b) == 0
            && p in After(run).links && forall ams :: !RouteTo(After(run), ams, p)
  {
    hide IsRun, After;
    EmptyRun();
    var run := FirstRoutes(a, b, p, q, ip);
    Extend(run, Deleted(b));
    run := run + [Deleted(b)];
    assert After(run) == State(map[p := Link(ip, 1), q := Link(ip, 1)], map[a := q, b := q]);
    assert Outstanding(run, a) == 2 && Outstanding(run, b) == 0 && Balanced(run);
    Extend(run, Deleted(a));
    run := run + [Deleted(a)];
    assert After(run) == State(map[p := Link(ip, 1), q := Link(ip, 0)], map[b := q]);
    assert Outstanding(run, a) == 1 && Outstanding(run, b) == 0 && Balanced(run);
    Extend(run, Deleted(a));
    run := run + [Deleted(a)];
    assert After(run) == State(map[p := Link(ip, 1), q := Link(ip, 0)], map[b := q]);
    assert Outstanding(run, a) == 0 && Outstanding(run, b) == 0 && Balanced(run);
    assert run == [Added(a, [p], p, ip), Added(b, [q], q, ip), Added(a, [p, q], q, ip),
                   Deleted(b), Deleted(a), Deleted(a)];
  }

  lemma FirstRoutes(a: NetId, b: NetId, p: Address, q: Address, ip: uint32) returns (run: seq<Event>)
    requires a != b && p != q
    ensures run == [Added(a, [p], p, ip), Added(b, [q], q, ip), Added(a, [p, q], q, ip)]
    ensures IsRun(run) && Balanced(run) && Outstanding(run, a) == 2 && Outstanding(run, b) == 1
    ensures After(run) == State(map[p := Link(ip, 1), q := Link(ip, 2)], map[a := q, b := q])
  {
    hide IsRun, After;
    EmptyRun();
    run := [];
    Extend(run, Added(a, [p], p, ip));
    run := run + [Added(a, [p], p, ip)];
    assert After(run) == State(map[p := Link(ip, 1)], map[a := p]);
    assert Outstanding(run, a) == 1 && Outstanding(run, b) == 0 && Balanced(run);
    Extend(run, Added(b, [q], q, ip));
    run := run + [Added(b, [q], q, ip)];
    assert After(run) == State(map[p := Link(ip, 1), q := Link(ip, 1)], map[a := p, b := q]);
    assert Outstanding(run, a) == 1 && Outstanding(run, b) == 1 && Balanced(run);
    Extend(run, Added(a, [p, q], q, ip));
    run := run + [Added(a, [p, q], q, ip)];
    assert After(run) == State(map[p := Link(ip, 1), q := Link(ip, 2)], map[a := q, b := q]);
  }

  // ---- The router ------------------------------------------------------------------------------

  class Connection {
    const peer: Address
    const ownIp: uint32
    var refCount: uint64

    constructor (peer: Address, ownIp: uint32)
      ensures this.peer == peer && this.ownIp == ownIp && refCount == 0
    {
      this.peer, this.ownIp, refCount := peer, ownIp, 0;
    }
  }

  /** What connecting to the addresses of a host gives: the first address that accepts, and the local address the
      socket then has, unless that cannot be found out. */
  function FirstReachable(hosts: seq<Address>, network: map<Address, Option<uint32>>): (r: Option<Address>)
    ensures r.Some? ==> r.value in hosts && r.value in network
    ensures r.None? <==> forall h <- hosts :: h !in network
  {
    if hosts == [] then None
    else if hosts[0] in network then Some(hosts[0])
    else FirstReachable(hosts[1..], network)
  }

  /** hosts[k] accepts, and none before it does. */
  predicate AcceptsFirst(hosts: seq<Address>, network: map<Address, Option<uint32>>, k: nat) {
    k < |hosts| && hosts[k] in network && forall j :: 0 <= j < k ==> hosts[j] !in network
  }

  lemma {:induction false} FirstByIndex(hosts: seq<Address>, network: map<Address, Option<uint32>>, k: nat)
    requires AcceptsFirst(hosts, network, k)
    ensures FirstReachable(hosts, network) == Some(hosts[k])
  {
    if k > 0 {
      assert hosts[0] !in network;
      FirstByIndex(hosts[1..], network, k - 1);
    }
  }

  lemma {:induction false} FirstHasIndex(hosts: seq<Address>, network: map<Address, Option<uint32>>) returns (k: nat)
    requires exists h <- hosts :: h in network
    ensures AcceptsFirst(hosts, network, k)
  {
    if hosts[0] in network {
      k := 0;
    } else {
      k := FirstHasIndex(hosts[1..], network);
      k := k + 1;
    }
  }

  /** A connection opens iff some address accepts, and the first one that does gives a local address. */
  ghost predicate Opens(hosts: seq<Address>, network: map<Address, Option<uint32>>) {
    exists k: nat :: AcceptsFirst(hosts, network, k) && network[hosts[k]].Some?
  }

  lemma OpensIff(hosts: seq<Address>, network: map<Address, Option<uint32>>)
    ensures var p := FirstReachable(hosts, network);
            && (Opens(hosts, network) <==> p.Some? && network[p.value].Some?)
            && (p.Some? ==> exists k: nat :: AcceptsFirst(hosts, network, k) && p == Some(hosts[k]))
  {
    if Opens(hosts, network) {
      var k: nat :| AcceptsFirst(hosts, network, k) && network[hosts[k]].Some?;
      FirstByIndex(hosts, network, k);
    }
    if FirstReachable(hosts, network).Some? {
      var k := FirstHasIndex(hosts, network);
      FirstByIndex(hosts, network, k);
    }
  }

  lemma AppliesAdded(s: State, ams: NetId, hosts: seq<Address>, p: Address, ip: uint32)
    requires MappedAreOwned(s)
    ensures var t := Apply(s, Added(ams, hosts, p, ip));
            && p in t.links && t.routes == s.routes[ams := p] && t.links - {p} == s.links - {p}
            && t.links[p] == if p in s.links
                             then Link(s.links[p].ownIp, (s.links[p].refCount + 1) % 0x1_0000_0000_0000_0000)
                             else Link(ip, 1)
  {
  }

  /** What a DelRoute of ams leaves: nothing changes without a route, and with one its connection counts one less, in
      64-bit arithmetic. At zero the route goes, and the connection with it unless another AmsNetId leads to it. */
  ghost predicate Released(s: State, ams: NetId, t: State)
    requires MappedAreOwned(s)
  {
    if ams !in s.routes then t == s
    else
      var p := s.routes[ams];
      var left := if s.links[p].refCount == 0 then 0xFFFF_FFFF_FFFF_FFFF else s.links[p].refCount - 1;
      && t.routes == (if left == 0 then s.routes - {ams} else s.routes)
      && t.links - {p} == s.links - {p}
      && (p !in t.links <==> left == 0 && forall b <- s.routes :: b != ams ==> s.routes[b] != p)
      && (p in t.links ==> t.links[p] == Link(s.links[p].ownIp, left))
  }

  lemma AppliesDeleted(s: State, ams: NetId)
    requires MappedAreOwned(s)
    ensures Released(s, ams, Apply(s, Deleted(ams)))
  {
  }

  function LocalAddress(s: State, p: Address, network: map<Address, Option<uint32>>): uint32 {
    if p in s.links then s.links[p].ownIp
    else if p in network && network[p].Some? then network[p].value
    else 0
  }

  /** How a call ends: with a std::runtime_error, or with a return value. */
  datatype Outcome = Thrown | Returned(code: int)

  class AmsRouter {
    var connections: set<Connection>
    var mapping: map<NetId, Connection>

    ghost predicate DistinctPeers()
      reads this`connections
    {
      forall c <- connections, d <- connections :: c.peer == d.peer ==> c == d
    }

    /** Owned connections have different peers, and mapped connections are owned. */
    ghost predicate Valid()
      reads this
    {
      DistinctPeers() && forall ams <- mapping :: mapping[ams] in connections
    }

    ghost function Links(): (links: map<Address, Link>)
      requires DistinctPeers()
      reads this`connections, connections
    {
      map c | c in connections :: c.peer := Link(c.ownIp, c.refCount)
    }

    ghost function Routes(): (routes: map<NetId, Address>)
      reads this`mapping
    {
      map ams | ams in mapping :: mapping[ams].peer
    }

    ghost function Abs(): (s: State)
      requires Valid()
      reads this, connections
      ensures MappedAreOwned(s)
    {
      State(Links(), Routes())
    }

    constructor ()
      ensures Valid() && Abs() == State(map[], map[])
    {
      connections, mapping := {}, map[];
    }

    method GetConnection(ams: NetId) returns (conn: Connection?)
      requires Valid()
      ensures conn != null <==> ams in Abs().routes
      ensures conn != null ==> conn in connections && conn.peer == Abs().routes[ams]
    {
      if ams in mapping {
        return mapping[ams];
      }
      return null;
    }

    /** Any owned connection to one of the addresses; the set has no order. */
    method FindConnected(hosts: seq<Address>) returns (conn: Connection?)
      requires Valid()
      ensures conn == null <==> !AnyConnected(Abs(), hosts)
      ensures conn != null ==> conn in connections && conn.peer in hosts
    {
      var todo := connections;
      while todo != {}
        invariant todo <= connections
        invariant forall c <- connections - todo :: c.peer !in hosts
      {
        conn :| conn in todo;
        if conn.peer in hosts {
          assert conn.peer in Abs().links;
          return;
        }
        todo := todo - {conn};
      }
      conn := null;
    }

    static method Connect(hosts: seq<Address>, network: map<Address, Option<uint32>>) returns (conn: Connection?)
      ensures var p := FirstReachable(hosts, network);
              if p.Some? && network[p.value].Some?
              then conn != null && fresh(conn) && conn.peer == p.value && conn.ownIp == network[p.value].value
                   && conn.refCount == 0
              else conn == null
    {
      for i := 0 to |hosts|
        invariant FirstReachable(hosts, network) == FirstReachable(hosts[i..], network)
      {
        if hosts[i] in network {
          if network[hosts[i]].None? {
            return null;
          }
          conn := new Connection(hosts[i], network[hosts[i]].value);
          return;
        }
      }
      conn := null;
    }

    method SetCount(conn: Connection, refCount: uint64)
      requires Valid() && conn in connections
      modifies conn
      ensures Valid() && conn.refCount == refCount
      ensures Abs() == State(old(Abs()).links[conn.peer := Link(conn.ownIp, refCount)], old(Abs()).routes)
    {
      conn.refCount := refCount;
      assert Links() == old(Links())[conn.peer := Link(conn.ownIp, refCount)];
    }

    lemma LinkOf(conn: Connection)
      requires Valid() && conn in connections
      ensures conn.peer in Abs().links && Abs().links[conn.peer] == Link(conn.ownIp, conn.refCount)
    {
    }

    lemma RouteOf(ams: NetId)
      requires Valid()
      ensures ams in mapping <==> ams in Abs().routes
      ensures ams in mapping ==> mapping[ams] in connections && RouteTo(Abs(), ams, mapping[ams].peer)
    {
    }

    lemma OthersConnected(conn: Connection, hosts: seq<Address>)
      requires Valid() && conn.peer in hosts && !AnyConnected(Abs(), hosts)
      ensures conn.peer !in Abs().links && forall c <- connections :: c.peer != conn.peer
    {
    }

    method Own(conn: Connection)
      requires Valid() && forall c <- connections :: c.peer != conn.peer
      modifies this`connections
      ensures Valid() && connections == old(connections) + {conn}
      ensures Abs() == State(old(Abs()).links[conn.peer := Link(conn.ownIp, conn.refCount)], old(Abs()).routes)
    {
      connections := connections + {conn};
      assert Links() == old(Links())[conn.peer := Link(conn.ownIp, conn.refCount)];
    }

    method Map(ams: NetId, conn: Connection)
      requires Valid() && conn in connections
      modifies this`mapping
      ensures Valid() && mapping == old(mapping)[ams := conn]
      ensures Abs() == State(old(Abs()).links, old(Abs()).routes[ams := conn.peer])
    {
      mapping := mapping[ams := conn];
      assert Routes() == old(Routes())[ams := conn.peer];
    }

    /** One more AddRoute leads to this connection. */
    method Attach(ams: NetId, conn: Connection, ghost hosts: seq<Address>)
      requires Valid() && conn in connections
      modifies this`mapping, conn
      ensures Valid() && Abs() == Apply(old(Abs()), Added(ams, hosts, conn.peer, conn.ownIp))
    {
      hide *;
      LinkOf(conn);
      AttachInSteps(Abs(), ams, hosts, conn.peer, conn.ownIp);
      SetCount(conn, Up(conn.refCount));
      Map(ams, conn);
    }

    /** hosts is the resolved host name, network what can be connected to. used is the address whose connection
        serves the route. */
    method AddRoute(ams: NetId, hosts: seq<Address>, network: map<Address, Option<uint32>>)
      returns (outcome: Outcome, ghost used: Option<Address>)
      requires Valid()
      modifies this, connections
      ensures Valid() && fresh(connections - old(connections))
      ensures used.None? ==> Abs() == old(Abs())
      ensures var s := old(Abs());
              var refused := ams in s.routes && s.routes[ams] !in hosts;
              var connected := exists h <- hosts :: h in s.links;
              && (used.None? <==> refused || (!connected && !Opens(hosts, network)))
              && (used.None? ==> outcome == if refused then Returned(0x506) else Thrown)
      ensures used.Some? ==>
                var s, p := old(Abs()), used.value;
                var ip := LocalAddress(s, p, network);
                && Enabled(s, Added(ams, hosts, p, ip))
                && Abs() == Apply(s, Added(ams, hosts, p, ip))
                && (p !in s.links ==> exists k: nat :: AcceptsFirst(hosts, network, k) && p == hosts[k])
                && (p !in s.links ==> p in network && network[p] == Some(ip))
                && outcome == Returned(if p !in s.links && ip == 0 then 1 else 0)
      ensures used.Some? ==>
                var s, p := old(Abs()), used.value;
                && p in hosts && p in Abs().links && Abs().routes == s.routes[ams := p]
                && Abs().links - {p} == s.links - {p}
                && Abs().links[p] == if p in s.links
                                     then Link(s.links[p].ownIp, (s.links[p].refCount + 1) % 0x1_0000_0000_0000_0000)
                                     else Link(LocalAddress(s, p, network), 1)
    {
      hide Apply, AmsRouter.Links, AmsRouter.Routes, AmsRouter.DistinctPeers, FirstReachable, AcceptsFirst, Opens;
      ghost var s := Abs();
      OpensIff(hosts, network);
      var oldConnection := GetConnection(ams);
      if oldConnection != null && oldConnection.peer !in hosts {
        return Returned(ROUTERERR_PORTALREADYINUSE), None;
      }
      var conn := FindConnected(hosts);
      if conn != null {
        LinkOf(conn);
        AppliesAdded(s, ams, hosts, conn.peer, conn.ownIp);
        Attach(ams, conn, hosts);
        return Returned(0), Some(conn.peer);
      }
      conn := Connect(hosts, network);
      if conn == null {
        return Thrown, None;
      }
      OthersConnected(conn, hosts);
      AppliesAdded(s, ams, hosts, conn.peer, conn.ownIp);
      Own(conn);
      Attach(ams, conn, hosts);
      AttachOpened(s, ams, hosts, conn.peer, conn.ownIp);
      return Returned(if conn.ownIp == 0 then 1 else 0), Some(conn.peer);
    }

    method DelRoute(ams: NetId)
      requires Valid()
      modifies this, connections
      ensures Valid() && connections <= old(connections)
      ensures Abs() == Apply(old(Abs()), Deleted(ams))
      ensures Released(old(Abs()), ams, Abs())
    {
      AppliesDeleted(Abs(), ams);
      hide *;
      RouteOf(ams);
      if ams in mapping {
        var conn := mapping[ams];
        LinkOf(conn);
        ReleaseInSteps(Abs(), ams, conn.peer);
        SetCount(conn, Down(conn.refCount));
        if conn.refCount == 0 {
          Unmap(ams);
          DeleteIfLastConnection(conn);
        }
      }
    }

    method Unmap(ams: NetId)
      requires Valid() && ams in mapping
      modifies this`mapping
      ensures Valid() && mapping == old(mapping) - {ams}
      ensures Abs() == State(old(Abs()).links, old(Abs()).routes - {ams})
    {
      mapping := mapping - {ams};
      assert Routes() == old(Routes()) - {ams};
    }

    method DeleteIfLastConnection(conn: Connection)
      requires Valid() && conn in connections
      modifies this`connections
      ensures Valid() && connections <= old(connections)
      ensures var s := old(Abs());
              Abs() == if exists b :: RouteTo(s, b, conn.peer) then s else State(s.links - {conn.peer}, s.routes)
    {
      var todo := mapping.Keys;
      while todo != {}
        invariant todo <= mapping.Keys
        invariant forall ams <- mapping.Keys - todo :: mapping[ams] != conn
      {
        var ams :| ams in todo;
        if mapping[ams] == conn {
          hide AmsRouter.Links;
          assert RouteTo(Abs(), ams, conn.peer);
          return;
        }
        todo := todo - {ams};
      }
      Disown(conn);
    }

    method Disown(conn: Connection)
      requires Valid() && conn in connections && conn !in mapping.Values
      modifies this`connections
      ensures Valid() && connections == old(connections) - {conn}
      ensures !exists b :: RouteTo(old(Abs()), b, conn.peer)
      ensures Abs() == State(old(Abs()).links - {conn.peer}, old(Abs()).routes)
    {
      connections := connections - {conn};
      assert Links() == old(Links()) - {conn.peer};
    }
  }
}

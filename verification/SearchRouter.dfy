/** Resolving a host to a service configuration, through the cache, and the split of services over ports. */
module SearchRouters {
  import opened Labels
  import opened DpMatch
  import opened Patterns
  import opened Routing
  import opened HostRouters
  import opened LruCaches

  /** A service, as far as routing reads it. */
  datatype ClientConfig = ClientConfig(
    host: Option<string>,
    hosts: Option<seq<string>>,
    listenPort: Option<nat>,
    upstreamPort: Option<nat>)
  {
    /** The patterns the service declares, in the order they are registered. */
    function Declared(): seq<string> {
      (if host.Some? then [host.value] else []) + (if hosts.Some? then hosts.value else [])
    }
  }

  ghost function RegisteredAs(patterns: seq<string>, index: nat): seq<Registration> {
    seq(|patterns|, i requires 0 <= i < |patterns| => Registration(patterns[i], index))
  }

  /** Every declared pattern of every service, under the position of the service. */
  ghost function Registrations(configs: seq<ClientConfig>): seq<Registration> {
    if configs == [] then []
    else
      var n := |configs| - 1;
      Registrations(configs[..n]) + RegisteredAs(configs[n].Declared(), n)
  }

  lemma RegistrationsAppend(configs: seq<ClientConfig>, n: nat)
    requires n < |configs|
    ensures Registrations(configs[..n + 1]) == Registrations(configs[..n]) + RegisteredAs(configs[n].Declared(), n)
  {
    assert configs[..n + 1][..n] == configs[..n];
  }

  /** Registered indices point at the service that declared the pattern. */
  lemma {:induction false} RegistrationsIndex(configs: seq<ClientConfig>)
    ensures forall k | 0 <= k < |Registrations(configs)| ::
              var r := Registrations(configs)[k];
              && r.index < |configs| && r.pattern in configs[r.index].Declared()
              && (configs[r.index].host == Some(r.pattern)
                  || (configs[r.index].hosts.Some? && r.pattern in configs[r.index].hosts.value))
  {
    if configs != [] {
      RegistrationsIndex(configs[..|configs| - 1]);
    }
  }

  /** The one host comes first, then the listed ones as they are listed, behind those of all services before. */
  lemma RegisteredInOrder(configs: seq<ClientConfig>, n: nat)
    requires n < |configs|
    ensures
      var c, before, upto := configs[n], Registrations(configs[..n]), Registrations(configs[..n + 1]);
      var b, one := |before|, if c.host.Some? then 1 else 0;
      var listed := if c.hosts.Some? then c.hosts.value else [];
      && |upto| == b + one + |listed| && upto[..b] == before
      && (c.host.Some? ==> upto[b] == Registration(c.host.value, n))
      && forall i | 0 <= i < |listed| :: upto[b + one + i] == Registration(listed[i], n)
  {
    RegistrationsAppend(configs, n);
  }

  lemma RegistrationsPrefix(configs: seq<ClientConfig>, n: nat)
    requires n <= |configs|
    ensures Registrations(configs[..n]) <= Registrations(configs)
    decreases |configs| - n
  {
    if n == |configs| {
      assert configs[..n] == configs;
    } else {
      RegistrationsAppend(configs, n);
      RegistrationsPrefix(configs, n + 1);
      FrontOfFront(Registrations(configs[..n]), RegisteredAs(configs[n].Declared(), n), Registrations(configs));
    }
  }

  lemma FrontOfFront(a: seq<Registration>, b: seq<Registration>, c: seq<Registration>)
    requires a + b <= c
    ensures a <= c
  {
    assert c[..|a|] == (a + b)[..|a|];
  }

  /** A service declares its one host and its listed ones. */
  lemma DeclaredFields(c: ClientConfig, p: string)
    ensures p in c.Declared() <==> c.host == Some(p) || (c.hosts.Some? && p in c.hosts.value)
  {
  }

  /** Every declared pattern is registered. */
  lemma {:induction false} DeclaredRegistered(configs: seq<ClientConfig>, i: nat, p: string)
    requires i < |configs|
    requires configs[i].host == Some(p) || (configs[i].hosts.Some? && p in configs[i].hosts.value)
    ensures Registration(p, i) in Registrations(configs)
  {
    var n := |configs| - 1;
    DeclaredFields(configs[i], p);
    if i < n {
      DeclaredRegistered(configs[..n], i, p);
    } else {
      var j :| 0 <= j < |configs[n].Declared()| && configs[n].Declared()[j] == p;
      assert RegisteredAs(configs[n].Declared(), n)[j] == Registration(p, n);
    }
  }

  ghost function Resolver(configs: seq<ClientConfig>): string -> Option<nat> {
    (host: string) => Route(Registrations(configs), host)
  }

  /** `configs.get(index)`. */
  function ConfigAt(configs: seq<ClientConfig>, index: Option<nat>): Option<ClientConfig> {
    match index
    case None => None
    case Some(i) => if i < |configs| then Some(configs[i]) else None
  }

  /** A resolved index is never out of range. */
  lemma ResolvedInRange(configs: seq<ClientConfig>, host: string)
    ensures ConfigAt(configs, Route(Registrations(configs), host)).Some? <==> Route(Registrations(configs), host).Some?
  {
    RegistrationsIndex(configs);
    RouteSound(Registrations(configs), host);
  }

  /** Over any run of lookups, starting cold and with any capacity, every answer is the uncached one. */
  lemma RunsUncached(configs: seq<ClientConfig>, capacity: nat, hosts: seq<string>)
    ensures
      var (final, answers) := Run([], capacity, hosts, Resolver(configs));
      && |answers| == |hosts|
      && (forall i | 0 <= i < |hosts| :: answers[i] == Route(Registrations(configs), hosts[i]))
      && (forall i | 0 <= i < |final| :: final[i].1 == Route(Registrations(configs), final[i].0))
      && |final| <= capacity
  {
    RunTransparent([], capacity, hosts, Resolver(configs));
  }

  class SearchRouter {
    const router: HostRouter
    const configs: seq<ClientConfig>
    var cache: LruCache
    var cacheCapacity: nat

    ghost function Repr(): set<object>
      reads this, router.multiStarTrie
    {
      {this, router, cache, router.multiStarTrie} + router.multiStarTrie.Repr
    }

    ghost predicate Valid()
      reads this, router, router.multiStarTrie, router.multiStarTrie.Repr, cache
    {
      && cache !in router.multiStarTrie.Repr && this !in router.multiStarTrie.Repr
      && router.Valid()
      && router.regs == Registrations(configs)
      && cache.Valid() && cache.capacity == cacheCapacity
      && Sound(cache.entries, cache.capacity, Resolver(configs))
    }

    constructor (configs: seq<ClientConfig>)
      ensures Valid() && fresh(Repr()) && this.configs == configs
      ensures cacheCapacity == 128 && cache.entries == []
    {
      var filled := FillRouter(configs);
      router := filled;
      this.configs := configs;
      cache := new LruCache(128);
      cacheCapacity := 128;
    }

    /** `find`: the configuration that the uncached router resolves the host to. */
    method Find(host: string, buf: MatchBuffer) returns (r: Option<ClientConfig>)
      requires Valid() && buf !in Repr()
      modifies cache, buf
      ensures Valid()
      ensures r == ConfigAt(configs, Route(Registrations(configs), host))
      ensures cache.entries == Through(old(cache.entries), cache.capacity, host, Route(Registrations(configs), host)).0
    {
      ThroughSound(cache.entries, cache.capacity, host, Resolver(configs));
      var cached := cache.Get(host);
      if cached.Some? {
        return ConfigAt(configs, cached.value);
      }
      var resolved := Ask(host, buf);
      r := ConfigAt(configs, resolved);
    }

    /** A miss: ask the router, and remember what it says. */
    method Ask(host: string, buf: MatchBuffer) returns (resolved: Option<nat>)
      requires Valid() && buf !in Repr() && LruCaches.Lookup(cache.entries, host).None?
      modifies cache, buf
      ensures Valid()
      ensures resolved == Route(Registrations(configs), host)
      ensures cache.entries == Stored(old(cache.entries), cache.capacity, host, resolved)
    {
      resolved := router.Matches(host, buf);
      FrontSound(cache.entries, cache.capacity, host, resolved, Resolver(configs));
      cache.Put(host, resolved);
    }

    /** `with_cache_capacity`: a fresh cache of another size; zero is refused, as by the source. */
    method WithCacheCapacity(capacity: nat)
      requires Valid() && capacity > 0
      modifies this
      ensures Valid() && cacheCapacity == capacity && fresh(cache) && cache.entries == []
    {
      cacheCapacity := capacity;
      cache := new LruCache(capacity);
    }
  }

  lemma RegisterOneMore(base: seq<Registration>, hosts: seq<string>, i: nat, index: nat)
    requires i < |hosts|
    ensures base + RegisteredAs(hosts[..i + 1], index) ==
            base + RegisteredAs(hosts[..i], index) + [Registration(hosts[i], index)]
  {
  }

  lemma RegisterConcat(base: seq<Registration>, front: seq<string>, back: seq<string>, index: nat)
    ensures base + RegisteredAs(front + back, index) ==
            base + RegisteredAs(front, index) + RegisteredAs(back, index)
  {
  }

  /** The body of the loop in `new`: register the one host and then the list of hosts. */
  method RegisterConfig(router: HostRouter, config: ClientConfig, index: nat)
    requires router.Valid()
    modifies router, router.multiStarTrie.Repr
    ensures router.Valid() && fresh(router.multiStarTrie.Repr - old(router.multiStarTrie.Repr))
    ensures router.regs == old(router.regs) + RegisteredAs(config.Declared(), index)
  {
    var first := if config.host.Some? then [config.host.value] else [];
    RegisterHosts(router, first, index);
    var rest := if config.hosts.Some? then config.hosts.value else [];
    RegisterHosts(router, rest, index);
    RegisterConcat(old(router.regs), first, rest, index);
  }

  method RegisterHosts(router: HostRouter, hosts: seq<string>, index: nat)
    requires router.Valid()
    modifies router, router.multiStarTrie.Repr
    ensures router.Valid() && fresh(router.multiStarTrie.Repr - old(router.multiStarTrie.Repr))
    ensures router.regs == old(router.regs) + RegisteredAs(hosts, index)
  {
    ghost var base := router.regs;
    for i := 0 to |hosts|
      invariant router.Valid() && fresh(router.multiStarTrie.Repr - old(router.multiStarTrie.Repr))
      invariant router.regs == base + RegisteredAs(hosts[..i], index)
    {
      router.AddPattern(hosts[i], index);
      RegisterOneMore(base, hosts, i, index);
    }
    assert hosts[..|hosts|] == hosts;
  }

  /** The loop in `new`: every service's patterns, under the position of the service. */
  method FillRouter(configs: seq<ClientConfig>) returns (router: HostRouter)
    ensures router.Valid() && router.regs == Registrations(configs)
    ensures fresh(router) && fresh(router.multiStarTrie) && fresh(router.multiStarTrie.Repr)
  {
    router := new HostRouter();
    for index := 0 to |configs|
      invariant router.Valid() && router.regs == Registrations(configs[..index])
      invariant fresh(router) && fresh(router.multiStarTrie) && fresh(router.multiStarTrie.Repr)
    {
      RegisterConfig(router, configs[index], index);
      RegistrationsAppend(configs, index);
    }
    assert configs[..|configs|] == configs;
  }

  // ---- One router per listening port ----

  function UniquePorts(configs: seq<ClientConfig>): set<nat> {
    set c | c in configs && c.listenPort.Some? :: c.listenPort.value
  }

  /** `filter(|config| config.listen_port == Some(port))`. */
  function PortConfigs(configs: seq<ClientConfig>, port: nat): seq<ClientConfig> {
    if configs == [] then []
    else (if configs[0].listenPort == Some(port) then [configs[0]] else []) + PortConfigs(configs[1..], port)
  }

  /** Every service goes, as often as it is listed, to the router of its own port and to no other. */
  lemma {:induction false} PartitionExact(configs: seq<ClientConfig>, port: nat, c: ClientConfig)
    ensures multiset(PortConfigs(configs, port))[c] ==
            if c.listenPort == Some(port) then multiset(configs)[c] else 0
    ensures c in configs && c.listenPort == Some(port) ==> port in UniquePorts(configs)
  {
    if configs != [] {
      PartitionExact(configs[1..], port, c);
      assert configs == [configs[0]] + configs[1..];
      var rest := PortConfigs(configs[1..], port);
      assert multiset([configs[0]] + rest) == multiset([configs[0]]) + multiset(rest);
      assert [] + rest == rest;
    }
  }

  /** A port is listened on exactly if some service names it. */
  lemma PortsIs(configs: seq<ClientConfig>, port: nat)
    ensures port in UniquePorts(configs) <==> exists i :: 0 <= i < |configs| && configs[i].listenPort == Some(port)
  {
    if i :| 0 <= i < |configs| && configs[i].listenPort == Some(port) { assert configs[i] in configs; }
  }

  /** The services of a port keep the order in which they are configured. */
  lemma {:induction false} PortOrder(a: seq<ClientConfig>, b: seq<ClientConfig>, port: nat)
    ensures PortConfigs(a + b, port) == PortConfigs(a, port) + PortConfigs(b, port)
  {
    if a == [] {
      assert a + b == b;
    } else {
      assert (a + b)[1..] == a[1..] + b;
      PortOrder(a[1..], b, port);
    }
  }

  /** From port and host to service: what is found listens there and declares a pattern for the host. */
  lemma EndToEnd(configs: seq<ClientConfig>, port: nat, host: string, found: Option<ClientConfig>)
    requires
      var local := PortConfigs(configs, port);
      found == ConfigAt(local, Route(Registrations(local), host))
    ensures found.Some? ==>
              var c := found.value;
              && c in configs && c.listenPort == Some(port)
              && exists p :: (c.host == Some(p) || (c.hosts.Some? && p in c.hosts.value)) && PatternCovers(p, host)
    ensures found.None? ==>
              forall c, p |
                && c in configs && c.listenPort == Some(port)
                && (c.host == Some(p) || (c.hosts.Some? && p in c.hosts.value))
                && PatternCovers(p, host) :: Gap(Split(p))
  {
    ResolvedInRange(PortConfigs(configs, port), host);
    if found.Some? {
      FoundDeclares(configs, port, host, found.value);
    } else {
      NothingFound(configs, port, host);
    }
  }

  lemma NothingFound(configs: seq<ClientConfig>, port: nat, host: string)
    requires Route(Registrations(PortConfigs(configs, port)), host).None?
    ensures forall c, p |
              && c in configs && c.listenPort == Some(port)
              && (c.host == Some(p) || (c.hosts.Some? && p in c.hosts.value))
              && PatternCovers(p, host) :: Gap(Split(p))
  {
    forall c, p | && c in configs && c.listenPort == Some(port)
                  && (c.host == Some(p) || (c.hosts.Some? && p in c.hosts.value)) && PatternCovers(p, host)
      ensures Gap(Split(p))
    {
      UnfoundGap(configs, port, host, c, p);
    }
  }

  lemma FoundDeclares(configs: seq<ClientConfig>, port: nat, host: string, c: ClientConfig)
    requires
      var local := PortConfigs(configs, port);
      ConfigAt(local, Route(Registrations(local), host)) == Some(c)
    ensures c in configs && c.listenPort == Some(port)
    ensures exists p :: (c.host == Some(p) || (c.hosts.Some? && p in c.hosts.value)) && PatternCovers(p, host)
  {
    var local := PortConfigs(configs, port);
    RouteSound(Registrations(local), host);
    RegistrationsIndex(local);
    assert c in local;
    PlacedFrom(configs, port, c);
  }

  lemma PlacedFrom(configs: seq<ClientConfig>, port: nat, c: ClientConfig)
    requires c in PortConfigs(configs, port)
    ensures c in configs && c.listenPort == Some(port)
  {
    PartitionExact(configs, port, c);
    assert multiset(PortConfigs(configs, port))[c] > 0;
    assert c in multiset(configs);
  }

  lemma UnfoundGap(configs: seq<ClientConfig>, port: nat, host: string, c: ClientConfig, p: string)
    requires Route(Registrations(PortConfigs(configs, port)), host).None?
    requires c in configs && c.listenPort == Some(port)
    requires c.host == Some(p) || (c.hosts.Some? && p in c.hosts.value)
    requires PatternCovers(p, host)
    ensures Gap(Split(p))
  {
    var local := PortConfigs(configs, port);
    var i := PlacedAt(configs, port, c);
    DeclaredRegistered(local, i, p);
    var k: nat :| k < |Registrations(local)| && Registrations(local)[k] == Registration(p, i);
    UnroutedGap(Registrations(local), host, k);
  }

  lemma UnroutedGap(regs: seq<Registration>, host: string, k: nat)
    requires Route(regs, host).None? && k < |regs| && PatternCovers(regs[k].pattern, host)
    ensures Gap(Split(regs[k].pattern))
  {
    RouteComplete(regs, host);
    assert Gap(regs[k].Parts());
  }

  lemma PlacedAt(configs: seq<ClientConfig>, port: nat, c: ClientConfig) returns (i: nat)
    requires c in configs && c.listenPort == Some(port)
    ensures i < |PortConfigs(configs, port)| && PortConfigs(configs, port)[i] == c
  {
    var local := PortConfigs(configs, port);
    PartitionExact(configs, port, c);
    assert c in multiset(configs);
    assert c in multiset(local);
    assert c in local;
    i :| i < |local| && local[i] == c;
  }

  /** A port's router, over that port's services, that has answered nothing yet. */
  ghost predicate Starts(router: SearchRouter, configs: seq<ClientConfig>, port: nat)
    reads router, router.router, router.router.multiStarTrie, router.router.multiStarTrie.Repr, router.cache
  {
    router.Valid() && router.configs == PortConfigs(configs, port) && router.cache.entries == []
  }

  /** Routers for some of the ports, made of these objects, no two sharing any of them. */
  ghost predicate StartApart(listeners: map<nat, SearchRouter>, configs: seq<ClientConfig>, used: set<object>)
    reads *
  {
    && (forall p | p in listeners :: Starts(listeners[p], configs, p) && listeners[p].Repr() <= used)
    && forall p, q | p in listeners && q in listeners && p != q :: listeners[p].Repr() !! listeners[q].Repr()
  }

  /** Starting on one more port leaves the routers already there as they are. */
  method StartOne(configs: seq<ClientConfig>, port: nat, ghost others: map<nat, SearchRouter>, ghost used: set<object>)
    returns (local: SearchRouter)
    requires StartApart(others, configs, used)
    ensures StartApart(others, configs, used)
    ensures Starts(local, configs, port) && fresh(local.Repr())
  {
    local := new SearchRouter(PortConfigs(configs, port));
  }

  lemma OneMoreApart(listeners: map<nat, SearchRouter>, configs: seq<ClientConfig>, used: set<object>,
                     port: nat, local: SearchRouter)
    requires StartApart(listeners, configs, used) && Starts(local, configs, port) && local.Repr() !! used
    ensures StartApart(listeners[port := local], configs, used + local.Repr())
  {
  }

  /** `start_listen`, without the sockets: one router per distinct port, none sharing anything with another. */
  method StartListen(configs: seq<ClientConfig>) returns (listeners: map<nat, SearchRouter>, ghost used: set<object>)
    ensures listeners.Keys == UniquePorts(configs)
    ensures StartApart(listeners, configs, used) && fresh(used)
    ensures forall p | p in listeners ::
              && listeners[p].Valid() && listeners[p].configs == PortConfigs(configs, p)
              && listeners[p].cache.entries == [] && listeners[p].Repr() <= used
    ensures forall p, q | p in listeners && q in listeners && p != q :: listeners[p].Repr() !! listeners[q].Repr()
  {
    listeners := map[];
    var pending := UniquePorts(configs);
    used := {};
    while pending != {}
      invariant pending <= UniquePorts(configs) && listeners.Keys == UniquePorts(configs) - pending
      invariant StartApart(listeners, configs, used) && fresh(used)
      decreases pending
    {
      var port :| port in pending;
      var local := StartOne(configs, port, listeners, used);
      OneMoreApart(listeners, configs, used, port, local);
      listeners := listeners[port := local];
      used := used + local.Repr();
      pending := pending - {port};
    }
  }

  /** A lookup on one port leaves a router that shares nothing with it as it was. */
  method FindAt(here: SearchRouter, other: SearchRouter, host: string, buf: MatchBuffer)
    returns (r: Option<ClientConfig>)
    requires here.Valid() && other.Valid() && here.Repr() !! other.Repr()
    requires buf !in here.Repr() && buf !in other.Repr()
    modifies here.cache, buf
    ensures here.Valid() && other.Valid() && here.Repr() == old(here.Repr()) && other.Repr() == old(other.Repr())
    ensures r == ConfigAt(here.configs, Route(Registrations(here.configs), host))
    ensures other.cache.entries == old(other.cache.entries)
  {
    r := here.Find(host, buf);
  }
}

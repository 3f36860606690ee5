/** How many active containers of a component the other nodes offer, per peer URL. */
module RemoteCounts {
  import opened ClusterTypes
  import opened Sums
  import opened RemoteHandlers

  type Counts = map<Name, map<Url, nat>>

  function CountAt(r: Counts, c: Name, u: Url): nat { if c in r && u in r[c] then r[c][u] else 0 }

  /** Only what is there is mentioned. */
  predicate Filled(r: Counts) {
    forall c | c in r :: r[c] != map[] && forall u | u in r[c] :: r[c][u] >= 1
  }

  function ActiveCount(infos: seq<ComponentInfo>, c: Name): nat {
    if infos == [] then 0
    else
      var ci := infos[|infos| - 1];
      ActiveCount(infos[..|infos| - 1], c) + if ci.componentName == c && ci.status == Active then 1 else 0
  }

  function Offered(n: NodeStatus, me: Name, c: Name, u: Url): nat {
    if n.nodeId != me && n.peerUrl == u then ActiveCount(n.runningComponents, c) else 0
  }

  ghost function Shares(nodes: map<Name, NodeStatus>, me: Name, c: Name, u: Url): map<Name, int> {
    map k | k in nodes :: Offered(nodes[k], me, c, u)
  }

  /** The active containers of c on all nodes but me that are reached at u. */
  ghost function InstancesAt(nodes: map<Name, NodeStatus>, me: Name, c: Name, u: Url): int {
    SumMap(Shares(nodes, me, c, u))
  }

  /** The active containers of c on other nodes than me that are reached at u, by node and place. */
  ghost function ActiveAt(nodes: map<Name, NodeStatus>, me: Name, c: Name, u: Url): set<(Name, int)> {
    set k, i: int | k in nodes && nodes[k].nodeId != me && nodes[k].peerUrl == u
                    && 0 <= i < |nodes[k].runningComponents| && nodes[k].runningComponents[i].componentName == c
                    && nodes[k].runningComponents[i].status == Active :: (k, i)
  }

  ghost function ActivePlaces(infos: seq<ComponentInfo>, c: Name): set<int> {
    set i: int | 0 <= i < |infos| && infos[i].componentName == c && infos[i].status == Active
  }

  lemma {:induction false} ActiveCountIs(infos: seq<ComponentInfo>, c: Name)
    ensures ActiveCount(infos, c) == |ActivePlaces(infos, c)|
  {
    if infos == [] {
      assert ActivePlaces(infos, c) == {};
    } else {
      var n := |infos| - 1;
      ActiveCountIs(infos[..n], c);
      assert ActivePlaces(infos, c) == ActivePlaces(infos[..n], c)
          + if infos[n].componentName == c && infos[n].status == Active then {n} else {};
    }
  }

  ghost function PairsOf<T>(k: Name, s: set<T>): set<(Name, T)> { set i | i in s :: (k, i) }

  lemma {:induction false} PairsCount<T>(k: Name, s: set<T>)
    ensures |PairsOf(k, s)| == |s|
    decreases |s|
  {
    if s == {} {
      assert PairsOf(k, s) == {};
    } else {
      var i :| i in s;
      PairsCount(k, s - {i});
      assert PairsOf(k, s) == PairsOf(k, s - {i}) + {(k, i)};
    }
  }

  /** The sum over the nodes counts each of these containers once. */
  lemma {:induction false} InstancesAreActive(nodes: map<Name, NodeStatus>, me: Name, c: Name, u: Url)
    ensures InstancesAt(nodes, me, c, u) == |ActiveAt(nodes, me, c, u)|
    decreases |nodes|
  {
    if nodes == map[] {
      assert ActiveAt(nodes, me, c, u) == {} && Shares(nodes, me, c, u) == map[];
    } else {
      var k :| k in nodes;
      var rest, n := nodes - {k}, nodes[k];
      InstancesAreActive(rest, me, c, u);
      OneMoreNode(rest, me, k, n, c, u);
      assert nodes == rest[k := n];
      var mine := ActiveAt(nodes, me, c, u) - ActiveAt(rest, me, c, u);
      assert ActiveAt(nodes, me, c, u) == ActiveAt(rest, me, c, u) + mine;
      OfOneNode(nodes, me, c, u, k, mine);
    }
  }

  lemma OfOneNode(nodes: map<Name, NodeStatus>, me: Name, c: Name, u: Url, k: Name, mine: set<(Name, int)>)
    requires k in nodes && mine == ActiveAt(nodes, me, c, u) - ActiveAt(nodes - {k}, me, c, u)
    ensures |mine| == Offered(nodes[k], me, c, u)
  {
    var infos := nodes[k].runningComponents;
    if nodes[k].nodeId != me && nodes[k].peerUrl == u {
      ActiveCountIs(infos, c);
      PairsCount(k, ActivePlaces(infos, c));
      assert mine == PairsOf(k, ActivePlaces(infos, c));
    } else {
      assert mine == {};
    }
  }

  lemma OneMoreNode(nodes: map<Name, NodeStatus>, me: Name, k: Name, n: NodeStatus, c: Name, u: Url)
    requires k !in nodes
    ensures InstancesAt(nodes[k := n], me, c, u) == InstancesAt(nodes, me, c, u) + Offered(n, me, c, u)
  {
    var shares := Shares(nodes, me, c, u);
    SumUpdate(shares, k, Offered(n, me, c, u));
    assert Shares(nodes[k := n], me, c, u) == shares[k := Offered(n, me, c, u)];
  }

  /** r' counts the active ones among infos for url on top of r. */
  ghost predicate Added(r: Counts, r': Counts, url: Url, infos: seq<ComponentInfo>) {
    forall c, u :: CountAt(r', c, u) == CountAt(r, c, u) + if u == url then ActiveCount(infos, c) else 0
  }

  /** One more container of c at url. */
  function Increment(r: Counts, c: Name, url: Url): (r': Counts)
    requires Filled(r)
    ensures Filled(r')
    ensures forall d, u :: CountAt(r', d, u) == CountAt(r, d, u) + if d == c && u == url then 1 else 0
  {
    var counts := if c in r then r[c] else map[];
    r[c := counts[url := (if url in counts then counts[url] else 0) + 1]]
  }

  lemma OneMoreInfo(r: Counts, r': Counts, url: Url, infos: seq<ComponentInfo>, rc: ComponentInfo)
    requires Filled(r') && Added(r, r', url, infos)
    ensures Added(r, if rc.status == Active then Increment(r', rc.componentName, url) else r', url, infos + [rc])
  {
    assert (infos + [rc])[..|infos|] == infos;
  }

  method CountNode(r: Counts, n: NodeStatus) returns (r': Counts)
    requires Filled(r)
    ensures Filled(r')
    ensures Added(r, r', n.peerUrl, n.runningComponents)
  {
    r' := r;
    assert n.runningComponents[..0] == [] && forall c :: ActiveCount([], c) == 0;
    for i := 0 to |n.runningComponents|
      invariant Filled(r')
      invariant Added(r, r', n.peerUrl, n.runningComponents[..i])
    {
      var rc := n.runningComponents[i];
      assert n.runningComponents[..i + 1] == n.runningComponents[..i] + [rc];
      OneMoreInfo(r, r', n.peerUrl, n.runningComponents[..i], rc);
      if rc.status == Active {
        r' := Increment(r', rc.componentName, n.peerUrl);
      }
    }
    assert n.runningComponents[..|n.runningComponents|] == n.runningComponents;
  }

  /** The nodes are visited in no particular order. */
  method ToRemoteCountsByComponent(nodes: map<Name, NodeStatus>, me: Name) returns (r: Counts)
    ensures Filled(r)
    ensures forall c, u :: CountAt(r, c, u) == InstancesAt(nodes, me, c, u) == |ActiveAt(nodes, me, c, u)|
  {
    r := map[];
    var todo := nodes.Keys;
    ghost var seen: map<Name, NodeStatus> := map[];
    while todo != {}
      invariant todo <= nodes.Keys && seen.Keys == nodes.Keys - todo
      invariant forall k | k in seen :: seen[k] == nodes[k]
      invariant Filled(r)
      invariant forall c, u :: CountAt(r, c, u) == InstancesAt(seen, me, c, u)
    {
      var k :| k in todo;
      todo := todo - {k};
      forall c, u ensures InstancesAt(seen[k := nodes[k]], me, c, u)
          == InstancesAt(seen, me, c, u) + Offered(nodes[k], me, c, u)
      {
        OneMoreNode(seen, me, k, nodes[k], c, u);
      }
      seen := seen[k := nodes[k]];
      if nodes[k].nodeId != me {
        r := CountNode(r, nodes[k]);
      }
    }
    assert seen == nodes;
    forall c, u ensures InstancesAt(nodes, me, c, u) == |ActiveAt(nodes, me, c, u)| {
      InstancesAreActive(nodes, me, c, u);
    }
  }
}

/** Keeping every router's remote handlers in step with the cluster. */
module ClusterRouting {
  import opened ClusterTypes
  import opened RemoteHandlers
  import opened RemoteCounts

  function AtLeastOne(maxConcurrency: int): nat { if maxConcurrency <= 0 then 1 else maxConcurrency }

  /** The handlers component c should have for u. */
  function Wanted(counts: map<Url, nat>, max: nat, u: Url, parses: Url -> bool): nat {
    if u in counts && parses(u) then counts[u] * max else 0
  }

  function Entry(cache: Counts, c: Name): Option<map<Url, nat>> { if c in cache then Some(cache[c]) else None }

  function Max(used: map<Name, nat>, c: Name): nat { if c in used then used[c] else 1 }

  /** What the routers should run according to the cached counts. */
  function Cached(cache: Counts, used: map<Name, nat>, c: Name, u: Url, parses: Url -> bool): nat {
    if c in cache then Wanted(cache[c], Max(used, c), u, parses) else 0
  }

  /** One component is brought up to date when its counts changed and its definition is found. */
  ghost predicate Refreshed(cache: Counts, used: map<Name, nat>, counts: map<Url, nat>, lookup: Option<int>,
                            cache': Counts, used': map<Name, nat>, c: Name)
  {
    if Entry(cache, c) != Some(counts) && lookup.Some? then
      Entry(cache', c) == Some(counts) && Max(used', c) == (if lookup.value > 0 then lookup.value else 1)
    else SameEntry(cache, used, cache', used', c)
  }

  ghost predicate SameEntry(cache: Counts, used: map<Name, nat>, cache': Counts, used': map<Name, nat>, c: Name) {
    Entry(cache', c) == Entry(cache, c) && Max(used', c) == Max(used, c)
  }

  /** After an update that finds the definition of c, its handlers reflect the present limit
      unless only the limit changed: then the old limit stays in force. */
  lemma StaleExactly(cache: Counts, used: map<Name, nat>, counts: map<Url, nat>, lookup: int,
                     cache': Counts, used': map<Name, nat>, c: Name, parses: Url -> bool)
    requires Refreshed(cache, used, counts, Some(lookup), cache', used', c)
    requires forall u | u in counts :: counts[u] >= 1
    ensures (forall u :: Cached(cache', used', c, u, parses) == Wanted(counts, AtLeastOne(lookup), u, parses))
       <==> (Entry(cache, c) != Some(counts) || Max(used, c) == (if lookup > 0 then lookup else 1)
             || forall u | u in counts :: !parses(u))
  {
    assert Entry(cache', c) == Some(counts);
    var m, n := Max(used', c), AtLeastOne(lookup);
    forall u | u in counts && parses(u) && m != n
      ensures Cached(cache', used', c, u, parses) != Wanted(counts, n, u, parses)
    {
      ProductsDiffer(counts[u], m, n);
    }
  }

  /** One container at u, handlers set when the limit was 1; raising the limit to 2 is missed. */
  lemma StaleExample(u: Url, parses: Url -> bool)
    requires parses(u)
    ensures var cache, used: map<Name, nat> := map["c" := map[u := 1]], map["c" := 1];
            && Refreshed(cache, used, map[u := 1], Some(2), cache, used, "c")
            && Cached(cache, used, "c", u, parses) == 1 && Wanted(map[u := 1], AtLeastOne(2), u, parses) == 2
  {
    var cache: Counts := map["c" := map[u := 1]];
    assert Entry(cache, "c") == Some(map[u := 1]);
  }

  lemma ProductsDiffer(k: nat, m: nat, n: nat)
    requires k >= 1 && m != n
    ensures k * m != k * n
  {
    if m < n { assert k * n == k * m + k * (n - m); } else { assert k * m == k * n + k * (m - n); }
  }

  lemma ResizedCount(before: seq<Cancel>, after: seq<Cancel>, target: nat, parses: bool)
    requires Resized(before, after, target, parses) && (!parses ==> before == [])
    ensures |after| == if parses then target else 0
  {
  }

  /** The counts are those of the nodes. */
  ghost predicate Reflects(counts: Counts, nodes: map<Name, NodeStatus>, me: Name) {
    Filled(counts) && forall c, u :: CountAt(counts, c, u) == InstancesAt(nodes, me, c, u)
  }

  /** A component last set with the present limit runs what the nodes call for. */
  lemma CurrentEntry(counts: Counts, nodes: map<Name, NodeStatus>, me: Name, cache: Counts, used: map<Name, nat>,
                     limit: int, cache': Counts, used': map<Name, nat>, c: Name, u: Url, parses: Url -> bool)
    requires Reflects(counts, nodes, me) && (c in cache ==> Max(used, c) == AtLeastOne(limit))
    requires if c in counts then Refreshed(cache, used, counts[c], Some(limit), cache', used', c)
             else Entry(cache', c) == None
    ensures c in cache' ==> Max(used', c) == AtLeastOne(limit)
    ensures Cached(cache', used', c, u, parses)
         == if parses(u) then InstancesAt(nodes, me, c, u) * AtLeastOne(limit) else 0
  {
    assert CountAt(counts, c, u) == InstancesAt(nodes, me, c, u);
  }

  class NodeRouting {
    const nodeId: Name
    const parses: Url -> bool
    var urlInstanceCountsByComponent: Counts
    var byCompName: map<Name, Remotes>
    /** The concurrency limit used when the handlers of a component were last set. */
    ghost var usedMax: map<Name, nat>

    ghost predicate Valid()
      reads this, byCompName.Values
    {
      && (forall c | c in byCompName :: byCompName[c].Valid() && byCompName[c].parses == parses)
      && (forall c, d | c in byCompName && d in byCompName && c != d :: byCompName[c] != byCompName[d])
    }

    /** The running remote handlers of component c for u. */
    ghost function Live(c: Name, u: Url): nat
      reads this`byCompName, byCompName.Values
    {
      if c in byCompName then byCompName[c].Running(u) else 0
    }

    constructor (nodeId: Name, parses: Url -> bool)
      ensures Valid() && this.nodeId == nodeId && this.parses == parses
      ensures InStep() && urlInstanceCountsByComponent == map[] && byCompName == map[]
    {
      this.nodeId, this.parses := nodeId, parses;
      urlInstanceCountsByComponent, byCompName, usedMax := map[], map[], map[];
    }

    method ByComponent(c: Name) returns (router: Remotes)
      requires Valid()
      modifies this`byCompName
      ensures Valid() && c in byCompName && byCompName[c] == router
      ensures byCompName == old(byCompName) || (fresh(router) && byCompName == old(byCompName)[c := router])
      ensures c in old(byCompName) ==> byCompName == old(byCompName)
      ensures forall d, u :: Live(d, u) == old(Live(d, u))
    {
      if c !in byCompName {
        router := new Remotes(parses);
        byCompName := byCompName[c := router];
      } else {
        router := byCompName[c];
      }
    }

    /** Sets the handlers of one component and leaves the routers of all others alone. */
    method SetHandlers(c: Name, counts: map<Url, nat>)
      requires Valid()
      requires forall u | !parses(u) :: Live(c, u) == 0
      modifies this`byCompName, byCompName.Values
      ensures Valid() && fresh(byCompName.Values - old(byCompName.Values))
      ensures forall u :: Live(c, u) == if u in counts && parses(u) then counts[u] else 0
      ensures forall d, u | d != c :: Live(d, u) == old(Live(d, u))
    {
      var router := ByComponent(c);
      ghost var before := router.remoteHandlersByUrl;
      assert forall u :: |At(before, u)| == old(Live(c, u));
      router.SetRemoteHandlerCounts(counts);
      forall u ensures Live(c, u) == if u in counts && parses(u) then counts[u] else 0 {
        if u in counts {
          ResizedCount(At(before, u), At(router.remoteHandlersByUrl, u), counts[u], parses(u));
        }
      }
    }

    /** The routers run what the cached counts ask for. */
    ghost predicate InStep()
      reads this, byCompName.Values
    {
      forall c, u :: Live(c, u) == Cached(urlInstanceCountsByComponent, usedMax, c, u, parses)
    }

    method Scale(instances: map<Url, nat>, max: nat) returns (counts: map<Url, nat>)
      ensures counts.Keys == instances.Keys && forall u | u in instances :: counts[u] == instances[u] * max
    {
      counts := map[];
      var todo := instances.Keys;
      while todo != {}
        invariant todo <= instances.Keys && counts.Keys == instances.Keys - todo
        invariant forall u | u in counts :: counts[u] == instances[u] * max
      {
        var url :| url in todo;
        counts := counts[url := instances[url] * max];
        todo := todo - {url};
      }
    }

    method Remember(c: Name, counts: map<Url, nat>, max: nat)
      requires forall u :: Live(c, u) == Wanted(counts, max, u, parses)
      requires forall d, u | d != c :: Live(d, u) == Cached(urlInstanceCountsByComponent, usedMax, d, u, parses)
      modifies this`urlInstanceCountsByComponent, this`usedMax
      ensures InStep()
      ensures urlInstanceCountsByComponent == old(urlInstanceCountsByComponent)[c := counts]
      ensures usedMax == old(usedMax)[c := max]
    {
      urlInstanceCountsByComponent := urlInstanceCountsByComponent[c := counts];
      usedMax := usedMax[c := max];
      forall d, u ensures Live(d, u) == Cached(urlInstanceCountsByComponent, usedMax, d, u, parses) {
        assert Live(d, u) == old(Live(d, u));
      }
    }

    method UpdateComponent(c: Name, counts: map<Url, nat>, lookup: Option<int>)
      requires Valid() && InStep()
      modifies this`byCompName, this`urlInstanceCountsByComponent, this`usedMax, byCompName.Values
      ensures Valid() && InStep() && fresh(byCompName.Values - old(byCompName.Values))
      ensures Refreshed(old(urlInstanceCountsByComponent), old(usedMax), counts, lookup,
                        urlInstanceCountsByComponent, usedMax, c)
      ensures forall d | d != c ::
          SameEntry(old(urlInstanceCountsByComponent), old(usedMax), urlInstanceCountsByComponent, usedMax, d)
    {
      if Entry(urlInstanceCountsByComponent, c) != Some(counts) {
        match lookup
        case Some(maxConcurrency) =>
          var max := AtLeastOne(maxConcurrency);
          var handlers := Scale(counts, max);
          SetHandlers(c, handlers);
          Remember(c, counts, max);
        case None =>
      }
    }

    method DropComponent(c: Name)
      requires Valid() && InStep()
      modifies this`byCompName, this`urlInstanceCountsByComponent, byCompName.Values
      ensures Valid() && InStep() && fresh(byCompName.Values - old(byCompName.Values))
      ensures urlInstanceCountsByComponent == old(urlInstanceCountsByComponent) - {c}
    {
      SetHandlers(c, map[]);
      urlInstanceCountsByComponent := urlInstanceCountsByComponent - {c};
    }

    method RefreshAll(counts: Counts, lookup: Name -> Option<int>)
      requires Valid() && InStep()
      modifies this`byCompName, this`urlInstanceCountsByComponent, this`usedMax, byCompName.Values
      ensures Valid() && InStep() && fresh(byCompName.Values - old(byCompName.Values))
      ensures forall c | c in counts ::
          Refreshed(old(urlInstanceCountsByComponent), old(usedMax), counts[c], lookup(c),
                    urlInstanceCountsByComponent, usedMax, c)
      ensures forall c | c !in counts ::
          SameEntry(old(urlInstanceCountsByComponent), old(usedMax), urlInstanceCountsByComponent, usedMax, c)
    {
      var todo := counts.Keys;
      while todo != {}
        invariant todo <= counts.Keys
        invariant Valid() && InStep() && fresh(byCompName.Values - old(byCompName.Values))
        invariant forall c | c in counts && c !in todo ::
            Refreshed(old(urlInstanceCountsByComponent), old(usedMax), counts[c], lookup(c),
                      urlInstanceCountsByComponent, usedMax, c)
        invariant forall c | c in todo || c !in counts ::
            SameEntry(old(urlInstanceCountsByComponent), old(usedMax), urlInstanceCountsByComponent, usedMax, c)
      {
        var c :| c in todo;
        ghost var cache, used := urlInstanceCountsByComponent, usedMax;
        assert SameEntry(old(urlInstanceCountsByComponent), old(usedMax), cache, used, c);
        UpdateComponent(c, counts[c], lookup(c));
        forall d | d in counts && d !in todo
          ensures Refreshed(old(urlInstanceCountsByComponent), old(usedMax), counts[d], lookup(d),
                            urlInstanceCountsByComponent, usedMax, d)
        {
          assert Refreshed(old(urlInstanceCountsByComponent), old(usedMax), counts[d], lookup(d), cache, used, d);
          assert SameEntry(cache, used, urlInstanceCountsByComponent, usedMax, d);
        }
        forall d | d !in counts || d in todo - {c}
          ensures SameEntry(old(urlInstanceCountsByComponent), old(usedMax), urlInstanceCountsByComponent, usedMax, d)
        {
          assert SameEntry(old(urlInstanceCountsByComponent), old(usedMax), cache, used, d);
          assert SameEntry(cache, used, urlInstanceCountsByComponent, usedMax, d);
        }
        todo := todo - {c};
      }
    }

    method DropOthers(components: set<Name>)
      requires Valid() && InStep()
      modifies this`byCompName, this`urlInstanceCountsByComponent, byCompName.Values
      ensures Valid() && InStep() && fresh(byCompName.Values - old(byCompName.Values))
      ensures forall c | c in components ::
          Entry(urlInstanceCountsByComponent, c) == Entry(old(urlInstanceCountsByComponent), c)
      ensures forall c | c !in components :: Entry(urlInstanceCountsByComponent, c) == None
    {
      var gone := urlInstanceCountsByComponent.Keys - components;
      while gone != {}
        invariant gone == urlInstanceCountsByComponent.Keys - components
        invariant Valid() && InStep() && fresh(byCompName.Values - old(byCompName.Values))
        invariant forall c | c in components ::
            Entry(urlInstanceCountsByComponent, c) == Entry(old(urlInstanceCountsByComponent), c)
      {
        var c :| c in gone;
        DropComponent(c);
        gone := gone - {c};
      }
      assert urlInstanceCountsByComponent.Keys <= gone + components;
    }

    /** lookup gives the concurrency limit of a component whose definition can be read. */
    method OnClusterUpdated(nodes: map<Name, NodeStatus>, lookup: Name -> Option<int>) returns (counts: Counts)
      requires Valid() && InStep()
      modifies this`byCompName, this`urlInstanceCountsByComponent, this`usedMax, byCompName.Values
      ensures Valid() && InStep() && fresh(byCompName.Values - old(byCompName.Values))
      ensures Reflects(counts, nodes, nodeId)
      ensures forall c | c in counts ::
          Refreshed(old(urlInstanceCountsByComponent), old(usedMax), counts[c], lookup(c),
                    urlInstanceCountsByComponent, usedMax, c)
      ensures forall c | c !in counts :: Entry(urlInstanceCountsByComponent, c) == None
    {
      counts := ToRemoteCountsByComponent(nodes, nodeId);
      RefreshAll(counts, lookup);
      DropOthers(counts.Keys);
    }

    /** The handlers for every component and URL follow from the nodes alone. */
    ghost predicate Agrees(nodes: map<Name, NodeStatus>, limit: Name -> int)
      reads this, byCompName.Values
    {
      forall c, u :: Live(c, u) ==
        if parses(u) then |ActiveAt(nodes, nodeId, c, u)| * (if limit(c) > 0 then limit(c) else 1) else 0
    }

    /** Every component was last set with its present limit. */
    ghost predicate UsedLimits(limit: Name -> int)
      reads this
    {
      forall c | c in urlInstanceCountsByComponent :: Max(usedMax, c) == AtLeastOne(limit(c))
    }

    /** With limits that do not change and definitions that can be read, the handlers after any
        sequence of updates are those of the latest node map. */
    method ProcessUpdates(updates: seq<map<Name, NodeStatus>>, limit: Name -> int)
      requires Valid() && InStep() && UsedLimits(limit)
      modifies this`byCompName, this`urlInstanceCountsByComponent, this`usedMax, byCompName.Values
      ensures Valid() && InStep() && UsedLimits(limit)
      ensures updates != [] ==> Agrees(updates[|updates| - 1], limit)
    {
      for i := 0 to |updates|
        invariant Valid() && InStep() && UsedLimits(limit) && fresh(byCompName.Values - old(byCompName.Values))
        invariant i > 0 ==> Agrees(updates[i - 1], limit)
      {
        ghost var cache, used := urlInstanceCountsByComponent, usedMax;
        var counts := OnClusterUpdated(updates[i], c => Some(limit(c)));
        forall c, u
          ensures Live(c, u) ==
            if parses(u) then |ActiveAt(updates[i], nodeId, c, u)| * (if limit(c) > 0 then limit(c) else 1) else 0
        {
          InstancesAreActive(updates[i], nodeId, c, u);
          CurrentEntry(counts, updates[i], nodeId, cache, used, limit(c), urlInstanceCountsByComponent, usedMax, c,
                       u, parses);
        }
        forall c | c in urlInstanceCountsByComponent ensures Max(usedMax, c) == AtLeastOne(limit(c)) {
          CurrentEntry(counts, updates[i], nodeId, cache, used, limit(c), urlInstanceCountsByComponent, usedMax, c,
                       "", parses);
        }
      }
    }
  }
}

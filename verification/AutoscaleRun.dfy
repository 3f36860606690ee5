/** A whole autoscale run: from node reports and component definitions to placement options. */
module AutoscaleRun {
  import opened ClusterTypes
  import opened Sums
  import opened Sorting
  import opened Placement
  import opened Displacing
  import opened BestOption
  import opened PlanTable
  import opened PlanRuns
  import opened PlanPhases
  import opened Autoscale
  import opened Scale

  datatype Component = Component(
    minInstances: int, maxInstances: int, maxInstancesPerNode: int, maxConcurrency: int,
    scaleDownPct: real, scaleUpPct: real, idleTimeoutSeconds: int, reserveMemoryMiB: int)

  datatype Concurrency = Concurrency(
    componentName: Name, reserveMemoryMiB: int, maxInstancesPerNode: int,
    currentInstances: int, targetInstances: int)

  // ---------- live instances ----------

  function Live(infos: seq<ComponentInfo>): seq<ComponentInfo> {
    if infos == [] then []
    else
      var ci := infos[|infos| - 1];
      Live(infos[..|infos| - 1]) + if ci.status != Stopping then [ci] else []
  }

  function LiveNode(node: NodeStatus): NodeStatus {
    node.(runningComponents := Live(node.runningComponents))
  }

  method RemoveStoppingFromNode(node: NodeStatus) returns (r: NodeStatus)
    ensures r == LiveNode(node)
    ensures forall ci :: ci in r.runningComponents <==> ci in node.runningComponents && ci.status != Stopping
    ensures OnlyLive(node, r)
  {
    var components: seq<ComponentInfo> := [];
    var infos := node.runningComponents;
    for i := 0 to |infos|
      invariant components == Live(infos[..i])
      invariant forall ci :: ci in components <==> ci in infos[..i] && ci.status != Stopping
    {
      assert infos[..i + 1][..i] == infos[..i] && infos[..i + 1] == infos[..i] + [infos[i]];
      if infos[i].status != Stopping {
        components := components + [infos[i]];
      }
    }
    assert infos[..|infos|] == infos;
    r := node.(runningComponents := components);
    LiveIs(node);
  }

  /** live is the node without its stopping containers; all others are there as often as before. */
  ghost predicate OnlyLive(node: NodeStatus, live: NodeStatus) {
    && live == node.(runningComponents := live.runningComponents)
    && forall ci :: multiset(live.runningComponents)[ci] ==
         if ci.status == Stopping then 0 else multiset(node.runningComponents)[ci]
  }

  lemma LiveIs(node: NodeStatus)
    ensures OnlyLive(node, LiveNode(node))
  {
    forall ci
      ensures multiset(Live(node.runningComponents))[ci] ==
                if ci.status == Stopping then 0 else multiset(node.runningComponents)[ci]
    {
      LiveCount(node.runningComponents, ci);
    }
  }

  lemma {:induction false} LiveCount(infos: seq<ComponentInfo>, ci: ComponentInfo)
    ensures multiset(Live(infos))[ci] == if ci.status == Stopping then 0 else multiset(infos)[ci]
  {
    if infos != [] {
      var n := |infos| - 1;
      LiveCount(infos[..n], ci);
      assert infos == infos[..n] + [infos[n]];
    }
  }

  method RemoveStopping(nodes: seq<NodeStatus>) returns (r: seq<NodeStatus>)
    ensures |r| == |nodes| && forall i | 0 <= i < |nodes| :: r[i] == LiveNode(nodes[i]) && OnlyLive(nodes[i], r[i])
  {
    r := [];
    for i := 0 to |nodes|
      invariant |r| == i && forall j | 0 <= j < i :: r[j] == LiveNode(nodes[j]) && OnlyLive(nodes[j], r[j])
    {
      var node := RemoveStoppingFromNode(nodes[i]);
      r := r + [node];
    }
  }

  // ---------- grouping by component ----------

  function AllInfos(nodes: seq<NodeStatus>): seq<ComponentInfo> {
    if nodes == [] then [] else AllInfos(nodes[..|nodes| - 1]) + nodes[|nodes| - 1].runningComponents
  }

  function Matching(infos: seq<ComponentInfo>, c: Name): seq<ComponentInfo> {
    if infos == [] then []
    else
      var ci := infos[|infos| - 1];
      Matching(infos[..|infos| - 1], c) + if ci.componentName == c then [ci] else []
  }

  /** The latest request or start of any instance of c, or 0. */
  function LastSeen(infos: seq<ComponentInfo>, c: Name): int {
    if infos == [] then 0
    else
      var rest, ci := LastSeen(infos[..|infos| - 1], c), infos[|infos| - 1];
      if ci.componentName == c then Max(ci.lastRequestTime, Max(ci.startTime, rest)) else rest
  }

  function GetSeq(m: map<Name, seq<ComponentInfo>>, c: Name): seq<ComponentInfo> {
    if c in m then m[c] else []
  }

  ghost predicate Grouped(byComp: map<Name, seq<ComponentInfo>>, lastSeen: map<Name, int>, infos: seq<ComponentInfo>) {
    && (forall c :: GetSeq(byComp, c) == Matching(infos, c))
    && (forall c :: Get(lastSeen, c) == LastSeen(infos, c))
  }

  method AddInfo(byComp: map<Name, seq<ComponentInfo>>, lastSeen: map<Name, int>, ghost pre: seq<ComponentInfo>,
                 ci: ComponentInfo)
    returns (byComp': map<Name, seq<ComponentInfo>>, lastSeen': map<Name, int>)
    requires Grouped(byComp, lastSeen, pre)
    ensures Grouped(byComp', lastSeen', pre + [ci])
  {
    assert (pre + [ci])[..|pre|] == pre;
    byComp' := byComp[ci.componentName := GetSeq(byComp, ci.componentName) + [ci]];
    lastSeen' := lastSeen[ci.componentName :=
      Max(ci.lastRequestTime, Max(ci.startTime, Get(lastSeen, ci.componentName)))];
  }

  method AddInfos(byComp: map<Name, seq<ComponentInfo>>, lastSeen: map<Name, int>, ghost pre: seq<ComponentInfo>,
                  infos: seq<ComponentInfo>)
    returns (byComp': map<Name, seq<ComponentInfo>>, lastSeen': map<Name, int>)
    requires Grouped(byComp, lastSeen, pre)
    ensures Grouped(byComp', lastSeen', pre + infos)
  {
    byComp', lastSeen' := byComp, lastSeen;
    assert pre + infos[..0] == pre;
    for j := 0 to |infos|
      invariant Grouped(byComp', lastSeen', pre + infos[..j])
    {
      byComp', lastSeen' := AddInfo(byComp', lastSeen', pre + infos[..j], infos[j]);
      assert pre + infos[..j] + [infos[j]] == pre + infos[..j + 1];
    }
    assert pre + infos[..|infos|] == pre + infos;
  }

  method GroupInfos(nodes: seq<NodeStatus>) returns (byComp: map<Name, seq<ComponentInfo>>, lastSeen: map<Name, int>)
    ensures forall c :: GetSeq(byComp, c) == Matching(AllInfos(nodes), c)
    ensures forall c :: Get(lastSeen, c) == LastSeen(AllInfos(nodes), c)
  {
    byComp, lastSeen := map[], map[];
    for i := 0 to |nodes|
      invariant Grouped(byComp, lastSeen, AllInfos(nodes[..i]))
    {
      ghost var pre := AllInfos(nodes[..i]);
      var infos := nodes[i].runningComponents;
      assert nodes[..i + 1][..i] == nodes[..i];
      byComp, lastSeen := AddInfos(byComp, lastSeen, pre, infos);
      assert pre + infos == AllInfos(nodes[..i + 1]);
    }
    assert nodes[..|nodes|] == nodes;
  }

  lemma {:induction false} MatchingCount(infos: seq<ComponentInfo>, c: Name)
    ensures |Matching(infos, c)| == RunCount(infos, c)
  {
    if infos != [] {
      MatchingCount(infos[..|infos| - 1], c);
    }
  }

  lemma {:induction false} RunCountConcat(s: seq<ComponentInfo>, t: seq<ComponentInfo>, c: Name)
    ensures RunCount(s + t, c) == RunCount(s, c) + RunCount(t, c)
  {
    if t == [] {
      assert s + t == s;
    } else {
      assert (s + t)[..|s + t| - 1] == s + t[..|t| - 1];
      RunCountConcat(s, t[..|t| - 1], c);
    }
  }

  /** Before any step the cluster-wide count of a component is the number of instances reported. */
  lemma {:induction false} FreshClusterCount(nodes: seq<NodeStatus>, c: Name)
    requires DistinctNodes(nodes)
    ensures ClusterCount(FreshTable(nodes), c) == RunCount(AllInfos(nodes), c)
  {
    if nodes == [] {
      assert CountByNode(FreshTable(nodes), c) == map[];
    } else {
      var pre, node := nodes[..|nodes| - 1], nodes[|nodes| - 1];
      var t, p := FreshTable(pre), PlacementOption(node, []);
      FreshClusterCount(pre, c);
      FreshTableKeys(pre);
      assert node.nodeId !in t;
      assert CountByNode(FreshTable(nodes), c) == CountByNode(t, c)[node.nodeId := Count(p, c)];
      SumUpdate(CountByNode(t, c), node.nodeId, Count(p, c));
      RunCountConcat(AllInfos(pre), node.runningComponents, c);
    }
  }

  // ---------- targets ----------

  /** Division truncated toward zero. */
  function Truncate(a: int, b: int): int
    requires b > 0
  {
    if a >= 0 then a / b else -((-a) / b)
  }

  function IdleTimeout(comp: Component): int {
    if comp.idleTimeoutSeconds <= 0 then 300 else comp.idleTimeoutSeconds
  }

  /** A component seen within its idle timeout keeps at least one instance. */
  function MinWanted(comp: Component, now: int, lastSeen: int): int {
    if comp.minInstances < 1 && Truncate(now - lastSeen, 1000) <= IdleTimeout(comp) then 1 else comp.minInstances
  }

  function ToScaleInput(comp: Component, minInst: int): (s: ScaleInput)
    ensures ValidInput(s) && s.minInst == minInst && s.maxInst == comp.maxInstances
  {
    ScaleInput(if comp.maxConcurrency <= 0 then 1 else comp.maxConcurrency,
               minInst, comp.maxInstances,
               if comp.scaleDownPct <= 0.0 then 0.25 else comp.scaleDownPct,
               if comp.scaleUpPct <= 0.0 then 0.75 else comp.scaleUpPct)
  }

  function TargetOf(comp: Component, c: Name, infos: seq<ComponentInfo>, now: int): int {
    var mine := Matching(infos, c);
    Decide(|mine|, SumAvg(mine), SumMax(mine), ToScaleInput(comp, MinWanted(comp, now, LastSeen(infos, c))))
  }

  /** With so many instances and such loads, d instances are asked for: when the average exceeds
      the scale-up percentage, the fewest that serve it at that percentage; else, when the maximum
      is below the scale-down percentage, the fewest that serve the maximum; else as many as there
      are. Unset settings count as 1, 0.75 and 0.25. */
  ghost predicate AskedFor(comp: Component, n: nat, avg: real, max: real, d: int) {
    var each := if comp.maxConcurrency > 0 then comp.maxConcurrency as real else 1.0;
    var up := if comp.scaleUpPct > 0.0 then comp.scaleUpPct else 0.75;
    var down := if comp.scaleDownPct > 0.0 then comp.scaleDownPct else 0.25;
    if n > 0 && avg > (n as real) * (each * up) then LeastCovering(d, each * up, avg)
    else if n > 0 && max < (n as real) * (each * down) then LeastCovering(d, each * up, max)
    else d == n
  }

  /** A request or start of an instance of c is no older, in whole seconds, than the idle timeout,
      300 seconds if unset; as if there had been one at time 0. */
  ghost predicate SeenRecently(comp: Component, c: Name, infos: seq<ComponentInfo>, now: int) {
    var span := 1000 * ((if comp.idleTimeoutSeconds > 0 then comp.idleTimeoutSeconds else 300) + 1);
    now < span || exists ci | ci in infos && ci.componentName == c ::
      now - ci.lastRequestTime < span || now - ci.startTime < span
  }

  /** t is the number nearest to d that is within the bounds; the upper one counts if it is
      positive and not below the lower one. */
  ghost predicate NearestWithin(lo: int, hi: int, d: int, t: int) {
    var capped := hi > 0 && hi >= lo;
    && lo <= t && (capped ==> t <= hi)
    && (t == d || (d < t && t == lo) || (capped && t == hi && hi < d))
  }

  /** t instances are wanted of component c, by its settings and what its instances report. */
  ghost predicate IsTarget(comp: Component, c: Name, infos: seq<ComponentInfo>, now: int, t: int) {
    var mine := Matching(infos, c);
    var lo := if comp.minInstances < 1 && SeenRecently(comp, c, infos, now) then 1 else comp.minInstances;
    exists d :: AskedFor(comp, |mine|, SumAvg(mine), SumMax(mine), d) && NearestWithin(lo, comp.maxInstances, d, t)
  }

  /** The instances of c, each as often as it is reported. */
  lemma {:induction false} MatchingIs(infos: seq<ComponentInfo>, c: Name, ci: ComponentInfo)
    ensures multiset(Matching(infos, c))[ci] == if ci.componentName == c then multiset(infos)[ci] else 0
  {
    if infos != [] {
      var n := |infos| - 1;
      MatchingIs(infos[..n], c, ci);
      assert infos == infos[..n] + [infos[n]];
    }
  }

  /** The time last seen is 0, or that of some request or start, and no request or start is later. */
  lemma {:induction false} LastSeenIs(infos: seq<ComponentInfo>, c: Name)
    ensures LastSeen(infos, c) >= 0
    ensures forall ci | ci in infos && ci.componentName == c ::
              ci.lastRequestTime <= LastSeen(infos, c) && ci.startTime <= LastSeen(infos, c)
    ensures LastSeen(infos, c) == 0 || exists ci | ci in infos && ci.componentName == c ::
              LastSeen(infos, c) == ci.lastRequestTime || LastSeen(infos, c) == ci.startTime
  {
    if infos != [] {
      var n := |infos| - 1;
      LastSeenIs(infos[..n], c);
      assert infos == infos[..n] + [infos[n]];
    }
  }

  lemma RecentIffWithin(comp: Component, c: Name, infos: seq<ComponentInfo>, now: int)
    ensures SeenRecently(comp, c, infos, now) <==> Truncate(now - LastSeen(infos, c), 1000) <= IdleTimeout(comp)
  {
    LastSeenIs(infos, c);
    WholeSeconds(now - LastSeen(infos, c), IdleTimeout(comp));
  }

  lemma WholeSeconds(millis: int, seconds: nat)
    ensures Truncate(millis, 1000) <= seconds <==> millis < 1000 * (seconds + 1)
  {
  }

  lemma NeededIsAsked(comp: Component, minInst: int, n: nat, avg: real, max: real, d: int)
    requires LeastNeeded(n, avg, max, ToScaleInput(comp, minInst), d)
    ensures AskedFor(comp, n, avg, max, d)
  {
  }

  lemma UnclampedIsAsked(comp: Component, minInst: int, n: nat, avg: real, max: real)
    ensures AskedFor(comp, n, avg, max, Unclamped(n, avg, max, ToScaleInput(comp, minInst)))
  {
    UnclampedCovers(n, avg, max, ToScaleInput(comp, minInst));
    NeededIsAsked(comp, minInst, n, avg, max, Unclamped(n, avg, max, ToScaleInput(comp, minInst)));
  }

  lemma TargetIs(comp: Component, c: Name, infos: seq<ComponentInfo>, now: int)
    ensures IsTarget(comp, c, infos, now, TargetOf(comp, c, infos, now))
  {
    var mine := Matching(infos, c);
    RecentIffWithin(comp, c, infos, now);
    UnclampedIsAsked(comp, MinWanted(comp, now, LastSeen(infos, c)), |mine|, SumAvg(mine), SumMax(mine));
  }

  /** There is just one such number. */
  lemma TargetIsUnique(comp: Component, c: Name, infos: seq<ComponentInfo>, now: int, t: int)
    requires IsTarget(comp, c, infos, now, t)
    ensures t == TargetOf(comp, c, infos, now)
  {
    TargetIs(comp, c, infos, now);
  }

  /** Without a minimum, not seen for longer than the idle timeout, and without load. */
  ghost predicate IsIdle(comp: Component, c: Name, infos: seq<ComponentInfo>, now: int) {
    && comp.minInstances <= 0 && !SeenRecently(comp, c, infos, now)
    && forall ci | ci in infos && ci.componentName == c :: Quiet(ci)
  }

  /** An idle component is wanted nowhere. */
  lemma IdleGoesToZero(comp: Component, c: Name, infos: seq<ComponentInfo>, now: int)
    requires IsIdle(comp, c, infos, now)
    ensures TargetOf(comp, c, infos, now) == 0
  {
    var mine := Matching(infos, c);
    forall ci | ci in mine ensures ci in infos && ci.componentName == c {
      MatchingIs(infos, c, ci);
    }
    NoLoad(mine);
    RecentIffWithin(comp, c, infos, now);
    NothingAsked(|mine|, ToScaleInput(comp, MinWanted(comp, now, LastSeen(infos, c))));
  }

  lemma NothingAsked(n: nat, s: ScaleInput)
    requires ValidInput(s) && s.minInst <= 0
    ensures Decide(n, 0.0, 0.0, s) == 0
  {
    PositiveMarks(n, s);
  }

  lemma Wanted(comp: Component, c: Name, infos: seq<ComponentInfo>, now: int, t: int)
    ensures IsTarget(comp, c, infos, now, t) <==> t == TargetOf(comp, c, infos, now)
    ensures IsIdle(comp, c, infos, now) && t == TargetOf(comp, c, infos, now) ==> t == 0
  {
    TargetIs(comp, c, infos, now);
    if IsTarget(comp, c, infos, now, t) {
      TargetIsUnique(comp, c, infos, now, t);
    }
    if IsIdle(comp, c, infos, now) {
      IdleGoesToZero(comp, c, infos, now);
    }
  }

  /** The targets are just the numbers wanted. */
  ghost predicate TargetsAreWanted(comps: map<Name, Component>, infos: seq<ComponentInfo>, now: int) {
    && (forall c, t | c in comps :: IsTarget(comps[c], c, infos, now, t) <==> t == TargetOf(comps[c], c, infos, now))
    && (forall c | c in comps && IsIdle(comps[c], c, infos, now) :: TargetOf(comps[c], c, infos, now) == 0)
  }

  lemma AllWanted(comps: map<Name, Component>, infos: seq<ComponentInfo>, now: int)
    ensures TargetsAreWanted(comps, infos, now)
  {
    forall c, t | c in comps
      ensures IsTarget(comps[c], c, infos, now, t) <==> t == TargetOf(comps[c], c, infos, now)
      ensures IsIdle(comps[c], c, infos, now) && t == TargetOf(comps[c], c, infos, now) ==> t == 0
    {
      Wanted(comps[c], c, infos, now, t);
    }
    forall c | c in comps && IsIdle(comps[c], c, infos, now) ensures TargetOf(comps[c], c, infos, now) == 0 {
      IdleGoesToZero(comps[c], c, infos, now);
    }
  }

  function RecordOf(comp: Component, c: Name, infos: seq<ComponentInfo>, now: int): Concurrency {
    Concurrency(c, comp.reserveMemoryMiB, comp.maxInstancesPerNode, |Matching(infos, c)|, TargetOf(comp, c, infos, now))
  }

  ghost predicate DistinctRecords(rs: seq<Concurrency>) {
    forall i, j | 0 <= i < j < |rs| :: rs[i].componentName != rs[j].componentName
  }

  ghost predicate IsRecord(r: Concurrency, comps: map<Name, Component>, infos: seq<ComponentInfo>, now: int) {
    r.componentName in comps && r == RecordOf(comps[r.componentName], r.componentName, infos, now)
  }

  method ToComponentConcurrency(nodes: seq<NodeStatus>, comps: map<Name, Component>, now: int)
    returns (rs: seq<Concurrency>)
    ensures DistinctRecords(rs)
    ensures forall r | r in rs :: IsRecord(r, comps, AllInfos(nodes), now)
    ensures forall c | c in comps :: RecordOf(comps[c], c, AllInfos(nodes), now) in rs
    ensures forall r | r in rs :: r.componentName in comps
              && IsTarget(comps[r.componentName], r.componentName, AllInfos(nodes), now, r.targetInstances)
              && (IsIdle(comps[r.componentName], r.componentName, AllInfos(nodes), now) ==> r.targetInstances == 0)
  {
    var byComp, lastSeen := GroupInfos(nodes);
    rs := [];
    var todo := comps.Keys;
    while todo != {}
      invariant todo <= comps.Keys && DistinctRecords(rs)
      invariant forall r | r in rs :: IsRecord(r, comps, AllInfos(nodes), now) && r.componentName !in todo
      invariant forall c | c in comps.Keys - todo :: RecordOf(comps[c], c, AllInfos(nodes), now) in rs
    {
      var c :| c in todo;
      todo := todo - {c};
      var infos, comp := GetSeq(byComp, c), comps[c];
      var target := CalcScaleTarget(infos, ToScaleInput(comp, MinWanted(comp, now, Get(lastSeen, c))));
      rs := rs + [Concurrency(c, comp.reserveMemoryMiB, comp.maxInstancesPerNode, |infos|, target)];
    }
    forall r | r in rs
      ensures IsTarget(comps[r.componentName], r.componentName, AllInfos(nodes), now, r.targetInstances)
      ensures IsIdle(comps[r.componentName], r.componentName, AllInfos(nodes), now) ==> r.targetInstances == 0
    {
      Wanted(comps[r.componentName], r.componentName, AllInfos(nodes), now, r.targetInstances);
    }
  }

  function ToDelta(r: Concurrency): ComponentDelta {
    ComponentDelta(r.componentName, r.reserveMemoryMiB, r.maxInstancesPerNode, r.targetInstances - r.currentInstances)
  }

  method ToComponentDeltas(rs: seq<Concurrency>) returns (ds: seq<ComponentDelta>)
    requires DistinctRecords(rs)
    ensures DistinctDeltas(ds)
    ensures forall d | d in ds :: d.delta != 0 && exists r | r in rs :: d == ToDelta(r)
    ensures forall r | r in rs && r.targetInstances != r.currentInstances :: ToDelta(r) in ds
  {
    ds := [];
    for i := 0 to |rs|
      invariant DistinctDeltas(ds)
      invariant forall d | d in ds :: d.delta != 0 && exists j :: 0 <= j < i && d == ToDelta(rs[j])
      invariant forall j | 0 <= j < i && rs[j].targetInstances != rs[j].currentInstances :: ToDelta(rs[j]) in ds
    {
      if rs[i].targetInstances != rs[i].currentInstances {
        ds := ds + [ToDelta(rs[i])];
      }
    }
  }

  // ---------- the run ----------

  ghost predicate Between(b: int, a: int, target: int) {
    b <= a <= target || target <= a <= b
  }

  /** Every defined component moves from its present total toward its target without passing
      it; every other component keeps its total. */
  ghost predicate MovesToward(before: Table, after: Table, comps: map<Name, Component>, infos: seq<ComponentInfo>,
                              now: int) {
    && (forall c | c in comps ::
          Between(ClusterCount(before, c), ClusterCount(after, c), TargetOf(comps[c], c, infos, now)))
    && (forall c | c !in comps :: ClusterCount(after, c) == ClusterCount(before, c))
  }

  /** Where a component should run less, it loses as many instances as its nodes let it. */
  ghost predicate Shrinks(before: Table, after: Table, comps: map<Name, Component>, infos: seq<ComponentInfo>,
                          now: int) {
    forall c | c in comps :: ShrinksTo(before, after, c, TargetOf(comps[c], c, infos, now))
  }

  ghost predicate ShrinksTo(before: Table, after: Table, c: Name, target: int) {
    target < ClusterCount(before, c) ==> Falls(before, after, c, ClusterCount(before, c) - target)
  }

  function StartOf(comps: map<Name, Component>, c: Name): Request
    requires c in comps
  {
    Request(c, comps[c].reserveMemoryMiB, comps[c].maxInstancesPerNode, false)
  }

  /** Where a component should run more, it gains an instance, or has room at most on nodes that
      gave an instance away while rebalancing. */
  ghost predicate Grows(before: Table, filled: Table, after: Table, comps: map<Name, Component>,
                        infos: seq<ComponentInfo>, now: int)
    requires SameNodes(filled, after)
  {
    forall c | c in comps && TargetOf(comps[c], c, infos, now) > ClusterCount(before, c) ::
      ClusterCount(after, c) > ClusterCount(before, c) || RoomOnlyGiven(filled, after, StartOf(comps, c))
  }

  /** The planner had one turn for each defined component whose target is not its present total. */
  ghost predicate OneTurnEach(before: Table, ds: seq<ComponentDelta>, comps: map<Name, Component>,
                              infos: seq<ComponentInfo>, now: int) {
    && DistinctDeltas(ds)
    && (forall d | d in ds :: IsDelta(before, d, comps, infos, now))
    && (forall c | c in comps && TargetOf(comps[c], c, infos, now) != ClusterCount(before, c) ::
          exists d :: d in ds && d.componentName == c)
  }

  ghost predicate IsDelta(before: Table, d: ComponentDelta, comps: map<Name, Component>, infos: seq<ComponentInfo>,
                          now: int) {
    var c := d.componentName;
    && c in comps && StartRequest(d) == StartOf(comps, c)
    && d.delta == TargetOf(comps[c], c, infos, now) - ClusterCount(before, c) && d.delta != 0
  }

  ghost predicate Defined(comps: map<Name, Component>, mem: Name -> int, limit: Name -> int) {
    forall c | c in comps :: comps[c].reserveMemoryMiB == mem(c) && comps[c].maxInstancesPerNode == limit(c)
  }

  method CalcAutoscalePlacement(planner: Planner, nodes: seq<NodeStatus>, comps: map<Name, Component>, now: int,
                                ghost mem: Name -> int, ghost limit: Name -> int)
    returns (options: seq<PlacementOption>, ghost live: seq<NodeStatus>, ghost tr: Trace)
    requires DistinctNodes(nodes)
    modifies planner
    ensures |live| == |nodes|
    ensures forall i | 0 <= i < |nodes| :: live[i] == LiveNode(nodes[i]) && OnlyLive(nodes[i], live[i])
    ensures IsTable(planner.optionByNode) && SameNodes(FreshTable(live), planner.optionByNode)
    ensures TargetsAreWanted(comps, AllInfos(live), now)
    ensures MovesToward(FreshTable(live), planner.optionByNode, comps, AllInfos(live), now)
    ensures Shrinks(FreshTable(live), planner.optionByNode, comps, AllInfos(live), now)
    ensures OneTurnEach(FreshTable(live), tr.ds, comps, AllInfos(live), now)
    ensures IsTrace(tr, live, tr.ds) && SameViews(tr.moves[|live|], planner.optionByNode)
    ensures RisesFar(FreshTable(live), planner.optionByNode, tr.ups, tr.ds)
    ensures Rebalanced(Filled(tr), planner.optionByNode)
    ensures UniformNodes(live, mem) && Defined(comps, mem, limit) ==>
              && Grows(FreshTable(live), Filled(tr), planner.optionByNode, comps, AllInfos(live), now)
              && Safe(FreshTable(live), Filled(tr), mem, limit) && OnlyGives(Filled(tr), planner.optionByNode)
    ensures UniformNodes(live, mem) && Defined(comps, mem, limit) ==>
              Safe(FreshTable(live), planner.optionByNode, mem, limit) && AllSettled(planner.optionByNode, live, mem)
    ensures Listing(planner.optionByNode, options)
  {
    var running := RemoveStopping(nodes);
    live := running;
    var concurrency := ToComponentConcurrency(running, comps, now);
    var deltas := ToComponentDeltas(concurrency);
    options, tr := planner.ComputeScaleStartStopInputs(running, deltas, mem, limit);
    AllWanted(comps, AllInfos(live), now);
    DeltasMoveToward(FreshTable(live), planner.optionByNode, comps, live, now, concurrency, deltas);
    DeltasShrink(FreshTable(live), planner.optionByNode, comps, live, now, concurrency, deltas);
    DeltasHaveTurns(FreshTable(live), tr.ds, comps, live, now, concurrency, deltas);
    if Defined(comps, mem, limit) {
      assert Agree(deltas, mem, limit);
    }
    if Served(FreshTable(live), Filled(tr), planner.optionByNode, deltas) {
      DeltasGrow(FreshTable(live), Filled(tr), planner.optionByNode, comps, live, now, concurrency, deltas);
    }
  }

  lemma DeltaOf(comps: map<Name, Component>, nodes: seq<NodeStatus>, now: int, rs: seq<Concurrency>,
                ds: seq<ComponentDelta>, c: Name) returns (d: ComponentDelta)
    requires DistinctNodes(nodes) && c in comps && RecordOf(comps[c], c, AllInfos(nodes), now) in rs
    requires forall r | r in rs && r.targetInstances != r.currentInstances :: ToDelta(r) in ds
    requires TargetOf(comps[c], c, AllInfos(nodes), now) != ClusterCount(FreshTable(nodes), c)
    ensures d in ds && d.componentName == c
    ensures d.delta == TargetOf(comps[c], c, AllInfos(nodes), now) - ClusterCount(FreshTable(nodes), c)
    ensures StartRequest(d) == StartOf(comps, c)
  {
    var r := RecordOf(comps[c], c, AllInfos(nodes), now);
    FreshClusterCount(nodes, c);
    MatchingCount(AllInfos(nodes), c);
    d := ToDelta(r);
  }

  lemma DeltasShrink(before: Table, after: Table, comps: map<Name, Component>, nodes: seq<NodeStatus>, now: int,
                     rs: seq<Concurrency>, ds: seq<ComponentDelta>)
    requires DistinctNodes(nodes) && before == FreshTable(nodes) && Scaled(before, after, ds)
    requires forall c | c in comps :: RecordOf(comps[c], c, AllInfos(nodes), now) in rs
    requires forall r | r in rs && r.targetInstances != r.currentInstances :: ToDelta(r) in ds
    ensures Shrinks(before, after, comps, AllInfos(nodes), now)
  {
    forall c | c in comps ensures ShrinksTo(before, after, c, TargetOf(comps[c], c, AllInfos(nodes), now)) {
      if TargetOf(comps[c], c, AllInfos(nodes), now) < ClusterCount(before, c) {
        var d := DeltaOf(comps, nodes, now, rs, ds, c);
        OneShrinks(before, after, d, TargetOf(comps[c], c, AllInfos(nodes), now));
      }
    }
  }

  lemma OneShrinks(before: Table, after: Table, d: ComponentDelta, target: int)
    requires FallsFar(before, after, d) && d.delta == target - ClusterCount(before, d.componentName)
    ensures ShrinksTo(before, after, d.componentName, target)
  {
  }

  lemma DeltasGrow(before: Table, filled: Table, after: Table, comps: map<Name, Component>, nodes: seq<NodeStatus>,
                   now: int, rs: seq<Concurrency>, ds: seq<ComponentDelta>)
    requires DistinctNodes(nodes) && before == FreshTable(nodes) && SameNodes(filled, after)
    requires Served(before, filled, after, ds)
    requires forall c | c in comps :: RecordOf(comps[c], c, AllInfos(nodes), now) in rs
    requires forall r | r in rs && r.targetInstances != r.currentInstances :: ToDelta(r) in ds
    ensures Grows(before, filled, after, comps, AllInfos(nodes), now)
  {
    forall c | c in comps && TargetOf(comps[c], c, AllInfos(nodes), now) > ClusterCount(before, c)
      ensures ClusterCount(after, c) > ClusterCount(before, c) || RoomOnlyGiven(filled, after, StartOf(comps, c))
    {
      var d := DeltaOf(comps, nodes, now, rs, ds, c);
      assert Grew(before, after, d) || RoomOnlyGiven(filled, after, StartRequest(d));
    }
  }

  lemma DeltasHaveTurns(before: Table, turns: seq<ComponentDelta>, comps: map<Name, Component>, nodes: seq<NodeStatus>,
                        now: int, rs: seq<Concurrency>, ds: seq<ComponentDelta>)
    requires DistinctNodes(nodes) && before == FreshTable(nodes) && InOrder(turns, ds) && DistinctDeltas(ds)
    requires forall r | r in rs :: IsRecord(r, comps, AllInfos(nodes), now)
    requires forall c | c in comps :: RecordOf(comps[c], c, AllInfos(nodes), now) in rs
    requires forall d | d in ds :: d.delta != 0 && exists r | r in rs :: d == ToDelta(r)
    requires forall r | r in rs && r.targetInstances != r.currentInstances :: ToDelta(r) in ds
    ensures OneTurnEach(before, turns, comps, AllInfos(nodes), now)
  {
    SameElements(ds, turns);
    DistinctPermuted(ds, turns, (d: ComponentDelta) => d.componentName);
    forall d | d in turns ensures IsDelta(before, d, comps, AllInfos(nodes), now) {
      var r :| r in rs && d == ToDelta(r);
      RecordDelta(before, r, comps, nodes, now);
    }
    forall c | c in comps && TargetOf(comps[c], c, AllInfos(nodes), now) != ClusterCount(before, c)
      ensures exists d :: d in turns && d.componentName == c
    {
      var d := DeltaOf(comps, nodes, now, rs, ds, c);
      assert d in turns;
    }
  }

  lemma RecordDelta(before: Table, r: Concurrency, comps: map<Name, Component>, nodes: seq<NodeStatus>, now: int)
    requires DistinctNodes(nodes) && before == FreshTable(nodes)
    requires IsRecord(r, comps, AllInfos(nodes), now) && ToDelta(r).delta != 0
    ensures IsDelta(before, ToDelta(r), comps, AllInfos(nodes), now)
  {
    FreshClusterCount(nodes, r.componentName);
    MatchingCount(AllInfos(nodes), r.componentName);
  }

  lemma DeltasMoveToward(before: Table, after: Table, comps: map<Name, Component>, nodes: seq<NodeStatus>, now: int,
                         rs: seq<Concurrency>, ds: seq<ComponentDelta>)
    requires DistinctNodes(nodes) && before == FreshTable(nodes) && Scaled(before, after, ds)
    requires DistinctRecords(rs)
    requires forall r | r in rs :: IsRecord(r, comps, AllInfos(nodes), now)
    requires forall c | c in comps :: RecordOf(comps[c], c, AllInfos(nodes), now) in rs
    requires forall d | d in ds :: d.delta != 0 && exists r | r in rs :: d == ToDelta(r)
    requires forall r | r in rs && r.targetInstances != r.currentInstances :: ToDelta(r) in ds
    ensures MovesToward(before, after, comps, AllInfos(nodes), now)
  {
    forall c | c in comps
      ensures Between(ClusterCount(before, c), ClusterCount(after, c), TargetOf(comps[c], c, AllInfos(nodes), now))
    {
      var r := RecordOf(comps[c], c, AllInfos(nodes), now);
      FreshClusterCount(nodes, c);
      MatchingCount(AllInfos(nodes), c);
      if r.targetInstances != r.currentInstances {
        assert Towards(before, after, ToDelta(r));
      } else {
        forall d | d in ds
          ensures d.componentName != c
        {
          var r' :| r' in rs && d == ToDelta(r');
        }
      }
    }
  }

  /** A component is kept alive when it is not defined, asks for an instance, or was seen
      within its idle timeout. */
  ghost predicate KeptAlive(comps: map<Name, Component>, c: Name, infos: seq<ComponentInfo>, now: int) {
    c in comps ==>
      || comps[c].minInstances >= 1
      || Truncate(now - LastSeen(infos, c), 1000) <= IdleTimeout(comps[c])
  }

  /** A running component that is kept alive is never scaled to zero. */
  lemma NeverToZero(before: Table, after: Table, comps: map<Name, Component>, infos: seq<ComponentInfo>, now: int,
                    c: Name)
    requires MovesToward(before, after, comps, infos, now)
    requires ClusterCount(before, c) >= 1 && KeptAlive(comps, c, infos, now)
    ensures ClusterCount(after, c) >= 1
  {
    if c in comps {
      var mine := Matching(infos, c);
      var s := ToScaleInput(comps[c], MinWanted(comps[c], now, LastSeen(infos, c)));
      assert Decide(|mine|, SumAvg(mine), SumMax(mine), s) >= 1;
    }
  }

  /** One live instance with a request or start no longer ago than the timeout is enough. */
  lemma {:induction false} RecentIsSeen(infos: seq<ComponentInfo>, c: Name, ci: ComponentInfo)
    requires ci in infos && ci.componentName == c
    ensures LastSeen(infos, c) >= Max(ci.lastRequestTime, ci.startTime)
  {
    var n := |infos| - 1;
    assert infos == infos[..n] + [infos[n]];
    if infos[n] != ci {
      RecentIsSeen(infos[..n], c, ci);
    }
  }

  lemma RecentIsKeptAlive(comps: map<Name, Component>, infos: seq<ComponentInfo>, now: int, c: Name, ci: ComponentInfo)
    requires ci in infos && ci.componentName == c && c in comps
    requires now - Max(ci.lastRequestTime, ci.startTime) <= 1000 * IdleTimeout(comps[c])
    ensures KeptAlive(comps, c, infos, now)
  {
    RecentIsSeen(infos, c, ci);
  }
}

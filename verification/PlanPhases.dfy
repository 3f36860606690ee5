/** What the scaling phases of the autoscale planner do to the table. */
module PlanPhases {
  import opened ClusterTypes
  import opened Sums
  import opened Sizes
  import opened Placement
  import opened PlacementOps
  import opened Displacing
  import opened BestOption
  import opened PlanTable
  import opened PlanRuns

  datatype ComponentDelta = ComponentDelta(
    componentName: Name, reserveMemoryMiB: int, maxInstancesPerNode: int, delta: int)

  ghost predicate DistinctNodes(nodes: seq<NodeStatus>) {
    forall i, j | 0 <= i < j < |nodes| :: nodes[i].nodeId != nodes[j].nodeId
  }

  ghost predicate DistinctDeltas(ds: seq<ComponentDelta>) {
    forall i, j | 0 <= i < j < |ds| :: ds[i].componentName != ds[j].componentName
  }

  /** The table before any step: what every node runs now. */
  function FreshTable(nodes: seq<NodeStatus>): Table {
    if nodes == [] then map[]
    else
      var n := |nodes| - 1;
      FreshTable(nodes[..n])[nodes[n].nodeId := PlacementOption(nodes[n], [])]
  }

  /** The delta names the reserve and the per-node limit of its component. */
  ghost predicate AgreeOn(d: ComponentDelta, mem: Name -> int, limit: Name -> int) {
    d.reserveMemoryMiB == mem(d.componentName) && d.maxInstancesPerNode == limit(d.componentName)
  }

  ghost predicate Agree(ds: seq<ComponentDelta>, mem: Name -> int, limit: Name -> int) {
    forall d | d in ds :: AgreeOn(d, mem, limit)
  }

  /** The planned total of a component lies between its old total and its computed target. A
      component that runs and is scaled down loses at least one instance. */
  ghost predicate Towards(before: Table, after: Table, d: ComponentDelta) {
    var b, a := ClusterCount(before, d.componentName), ClusterCount(after, d.componentName);
    if d.delta < 0 then b + d.delta <= a <= b && (b > 0 ==> a < b) else b <= a <= b + d.delta
  }

  /** A component that is scaled down loses as many instances as its nodes let it. */
  ghost predicate FallsFar(before: Table, after: Table, d: ComponentDelta) {
    d.delta < 0 ==> Falls(before, after, d.componentName, -d.delta)
  }

  lemma TowardsSame(t: Table, t': Table, after: Table, after': Table, d: ComponentDelta)
    requires SameCounts(t, t', d.componentName) && Towards(t', after, d)
    requires ClusterCount(after', d.componentName) == ClusterCount(after, d.componentName)
    ensures Towards(t, after', d)
  {
    SameCountsTotal(t, t', d.componentName);
  }

  lemma FallsFarSame(t: Table, t': Table, after: Table, after': Table, d: ComponentDelta)
    requires SameCounts(t, t', d.componentName) && FallsFar(t', after, d)
    requires ClusterCount(after', d.componentName) == ClusterCount(after, d.componentName)
    ensures FallsFar(t, after', d)
  {
    if d.delta < 0 {
      FallsSame(t, t', after, after', d.componentName, -d.delta);
    }
  }

  /** The effect of one step for c on the totals: none when the chosen node had a target for c. */
  ghost predicate OneStep(before: Table, after: Table, c: Name, delta: int) {
    && IsTable(after) && SameNodes(before, after)
    && (|| ClusterCount(after, c) == ClusterCount(before, c) + delta
        || (ClusterCount(after, c) == ClusterCount(before, c) && !Untouched(before, c)))
    && OthersKept(before, after, c)
  }

  ghost predicate OthersKept(before: Table, after: Table, c: Name) {
    && (forall k | k != c :: SameCounts(before, after, k) && ClusterCount(after, k) == ClusterCount(before, k))
    && (forall k | k != c && Untouched(before, k) :: Untouched(after, k))
  }

  ghost predicate ScaledOne(before: Table, after: Table, d: ComponentDelta) {
    Towards(before, after, d) && FallsFar(before, after, d) && OthersKept(before, after, d.componentName)
  }

  /** The components still to be scaled have no targets yet. */
  ghost predicate Pending(t: Table, ds: seq<ComponentDelta>, dir: Direction) {
    forall d | d in ds && Goes(d, dir) :: Untouched(t, d.componentName)
  }

  datatype Direction = Negative | Positive

  predicate Goes(d: ComponentDelta, dir: Direction) {
    match dir case Negative => d.delta < 0 case Positive => d.delta > 0
  }

  ghost function Moving(ds: seq<ComponentDelta>, dir: Direction): set<Name> {
    set d | d in ds && Goes(d, dir) :: d.componentName
  }

  /** No overshoot for the components scaled in one direction, no change for all others. */
  ghost predicate ScaledBy(before: Table, after: Table, ds: seq<ComponentDelta>, dir: Direction) {
    AllTowards(before, after, ds, dir) && RestKept(before, after, ds, dir)
  }

  ghost predicate RestKept(before: Table, after: Table, ds: seq<ComponentDelta>, dir: Direction) {
    forall c | c !in Moving(ds, dir) :: SameCounts(before, after, c)
  }

  lemma RestStillKept(t0: Table, t: Table, t': Table, ds: seq<ComponentDelta>, d: ComponentDelta, dir: Direction)
    requires RestKept(t0, t, ds, dir)
    requires if Goes(d, dir) then OthersKept(t, t', d.componentName) else t' == t
    ensures RestKept(t0, t', ds + [d], dir)
  {
    OneMoreMoving(ds, d, dir);
    forall c | c !in Moving(ds + [d], dir) ensures SameCounts(t0, t', c) {
      assert SameCounts(t0, t, c);
      if Goes(d, dir) {
        assert SameCounts(t, t', c);
      }
    }
  }

  ghost predicate AllTowards(before: Table, after: Table, ds: seq<ComponentDelta>, dir: Direction) {
    forall d | d in ds && Goes(d, dir) :: Towards(before, after, d) && FallsFar(before, after, d)
  }

  lemma OneMoreTowards(t0: Table, t: Table, t': Table, ds: seq<ComponentDelta>, d: ComponentDelta, dir: Direction)
    requires AllTowards(t0, t, ds, dir) && forall e | e in ds :: e.componentName != d.componentName
    requires SameCounts(t0, t, d.componentName) && ScaledOne(t, t', d)
    ensures AllTowards(t0, t', ds + [d], dir)
  {
    TowardsSame(t0, t, t', t', d);
    FallsFarSame(t0, t, t', t', d);
    forall e | e in ds && Goes(e, dir) ensures Towards(t0, t', e) && FallsFar(t0, t', e) {
      LaterTotals(t0, t, t', e);
    }
  }

  lemma OneMoreMoving(ds: seq<ComponentDelta>, d: ComponentDelta, dir: Direction)
    ensures Moving(ds + [d], dir) == Moving(ds, dir) + if Goes(d, dir) then {d.componentName} else {}
  {
    assert forall e :: e in ds + [d] <==> e in ds || e == d;
  }

  lemma LaterTotals(t0: Table, t: Table, t': Table, d: ComponentDelta)
    requires Towards(t0, t, d) && FallsFar(t0, t, d)
    requires ClusterCount(t', d.componentName) == ClusterCount(t, d.componentName)
    ensures Towards(t0, t', d) && FallsFar(t0, t', d)
  {
    assert SameCounts(t0, t0, d.componentName);
    FallsFarSame(t0, t0, t, t', d);
  }

  lemma ScaledStep(t0: Table, t: Table, t': Table, ds: seq<ComponentDelta>, k: nat, dir: Direction)
    requires k < |ds| && DistinctDeltas(ds) && ScaledBy(t0, t, ds[..k], dir)
    requires Pending(t, ds[k..], dir)
    requires if Goes(ds[k], dir) then ScaledOne(t, t', ds[k]) else t' == t
    ensures ScaledBy(t0, t', ds[..k + 1], dir) && Pending(t', ds[k + 1..], dir)
  {
    assert ds[..k + 1] == ds[..k] + [ds[k]];
    RestStillKept(t0, t, t', ds[..k], ds[k], dir);
    if Goes(ds[k], dir) {
      NotYetMoving(ds, k, dir);
      OneMoreTowards(t0, t, t', ds[..k], ds[k], dir);
    }
    StillPending(t, t', ds, k, dir);
  }

  lemma NotYetMoving(ds: seq<ComponentDelta>, k: nat, dir: Direction)
    requires k < |ds| && DistinctDeltas(ds)
    ensures ds[k].componentName !in Moving(ds[..k], dir)
    ensures forall e | e in ds[..k] :: e.componentName != ds[k].componentName
  {
  }

  lemma StillPending(t: Table, t': Table, ds: seq<ComponentDelta>, k: nat, dir: Direction)
    requires k < |ds| && DistinctDeltas(ds) && Pending(t, ds[k..], dir)
    requires if Goes(ds[k], dir) then OthersKept(t, t', ds[k].componentName) else t' == t
    ensures Pending(t', ds[k + 1..], dir)
  {
    forall d | d in ds[k + 1..] && Goes(d, dir) ensures Untouched(t', d.componentName) {
      assert d in ds[k..];
    }
  }

  /** Each component's planned total lies between its old total and its computed target, and
      components without a delta keep their total exactly. */
  ghost predicate Scaled(before: Table, after: Table, ds: seq<ComponentDelta>) {
    && (forall d | d in ds :: Towards(before, after, d) && FallsFar(before, after, d))
    && (forall c | (forall d | d in ds :: d.componentName != c) :: ClusterCount(after, c) == ClusterCount(before, c))
  }

  function StartRequest(d: ComponentDelta): Request {
    Request(d.componentName, d.reserveMemoryMiB, d.maxInstancesPerNode, false)
  }

  lemma {:induction false} FreshTableKeys(nodes: seq<NodeStatus>)
    ensures IsTable(FreshTable(nodes))
    ensures forall n | n in FreshTable(nodes) ::
              Fresh(FreshTable(nodes)[n]) && exists i :: 0 <= i < |nodes| && nodes[i].nodeId == n
    ensures forall i | 0 <= i < |nodes| :: nodes[i].nodeId in FreshTable(nodes)
    ensures DistinctNodes(nodes) ==> forall i | 0 <= i < |nodes| ::
              FreshTable(nodes)[nodes[i].nodeId].targetNode == nodes[i]
  {
    if nodes != [] {
      var n := |nodes| - 1;
      FreshTableKeys(nodes[..n]);
      assert forall i | 0 <= i < n :: nodes[..n][i] == nodes[i];
    }
  }

  lemma FreshIsSafe(nodes: seq<NodeStatus>, mem: Name -> int, limit: Name -> int)
    requires forall n | n in FreshTable(nodes) :: Uniform(FreshTable(nodes)[n], mem)
    ensures Safe(FreshTable(nodes), FreshTable(nodes), mem, limit)
  {
  }

  lemma StopKeepsSafe(t0: Table, t: Table, t': Table, n: Name, c: Name, mem: Name -> int, limit: Name -> int)
    requires IsTable(t) && n in t && Count(t[n], c) > 0 && SteppedAt(t, t', n, c, -1, RamFor(t[n], c))
    ensures Safe(t0, t, mem, limit) ==> Safe(t0, t', mem, limit)
  {
    if Safe(t0, t, mem, limit) {
      StopIsSafe(t0[n], t[n], t'[n], c, mem, limit);
    }
  }

  lemma StartKeepsSafe(t0: Table, t: Table, t': Table, n: Name, d: ComponentDelta, mem: Name -> int, limit: Name -> int)
    requires IsTable(t) && n in t && HasRoom(t[n], StartRequest(d))
    requires SteppedAt(t, t', n, d.componentName, 1, d.reserveMemoryMiB)
    ensures Safe(t0, t, mem, limit) && AgreeOn(d, mem, limit) ==> Safe(t0, t', mem, limit)
  {
    if Safe(t0, t, mem, limit) && AgreeOn(d, mem, limit) {
      StartIsSafe(t0[n], t[n], t'[n], d.componentName, mem, limit);
    }
  }

  lemma ChosenHasRoom(t: Table, q: PlacementOption, req: Request, mem: Name -> int)
    requires IsTable(t) && Acceptable(t, q, req, mem) && !req.displaceOK
    ensures var p := t[q.targetNode.nodeId];
            HasRoom(p, req) && Adjusted(p, q, req.c, 1, req.requiredRam) && Count(p, req.c) >= 0
  {
    CountNonNegative(t[q.targetNode.nodeId]);
  }

  lemma StopCloneCount(p: PlacementOption, c: Name)
    requires Distinct(p.targetCounts)
    ensures Count(StopClone(p, c), c) == Count(p, c) - 1
  {
    CloneAdjusts(p, c, -1, RamFor(p, c));
    AdjustedEffect(p, StopClone(p, c), c, -1, RamFor(p, c));
  }

  /** The costliest option is on a node that plans the most instances. */
  lemma MostChosen(t: Table, r: PlacementOption, c: Name)
    requires IsTable(t) && r.targetNode.nodeId in t && Count(t[r.targetNode.nodeId], c) > 0
    requires Adjusted(t[r.targetNode.nodeId], r, c, -1, RamFor(t[r.targetNode.nodeId], c))
    requires forall n | n in t && Count(t[n], c) > 0 :: !CostLess(r, StopClone(t[n], c), c)
    ensures IsMost(t, c, Count(t[r.targetNode.nodeId], c))
  {
    var most := r.targetNode.nodeId;
    AdjustedCounts(t[most], r, c, -1, RamFor(t[most], c));
    forall n | n in t ensures Count(t[n], c) <= Count(t[most], c) {
      if Count(t[n], c) > 0 {
        StopCloneCount(t[n], c);
        assert !CostLess(r, StopClone(t[n], c), c);
      }
    }
  }

  /** The cheapest option is on a node that, of those with room, plans the fewest instances. */
  lemma LeastChosen(t: Table, considered: seq<PlacementOption>, r: PlacementOption, req: Request, mem: Name -> int)
    requires IsTable(t) && !req.displaceOK && Acceptable(t, r, req, mem) && Compared(t, t.Keys, considered, req, mem)
    requires forall q | q in considered :: !CostLess(q, r, req.c)
    ensures r.targetNode.nodeId in t && IsLeastRoom(t, req, Count(t[r.targetNode.nodeId], req.c))
  {
    var least := r.targetNode.nodeId;
    ChosenHasRoom(t, r, req, mem);
    AdjustedCounts(t[least], r, req.c, 1, req.requiredRam);
    forall n | n in t && HasRoom(t[n], req) ensures Count(t[n], req.c) >= Count(t[least], req.c) {
      assert Clone(t[n], req.c, 1, req.requiredRam) in considered;
      NotCheaper(t[n], r, req);
    }
  }

  lemma NotCheaper(p: PlacementOption, r: PlacementOption, req: Request)
    requires Distinct(p.targetCounts) && !CostLess(Clone(p, req.c, 1, req.requiredRam), r, req.c)
    ensures Count(p, req.c) + 1 >= Count(r, req.c)
  {
    var q := Clone(p, req.c, 1, req.requiredRam);
    CloneAdjusts(p, req.c, 1, req.requiredRam);
    AdjustedCounts(p, q, req.c, 1, req.requiredRam);
  }

  /** A step for c changes the counts of no other component, on any node. */
  lemma StepKeepsCounts(t: Table, t': Table, n: Name, c: Name, delta: int, ram: int)
    requires IsTable(t) && SteppedAt(t, t', n, c, delta, ram) && Count(t[n], c) + delta >= 0
    ensures forall k | k != c :: SameCounts(t, t', k)
  {
    MergedEffect(t[n], t'[n], c, delta, ram);
  }

  /** A start takes memory, or changes nothing. */
  lemma StartFills(t0: Table, t: Table, t': Table, n: Name, d: ComponentDelta, mem: Name -> int, limit: Name -> int)
    requires IsTable(t) && n in t && HasRoom(t[n], StartRequest(d))
    requires SteppedAt(t, t', n, d.componentName, 1, d.reserveMemoryMiB) && SameNodes(t, t')
    requires forall k | k != d.componentName :: SameCounts(t, t', k)
    ensures Safe(t0, t, mem, limit) && AgreeOn(d, mem, limit) ==> Fuller(t, t', d.componentName)
  {
    if Safe(t0, t, mem, limit) && AgreeOn(d, mem, limit) {
      assert Ram(t'[n]) >= Ram(t[n]) by {
        CountNonNegative(t[n]);
        if d.componentName in Targets(t[n]) {
          SameRam(t[n], t'[n], mem);
        } else {
          AdjustedRam(t[n], t'[n], d.componentName, 1, mem);
        }
      }
      forall m, k | m in t && k != d.componentName ensures Count(t'[m], k) == Count(t[m], k) {
        assert SameCounts(t, t', k);
      }
    }
  }

  lemma FullerTwice(t: Table, t': Table, t'': Table, c: Name)
    ensures Fuller(t, t', c) && Fuller(t', t'', c) ==> Fuller(t, t'', c)
  {
  }

  lemma OthersTwice(t: Table, t': Table, t'': Table, c: Name)
    requires OthersKept(t, t', c) && OthersKept(t', t'', c)
    ensures OthersKept(t, t'', c)
  {
    forall k | k != c ensures SameCounts(t, t'', k) {
      assert SameCounts(t, t', k) && SameCounts(t', t'', k);
    }
  }

  /** One component is brought toward its target: a run of stops or of starts. */
  ghost predicate Turn(before: Table, after: Table, d: ComponentDelta) {
    if d.delta < 0 then StopTurn(before, after, d.componentName, -d.delta)
    else StartTurn(before, after, StartRequest(d), d.delta)
  }

  /** What a run of stops does to the total. */
  lemma StopsScale(ts: seq<Table>, at: seq<Name>, d: ComponentDelta)
    requires d.delta < 0 && Stops(ts, at, d.componentName) && |at| <= -d.delta
    requires |at| < -d.delta ==> NoneLeft(ts[|at|], d.componentName)
    ensures Towards(ts[0], ts[|at|], d) && FallsFar(ts[0], ts[|at|], d) && Turn(ts[0], ts[|at|], d)
  {
    var c := d.componentName;
    StopsFall(ts, at, c, -d.delta);
    RunIsStopTurn(ts, at, c, -d.delta);
    SomeTopmost(ts[0], c);
  }

  lemma SomeTopmost(t: Table, c: Name)
    requires IsTable(t)
    ensures ClusterCount(t, c) >= 0 && (ClusterCount(t, c) > 0 ==> Topmost(t, c) >= 1)
  {
    SomewherePositive(t, c);
    if ClusterCount(t, c) > 0 {
      var n :| n in t && Count(t[n], c) > 0;
      TopmostPositive(t, c, n);
    }
  }

  /** What a run of starts does to the total. */
  lemma StartsScale(ts: seq<Table>, at: seq<Name>, d: ComponentDelta)
    requires d.delta > 0 && Starts(ts, at, StartRequest(d)) && |at| <= d.delta
    requires |at| < d.delta ==> Full(ts[|at|], StartRequest(d))
    ensures Towards(ts[0], ts[|at|], d) && Rises(ts[0], ts[|at|], StartRequest(d), d.delta)
    ensures (Grew(ts[0], ts[|at|], d) || Full(ts[|at|], StartRequest(d))) && Turn(ts[0], ts[|at|], d)
  {
    assert StartsFrom(ts, at, ts[0], ts[|at|], StartRequest(d), d.delta);
    StartsRise(ts, at, StartRequest(d), d.delta);
    RiseIsNodes(ts, at, d.componentName);
    AmongSize(at);
    if at != [] {
      assert at[0] in Among(at);
    }
  }

  ghost predicate Grew(before: Table, after: Table, d: ComponentDelta) {
    ClusterCount(after, d.componentName) > ClusterCount(before, d.componentName)
  }

  /** Every component to be scaled up has grown, or no node has room for it. */
  ghost predicate Progress(before: Table, after: Table, ds: seq<ComponentDelta>) {
    forall d | d in ds && d.delta > 0 :: Grew(before, after, d) || Full(after, StartRequest(d))
  }

  lemma ProgressStep(t0: Table, t: Table, t': Table, ds: seq<ComponentDelta>, k: nat)
    requires k < |ds| && DistinctDeltas(ds) && Progress(t0, t, ds[..k])
    requires ds[k].delta > 0 ==> ScaledOne(t, t', ds[k]) && Fuller(t, t', ds[k].componentName)
    requires ds[k].delta > 0 ==> Grew(t, t', ds[k]) || Full(t', StartRequest(ds[k]))
    requires RestKept(t0, t, ds[..k], Positive)
    requires ds[k].delta <= 0 ==> t' == t
    ensures Progress(t0, t', ds[..k + 1])
  {
    assert ds[..k + 1] == ds[..k] + [ds[k]];
    NotYetMoving(ds, k, Positive);
    SameCountsTotal(t0, t, ds[k].componentName);
    if ds[k].delta > 0 {
      forall d | d in ds[..k] && d.delta > 0 ensures Grew(t0, t', d) || Full(t', StartRequest(d)) {
        assert d.componentName != ds[k].componentName;
        if Full(t, StartRequest(d)) {
          FullStays(t, t', ds[k].componentName, StartRequest(d));
        }
      }
    }
  }

  // ---------- the turns of a phase ----------

  /** ts are the tables before, between and after the turns of one phase, which has a turn for
      every delta of its direction. */
  ghost predicate Turns(ts: seq<Table>, ds: seq<ComponentDelta>, dir: Direction) {
    && |ts| == |ds| + 1
    && forall k | 0 <= k < |ds| :: if Goes(ds[k], dir) then Turn(ts[k], ts[k + 1], ds[k]) else ts[k + 1] == ts[k]
  }

  lemma MoreTurns(ts: seq<Table>, t: Table, ds: seq<ComponentDelta>, k: nat, dir: Direction)
    requires k < |ds| && Turns(ts, ds[..k], dir)
    requires if Goes(ds[k], dir) then Turn(ts[k], t, ds[k]) else t == ts[k]
    ensures Turns(ts + [t], ds[..k + 1], dir)
  {
  }

  /** The first k deltas have had their turns, those of the other direction without effect. */
  ghost predicate PhaseSoFar(start: Table, t: Table, turns: seq<Table>, ds: seq<ComponentDelta>, k: nat, dir: Direction)
    requires k <= |ds|
  {
    && ScaledBy(start, t, ds[..k], dir) && Pending(t, ds[k..], dir)
    && Turns(turns, ds[..k], dir) && turns[0] == start && turns[k] == t
  }

  lemma PhaseStep(start: Table, t: Table, t': Table, turns: seq<Table>, ds: seq<ComponentDelta>, k: nat, dir: Direction)
    requires k < |ds| && DistinctDeltas(ds) && PhaseSoFar(start, t, turns, ds, k, dir)
    requires if Goes(ds[k], dir) then ScaledOne(t, t', ds[k]) && Turn(t, t', ds[k]) else t' == t
    ensures PhaseSoFar(start, t', turns + [t'], ds, k + 1, dir)
    ensures dir == Negative && Pending(t, ds, Positive) ==> Pending(t', ds, Positive)
  {
    ScaledStep(start, t, t', ds, k, dir);
    MoreTurns(turns, t', ds, k, dir);
    OtherPending(t, t', ds, k, dir);
  }

  lemma OtherPending(t: Table, t': Table, ds: seq<ComponentDelta>, k: nat, dir: Direction)
    requires k < |ds| && DistinctDeltas(ds)
    requires if Goes(ds[k], dir) then OthersKept(t, t', ds[k].componentName) else t' == t
    ensures dir == Negative && Pending(t, ds, Positive) ==> Pending(t', ds, Positive)
  {
  }

  lemma PhaseEnds(start: Table, t: Table, turns: seq<Table>, ds: seq<ComponentDelta>, dir: Direction)
    requires PhaseSoFar(start, t, turns, ds, |ds|, dir)
    ensures ScaledBy(start, t, ds, dir) && Turns(turns, ds, dir) && turns[0] == start && turns[|ds|] == t
  {
    assert ds[..|ds|] == ds;
  }

  lemma TurnIsNext(start: Table, t: Table, turns: seq<Table>, ds: seq<ComponentDelta>, k: nat, dir: Direction)
    requires k < |ds| && PhaseSoFar(start, t, turns, ds, k, dir) && Goes(ds[k], dir)
    ensures Untouched(t, ds[k].componentName)
  {
    assert ds[k] in ds[k..];
  }

  lemma PhaseStarts(t: Table, ds: seq<ComponentDelta>, dir: Direction)
    requires Pending(t, ds, dir)
    ensures PhaseSoFar(t, t, [t], ds, 0, dir)
  {
    assert ds[0..] == ds;
  }

  lemma TurnKeepsOthers(before: Table, after: Table, d: ComponentDelta, c: Name)
    requires Turn(before, after, d) && d.componentName != c
    ensures ClusterCount(after, c) == ClusterCount(before, c)
  {
    if d.delta < 0 {
      var ts, at :| StopsFrom(ts, at, before, after, d.componentName, -d.delta);
      StepsKeepOthers(ts, at, d.componentName, -1, |at|, c);
    } else {
      var ts, at :| StartsFrom(ts, at, before, after, StartRequest(d), d.delta);
      StepsKeepOthers(ts, at, d.componentName, 1, |at|, c);
    }
  }

  lemma {:induction false} TurnsKeep(ts: seq<Table>, ds: seq<ComponentDelta>, dir: Direction, i: nat, j: nat, c: Name)
    requires Turns(ts, ds, dir) && i <= j <= |ds| && forall k | i <= k < j :: ds[k].componentName != c
    ensures ClusterCount(ts[j], c) == ClusterCount(ts[i], c)
    decreases j
  {
    if i < j {
      TurnsKeep(ts, ds, dir, i, j - 1, c);
      if Goes(ds[j - 1], dir) {
        TurnKeepsOthers(ts[j - 1], ts[j], ds[j - 1], c);
      }
    }
  }

  /** From before to after a component grows at least by the nodes that have room and the fewest
      instances when its turn comes, or by its delta. */
  ghost predicate RisesInTurn(before: Table, after: Table, turn: Table, d: ComponentDelta) {
    forall m | IsLeastRoom(turn, StartRequest(d), m) ::
      ClusterCount(after, d.componentName) - ClusterCount(before, d.componentName)
        >= Min(d.delta, |RoomAt(turn, StartRequest(d), m)|)
  }

  ghost predicate RisesFar(before: Table, after: Table, turns: seq<Table>, ds: seq<ComponentDelta>)
    requires |turns| == |ds| + 1
  {
    forall k | 0 <= k < |ds| && ds[k].delta > 0 :: RisesInTurn(before, after, turns[k], ds[k])
  }

  lemma TurnsRise(turns: seq<Table>, ds: seq<ComponentDelta>)
    requires Turns(turns, ds, Positive) && DistinctDeltas(ds)
    ensures RisesFar(turns[0], turns[|ds|], turns, ds)
  {
    forall k | 0 <= k < |ds| && ds[k].delta > 0 ensures RisesInTurn(turns[0], turns[|ds|], turns[k], ds[k]) {
      var d := ds[k];
      TurnsKeep(turns, ds, Positive, 0, k, d.componentName);
      TurnsKeep(turns, ds, Positive, k + 1, |ds|, d.componentName);
      assert Goes(d, Positive);
      var ts, at :| StartsFrom(ts, at, turns[k], turns[k + 1], StartRequest(d), d.delta);
      StartsRise(ts, at, StartRequest(d), d.delta);
    }
  }

  // ---------- both phases ----------

  /** Scaling down, then up, then conserving moves each total no further than its target. */
  lemma PhasesScale(t0: Table, t1: Table, t2: Table, t3: Table, ds: seq<ComponentDelta>, deltas: seq<ComponentDelta>)
    requires DistinctDeltas(ds) && forall d :: d in ds <==> d in deltas
    requires ScaledBy(t0, t1, ds, Negative) && ScaledBy(t1, t2, ds, Positive)
    requires forall c :: ClusterCount(t3, c) == ClusterCount(t2, c)
    ensures Scaled(t0, t3, deltas)
  {
    forall d | d in ds && d.delta != 0
      ensures Towards(t0, t3, d) && FallsFar(t0, t3, d)
    {
      OneDirection(ds, d, Negative);
      OneDirection(ds, d, Positive);
      if d.delta < 0 {
        SameCountsTotal(t1, t2, d.componentName);
        LaterTotals(t0, t1, t3, d);
      } else {
        TowardsSame(t0, t1, t2, t3, d);
      }
    }
    forall c | c !in Moving(ds, Negative) && c !in Moving(ds, Positive)
      ensures ClusterCount(t3, c) == ClusterCount(t0, c)
    {
      SameCountsTotal(t0, t1, c);
      SameCountsTotal(t1, t2, c);
    }
    forall d | d in ds && d.delta == 0
      ensures Towards(t0, t3, d)
    {
      OneDirection(ds, d, Negative);
      OneDirection(ds, d, Positive);
    }
  }

  /** What grew during the scale-up phase grew since the start. */
  lemma PhasesProgress(t0: Table, t1: Table, t2: Table, ds: seq<ComponentDelta>, deltas: seq<ComponentDelta>)
    requires DistinctDeltas(ds) && forall d :: d in ds <==> d in deltas
    requires ScaledBy(t0, t1, ds, Negative)
    ensures Progress(t1, t2, ds) ==> Progress(t0, t2, deltas)
  {
    forall d | d in ds && d.delta > 0 ensures ClusterCount(t1, d.componentName) == ClusterCount(t0, d.componentName) {
      OneDirection(ds, d, Negative);
      SameCountsTotal(t0, t1, d.componentName);
    }
  }

  lemma OneDirection(ds: seq<ComponentDelta>, d: ComponentDelta, dir: Direction)
    requires DistinctDeltas(ds) && d in ds
    ensures d.componentName in Moving(ds, dir) <==> Goes(d, dir)
  {
    if d.componentName in Moving(ds, dir) {
      var e :| e in ds && Goes(e, dir) && e.componentName == d.componentName;
      assert e == d;
    }
  }

  /** What a component rises during the scale-up phase it has risen since the start. */
  lemma PhasesRise(t0: Table, turns: seq<Table>, t3: Table, ds: seq<ComponentDelta>)
    requires DistinctDeltas(ds) && Turns(turns, ds, Positive) && ScaledBy(t0, turns[0], ds, Negative)
    requires forall c :: ClusterCount(t3, c) == ClusterCount(turns[|ds|], c)
    ensures RisesFar(t0, t3, turns, ds)
  {
    TurnsRise(turns, ds);
    forall k | 0 <= k < |ds| && ds[k].delta > 0 ensures RisesInTurn(t0, t3, turns[k], ds[k]) {
      OneDirection(ds, ds[k], Negative);
      SameCountsTotal(t0, turns[0], ds[k].componentName);
      assert RisesInTurn(turns[0], turns[|ds|], turns[k], ds[k]);
    }
  }
}

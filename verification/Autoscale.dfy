/** The autoscale planner: scale down, scale up, then move instances to idle nodes. */
module Autoscale {
  import opened ClusterTypes
  import opened Sums
  import opened Sorting
  import opened Placement
  import opened PlacementOps
  import opened Displacing
  import opened BestOption
  import opened PlanTable
  import opened PlanRuns
  import opened PlanPhases

  // ---------- finding an instance to move ----------

  datatype Move = Move(from: Name, c: Name, ram: int)

  ghost predicate Movable(p: PlacementOption, c: Name, free: int) {
    Count(p, c) > 0 && RamFor(p, c) <= free
  }

  method FindMovable(p: PlacementOption, from: Name, free: int) returns (r: Option<Move>)
    ensures r.Some? ==> r.value.from == from && Movable(p, r.value.c, free) && r.value.ram == RamFor(p, r.value.c)
    ensures r.None? ==> forall c :: !Movable(p, c, free)
  {
    var byComp, _ := ContainerCountByComponent(p);
    var infos, tcs := Running(p), p.targetCounts;
    TargetMapKeys(tcs);
    for i := 0 to |infos|
      invariant forall j | 0 <= j < i :: !Movable(p, infos[j].componentName, free)
    {
      var c := infos[i].componentName;
      var ram := RamForComponent(p, c);
      if Get(byComp, c) > 0 && ram <= free {
        return Some(Move(from, c, ram));
      }
    }
    for i := 0 to |tcs|
      invariant forall j | 0 <= j < i :: !Movable(p, tcs[j].componentName, free)
    {
      var c := tcs[i].componentName;
      var ram := RamForComponent(p, c);
      if Get(byComp, c) > 0 && ram <= free {
        return Some(Move(from, c, ram));
      }
    }
    r := None;
    forall c
      ensures !Movable(p, c, free)
    {
      if c !in Names(p) {
        CountOutside(p, c);
      }
    }
  }

  /** An instance on a node other than the given one that runs more than one container, small
      enough for the free memory; none only if there is no such instance. */
  method FindCompToMove(t: Table, otherNodeId: Name, free: int) returns (r: Option<Move>)
    ensures r.Some? ==>
              var m := r.value;
              && m.from in t && m.from != otherNodeId && Total(t[m.from]) > 1
              && Movable(t[m.from], m.c, free) && m.ram == RamFor(t[m.from], m.c)
    ensures r.None? ==> forall n, c | n in t && n != otherNodeId && Total(t[n]) > 1 :: !Movable(t[n], c, free)
  {
    var todo := t.Keys;
    while todo != {}
      invariant todo <= t.Keys
      invariant forall n, c | n in t.Keys - todo && n != otherNodeId && Total(t[n]) > 1 :: !Movable(t[n], c, free)
    {
      var n :| n in todo;
      todo := todo - {n};
      var _, totalContainers := ContainerCountByComponent(t[n]);
      if n != otherNodeId && totalContainers > 1 {
        r := FindMovable(t[n], n, free);
        if r.Some? {
          return;
        }
      }
    }
    r := None;
  }

  ghost predicate NothingMovable(t: Table, e: Name)
    requires e in t
  {
    forall n, c | n in t && n != e && Total(t[n]) > 1 :: !Movable(t[n], c, t[e].targetNode.totalMemoryMiB)
  }

  /** Node e is not idle, or nothing can be moved to it. */
  ghost predicate Settled(t: Table, e: Name, mem: Name -> int) {
    e in t && (Total(t[e]) == 0 ==> Blocked(t, e, mem))
  }

  ghost predicate AllSettled(t: Table, nodes: seq<NodeStatus>, mem: Name -> int) {
    forall node | node in nodes :: Settled(t, node.nodeId, mem)
  }

  ghost predicate NodesIn(nodes: seq<NodeStatus>, t: Table) {
    forall node | node in nodes :: node.nodeId in t && t[node.nodeId].targetNode == node
  }

  /** Every component's total is conserved and no node is emptied. */
  ghost predicate Rebalanced(t: Table, t': Table) {
    && IsTable(t') && SameNodes(t, t')
    && (forall c :: ClusterCount(t', c) == ClusterCount(t, c))
    && (forall n | n in t && Total(t[n]) > 0 :: Total(t'[n]) > 0)
  }

  lemma IdleIsSettled(t0: Table, t: Table, e: Name, mem: Name -> int, limit: Name -> int)
    requires IsTable(t) && Safe(t0, t, mem, limit) && e in t
    requires Ram(t[e]) == 0 ==> NothingMovable(t, e)
    ensures Settled(t, e, mem)
  {
    NoRamIffEmpty(t[e], mem);
    if Total(t[e]) == 0 {
      forall n, c | n in t && n != e && Total(t[n]) > 1 && Count(t[n], c) > 0
        ensures mem(c) > t[e].targetNode.totalMemoryMiB
      {
        if c !in Names(t[n]) {
          CountOutside(t[n], c);
        }
        RamForUniform(t[n], c, mem);
        assert !Movable(t[n], c, t[e].targetNode.totalMemoryMiB);
      }
    }
  }

  /** What one turn of the rebalance loop does for one node. */
  ghost predicate NodeStep(t: Table, t': Table, node: NodeStatus, moved: bool, f: Name, c: Name, ram: int)
    requires node.nodeId in t
  {
    if moved then
      && MovedOne(t, t', f, node.nodeId, c, ram)
      && ram == RamFor(t[f], c) <= node.totalMemoryMiB
      && Ram(t[node.nodeId]) == 0
    else
      t' == t && (Ram(t[node.nodeId]) == 0 ==> NothingMovable(t, node.nodeId))
  }

  /** The table before and after the loop looks at one node. */
  ghost predicate NodeTurn(t: Table, t': Table, node: NodeStatus) {
    node.nodeId in t && exists moved, f, c, ram :: NodeStep(t, t', node, moved, f, c, ram)
  }

  /** ts are the tables before, between and after the turns of the rebalance loop. */
  ghost predicate NodeTurns(ts: seq<Table>, nodes: seq<NodeStatus>) {
    |ts| == |nodes| + 1 && forall i | 0 <= i < |nodes| :: NodeTurn(ts[i], ts[i + 1], nodes[i])
  }

  lemma MoreNodeTurns(ts: seq<Table>, t: Table, nodes: seq<NodeStatus>, i: nat, moved: bool, f: Name, c: Name, ram: int)
    requires i < |nodes| && NodeTurns(ts, nodes[..i]) && nodes[i].nodeId in ts[i]
    requires NodeStep(ts[i], t, nodes[i], moved, f, c, ram)
    ensures NodeTurns(ts + [t], nodes[..i + 1])
  {
  }

  /** A node that had something only gives instances away, any other takes one at most. */
  ghost predicate OnlyGives(t: Table, t': Table) {
    && SameNodes(t, t')
    && forall n | n in t ::
        if Total(t[n]) > 0 then (forall k :: Count(t'[n], k) <= Count(t[n], k)) else Total(t'[n]) <= 1
  }

  /** A move from a node with more than one container to an idle one. */
  lemma MoveGives(start: Table, t: Table, t': Table, f: Name, e: Name, c: Name, ram: int)
    requires Rebalanced(start, t) && OnlyGives(start, t) && MovedOne(t, t', f, e, c, ram) && Total(t[e]) == 0
    ensures OnlyGives(start, t')
  {
    AdjustedEffect(t[f], t'[f], c, -1, ram);
    AdjustedEffect(t[e], t'[e], c, 1, ram);
  }

  lemma StepGives(start: Table, t0: Table, t: Table, t': Table, node: NodeStatus, moved: bool, f: Name, c: Name,
                  ram: int, mem: Name -> int, limit: Name -> int)
    requires Rebalanced(start, t) && OnlyGives(start, t) && Safe(t0, t, mem, limit)
    requires node.nodeId in t && NodeStep(t, t', node, moved, f, c, ram)
    ensures OnlyGives(start, t')
  {
    if moved {
      NoRamIffEmpty(t[node.nodeId], mem);
      MoveGives(start, t, t', f, node.nodeId, c, ram);
    }
  }

  /** A node that has room after rebalancing and had none before gave an instance away. */
  ghost predicate GaveAway(t: Table, t': Table, n: Name)
    requires n in t && n in t'
  {
    exists k :: Count(t'[n], k) < Count(t[n], k)
  }

  lemma RoomWasGiven(t0: Table, t: Table, t': Table, n: Name, req: Request, mem: Name -> int, limit: Name -> int)
    requires IsTable(t) && IsTable(t') && Safe(t0, t, mem, limit) && Safe(t0, t', mem, limit)
    requires n in t && !HasRoom(t[n], req) && HasRoom(t'[n], req)
    ensures GaveAway(t, t', n)
  {
    if forall k :: Count(t[n], k) <= Count(t'[n], k) {
      RamGrows(t[n], t'[n], mem);
    }
  }

  lemma StepRebalances(start: Table, t: Table, t': Table, node: NodeStatus, moved: bool, f: Name, c: Name, ram: int)
    requires node.nodeId in t && NodeStep(t, t', node, moved, f, c, ram) && Rebalanced(start, t)
    ensures Rebalanced(start, t')
  {
    if moved {
      MoveConserves(t, t', f, node.nodeId, c, ram);
    }
  }

  lemma StepSettles(t0: Table, t: Table, t': Table, nodes: seq<NodeStatus>, i: nat, moved: bool, f: Name, c: Name,
                    ram: int, mem: Name -> int, limit: Name -> int)
    requires i < |nodes| && DistinctNodes(nodes) && IsTable(t) && NodesIn(nodes, t) && Safe(t0, t, mem, limit)
    requires AllSettled(t, nodes[..i], mem) && NodeStep(t, t', nodes[i], moved, f, c, ram)
    ensures Safe(t0, t', mem, limit) && AllSettled(t', nodes[..i + 1], mem)
  {
    assert nodes[..i + 1] == nodes[..i] + [nodes[i]];
    if moved {
      MoveSettles(t0, t, t', f, nodes[i], c, ram, mem, limit);
      forall node | node in nodes[..i]
        ensures Settled(t', node.nodeId, mem)
      {
        BlockedStays(t, t', f, nodes[i].nodeId, c, mem, node.nodeId);
      }
    } else {
      IdleIsSettled(t0, t, nodes[i].nodeId, mem, limit);
    }
  }

  lemma MoveSettles(t0: Table, t: Table, t': Table, f: Name, node: NodeStatus, c: Name, ram: int,
                    mem: Name -> int, limit: Name -> int)
    requires IsTable(t) && Safe(t0, t, mem, limit) && node.nodeId in t && t[node.nodeId].targetNode == node
    requires NodeStep(t, t', node, true, f, c, ram)
    ensures ram == mem(c) && Safe(t0, t', mem, limit)
    ensures Total(t[node.nodeId]) == 0 && Total(t'[node.nodeId]) == 1
  {
    var e := node.nodeId;
    if c !in Names(t[f]) {
      CountOutside(t[f], c);
    }
    RamForUniform(t[f], c, mem);
    MoveIsSafe(t0, t, t', f, e, c, mem, limit);
    NoRamIffEmpty(t[e], mem);
    AdjustedEffect(t[e], t'[e], c, 1, ram);
  }

  /** The nodes looked at so far are settled, and the phase has been safe and only given. */
  ghost predicate Balanced(t0: Table, start: Table, t: Table, nodes: seq<NodeStatus>, mem: Name -> int,
                           limit: Name -> int) {
    Safe(t0, start, mem, limit) ==> Safe(t0, t, mem, limit) && AllSettled(t, nodes, mem) && OnlyGives(start, t)
  }

  lemma StepBalances(start: Table, t0: Table, t: Table, t': Table, nodes: seq<NodeStatus>, i: nat, moved: bool, f: Name,
                     c: Name, ram: int, mem: Name -> int, limit: Name -> int)
    requires i < |nodes| && DistinctNodes(nodes) && NodesIn(nodes, t) && Rebalanced(start, t)
    requires Balanced(t0, start, t, nodes[..i], mem, limit) && NodeStep(t, t', nodes[i], moved, f, c, ram)
    ensures Balanced(t0, start, t', nodes[..i + 1], mem, limit)
  {
    if Safe(t0, start, mem, limit) {
      StepSettles(t0, t, t', nodes, i, moved, f, c, ram, mem, limit);
      StepGives(start, t0, t, t', nodes[i], moved, f, c, ram, mem, limit);
    }
  }

  // ---------- results ----------

  ghost predicate IsListed(t: Table, todo: set<Name>, o: PlacementOption) {
    var n := o.targetNode.nodeId;
    n in t && n !in todo && t[n] == o && |o.targetCounts| > 0
  }

  /** The listed options are exactly the table's options that have targets. */
  ghost predicate ListedBut(t: Table, todo: set<Name>, options: seq<PlacementOption>) {
    && (forall o | o in options :: IsListed(t, todo, o))
    && (forall n | n in t && n !in todo && |t[n].targetCounts| > 0 :: t[n] in options)
    && (forall i, j | 0 <= i < j < |options| :: options[i].targetNode.nodeId != options[j].targetNode.nodeId)
  }

  ghost predicate Listing(t: Table, options: seq<PlacementOption>) {
    && ListedBut(t, {}, options)
    && (forall i, j | 0 <= i < j < |options| ::
          !StringLess(options[j].targetNode.nodeId, options[i].targetNode.nodeId))
  }

  lemma CollectStep(t: Table, todo: set<Name>, options: seq<PlacementOption>, n: Name, o: PlacementOption)
    requires forall k | k in t :: t[k].targetNode.nodeId == k
    requires n in todo && todo <= t.Keys && ListedBut(t, todo, options)
    requires o.targetNode == t[n].targetNode && |o.targetCounts| > 0
    ensures ListedBut(t[n := o], todo - {n}, options + [o])
  {
    var t', more := t[n := o], options + [o];
    assert forall x :: x in more <==> x in options || x == o;
    forall x | x in more
      ensures IsListed(t', todo - {n}, x)
    {
      assert x != o ==> IsListed(t, todo, x);
    }
    forall i | 0 <= i < |options|
      ensures options[i].targetNode.nodeId != n
    {
      assert IsListed(t, todo, options[i]);
    }
  }

  lemma SkippedStep(t: Table, todo: set<Name>, options: seq<PlacementOption>, n: Name)
    requires n in todo && todo <= t.Keys && ListedBut(t, todo, options) && t[n].targetCounts == []
    ensures ListedBut(t, todo - {n}, options)
  {
    forall x | x in options
      ensures IsListed(t, todo - {n}, x)
    {
      assert IsListed(t, todo, x);
    }
  }

  method SortByNode(ghost t: Table, options: seq<PlacementOption>) returns (sorted: seq<PlacementOption>)
    requires ListedBut(t, {}, options)
    ensures Listing(t, sorted)
  {
    var less := (a: PlacementOption, b: PlacementOption) => StringLess(a.targetNode.nodeId, b.targetNode.nodeId);
    assert StrictWeakOrder(less) by {
      StringOrder();
    }
    sorted := Sort(options, less);
    assert SortedBy(sorted, less);
    SameElements(options, sorted);
    var key := (o: PlacementOption) => o.targetNode.nodeId;
    DistinctPermuted(options, sorted, key);
    forall i, j | 0 <= i < j < |sorted|
      ensures sorted[i].targetNode.nodeId != sorted[j].targetNode.nodeId
      ensures !StringLess(sorted[j].targetNode.nodeId, sorted[i].targetNode.nodeId)
    {
      assert key(sorted[i]) != key(sorted[j]) && !less(sorted[j], sorted[i]);
    }
  }

  method SortDeltas(deltas: seq<ComponentDelta>) returns (ds: seq<ComponentDelta>)
    requires DistinctDeltas(deltas)
    ensures multiset(ds) == multiset(deltas) && DistinctDeltas(ds)
    ensures forall i, j | 0 <= i < j < |ds| :: ds[i].delta <= ds[j].delta
  {
    var less := (a: ComponentDelta, b: ComponentDelta) => a.delta < b.delta;
    ds := Sort(deltas, less);
    assert SortedBy(ds, less);
    var key := (d: ComponentDelta) => d.componentName;
    DistinctPermuted(deltas, ds, key);
    forall i, j | 0 <= i < j < |ds|
      ensures ds[i].delta <= ds[j].delta && ds[i].componentName != ds[j].componentName
    {
      assert !less(ds[j], ds[i]) && key(ds[i]) != key(ds[j]);
    }
  }

  ghost predicate UniformNodes(nodes: seq<NodeStatus>, mem: Name -> int) {
    && (forall c :: mem(c) >= 1)
    && (forall node, ci | node in nodes && ci in node.runningComponents ::
          ci.memoryReservedMiB == mem(ci.componentName))
  }

  lemma {:induction false} FreshUniform(nodes: seq<NodeStatus>, mem: Name -> int)
    requires UniformNodes(nodes, mem)
    ensures forall n | n in FreshTable(nodes) :: Uniform(FreshTable(nodes)[n], mem)
  {
    if nodes != [] {
      FreshUniform(nodes[..|nodes| - 1], mem);
      assert nodes[|nodes| - 1] in nodes;
    }
  }

  // ---------- the whole planner ----------

  /** The tables of one planner call: around every turn of scaling down, of scaling up and of
      rebalancing, with the deltas in the order of their turns. */
  datatype Trace = Trace(ds: seq<ComponentDelta>, downs: seq<Table>, ups: seq<Table>, moves: seq<Table>)

  ghost predicate InOrder(ds: seq<ComponentDelta>, deltas: seq<ComponentDelta>) {
    multiset(ds) == multiset(deltas) && forall i, j | 0 <= i < j < |ds| :: ds[i].delta <= ds[j].delta
  }

  ghost predicate IsTrace(tr: Trace, nodes: seq<NodeStatus>, deltas: seq<ComponentDelta>) {
    && InOrder(tr.ds, deltas)
    && Turns(tr.downs, tr.ds, Negative) && tr.downs[0] == FreshTable(nodes)
    && Turns(tr.ups, tr.ds, Positive) && tr.ups[0] == tr.downs[|tr.ds|]
    && NodeTurns(tr.moves, nodes) && tr.moves[0] == Filled(tr)
  }

  /** The table between scaling and rebalancing. */
  function Filled(tr: Trace): Table
    requires |tr.ups| == |tr.ds| + 1
  {
    tr.ups[|tr.ds|]
  }

  /** Only nodes that gave an instance away while rebalancing have room. */
  ghost predicate RoomOnlyGiven(filled: Table, after: Table, req: Request)
    requires SameNodes(filled, after)
  {
    forall n | n in after && HasRoom(after[n], req) :: GaveAway(filled, after, n)
  }

  /** Every component to be scaled up gained an instance, or has room at most on nodes that gave
      an instance away while rebalancing. */
  ghost predicate Served(before: Table, filled: Table, after: Table, ds: seq<ComponentDelta>)
    requires SameNodes(filled, after)
  {
    forall d | d in ds && d.delta > 0 :: Grew(before, after, d) || RoomOnlyGiven(filled, after, StartRequest(d))
  }

  lemma ProgressServes(t0: Table, filled: Table, after: Table, ds: seq<ComponentDelta>, mem: Name -> int,
                       limit: Name -> int)
    requires IsTable(filled) && Rebalanced(filled, after) && Progress(t0, filled, ds)
    requires Safe(t0, filled, mem, limit) && Safe(t0, after, mem, limit)
    ensures Served(t0, filled, after, ds)
  {
    forall d | d in ds && d.delta > 0
      ensures Grew(t0, after, d) || RoomOnlyGiven(filled, after, StartRequest(d))
    {
      if Full(filled, StartRequest(d)) {
        forall n | n in after && HasRoom(after[n], StartRequest(d)) ensures GaveAway(filled, after, n) {
          RoomWasGiven(t0, filled, after, n, StartRequest(d), mem, limit);
        }
      }
    }
  }

  lemma OnlyGivesSame(t: Table, t': Table, t'': Table)
    requires IsTable(t') && OnlyGives(t, t') && SameViews(t', t'')
    ensures OnlyGives(t, t'')
  {
    SameViewsKeep(t', t'');
  }

  /** What is safe and given until the targets are sorted is so afterwards. */
  lemma Collected(t0: Table, filled: Table, t3: Table, after: Table, nodes: seq<NodeStatus>, ds: seq<ComponentDelta>,
                  mem: Name -> int, limit: Name -> int)
    requires IsTable(filled) && Rebalanced(filled, t3) && SameViews(t3, after) && Safe(t0, t3, mem, limit)
    requires Safe(t0, filled, mem, limit) && AllSettled(t3, nodes, mem) && OnlyGives(filled, t3)
    requires Progress(t0, filled, ds)
    ensures Safe(t0, after, mem, limit) && AllSettled(after, nodes, mem) && OnlyGives(filled, after)
    ensures Rebalanced(filled, after) && Served(t0, filled, after, ds)
  {
    SameViewsKeep(t3, after);
    SameViewsSafe(t0, t3, after, mem, limit);
    OnlyGivesSame(filled, t3, after);
    ProgressServes(t0, filled, after, ds, mem, limit);
  }

  class Planner {
    var optionByNode: Table

    constructor ()
      ensures optionByNode == map[]
    {
      optionByNode := map[];
    }

    /** Merges a step for its node into the table. */
    method Store(step: PlacementOption, c: Name, delta: int, ghost ram: int)
      requires IsTable(optionByNode) && step.targetNode.nodeId in optionByNode
      requires var p := optionByNode[step.targetNode.nodeId];
               Adjusted(p, step, c, delta, ram) && Count(p, c) + delta >= 0
      modifies this
      ensures SteppedAt(old(optionByNode), optionByNode, step.targetNode.nodeId, c, delta, ram)
    {
      var merged := MergeOption(optionByNode, step);
      MergeAbsorbs(optionByNode[step.targetNode.nodeId], step, merged, c, delta, ram);
      optionByNode := optionByNode[step.targetNode.nodeId := merged];
    }

    /** Stops one instance of c on the costliest node; false when none is left to stop. */
    method StopOnce(c: Name, ghost t0: Table, ghost mem: Name -> int, ghost limit: Name -> int)
      returns (ok: bool, ghost n: Name)
      requires IsTable(optionByNode)
      modifies this
      ensures ok ==> OneStep(old(optionByNode), optionByNode, c, -1)
      ensures ok ==> Stepped(old(optionByNode), optionByNode, n, c, -1)
      ensures ok ==> IsMost(old(optionByNode), c, Count(old(optionByNode)[n], c))
      ensures Safe(t0, old(optionByNode), mem, limit) ==> Safe(t0, optionByNode, mem, limit)
      ensures !ok ==>
          optionByNode == old(optionByNode) && NoneLeft(optionByNode, c)
    {
      var option := BestStopComponentOption(optionByNode, c);
      n := "";
      if option.None? {
        return false, n;
      }
      ghost var before := optionByNode;
      n := option.value.targetNode.nodeId;
      MostChosen(before, option.value, c);
      Store(option.value, c, -1, RamFor(before[n], c));
      StoreStep(before, n, optionByNode[n], c, -1, RamFor(before[n], c));
      StepKeepsCounts(before, optionByNode, n, c, -1, RamFor(before[n], c));
      StopKeepsSafe(t0, before, optionByNode, n, c, mem, limit);
      ok := true;
    }

    /** Starts one instance on the cheapest node with room; false when no node has room. */
    method StartOnce(d: ComponentDelta, ghost t0: Table, ghost mem: Name -> int, ghost limit: Name -> int)
      returns (ok: bool, ghost n: Name)
      requires IsTable(optionByNode)
      modifies this
      ensures ok ==> OneStep(old(optionByNode), optionByNode, d.componentName, 1)
      ensures ok ==> StartedAt(old(optionByNode), optionByNode, n, StartRequest(d))
      ensures Safe(t0, old(optionByNode), mem, limit) && AgreeOn(d, mem, limit) ==>
          Safe(t0, optionByNode, mem, limit) && Fuller(old(optionByNode), optionByNode, d.componentName)
      ensures !ok ==> optionByNode == old(optionByNode) && Full(optionByNode, StartRequest(d))
    {
      ghost var considered, before;
      var option;
      before := optionByNode;
      n := "";
      option, considered := BestStartComponentOption(optionByNode, StartRequest(d), mem);
      if option.None? {
        return false, n;
      }
      n := option.value.targetNode.nodeId;
      LeastChosen(before, considered, option.value, StartRequest(d), mem);
      StoreStart(option.value, d, t0, mem, limit);
      ok := true;
    }

    /** Merges a chosen start into the table. */
    method StoreStart(q: PlacementOption, d: ComponentDelta, ghost t0: Table, ghost mem: Name -> int,
                      ghost limit: Name -> int)
      requires IsTable(optionByNode) && Acceptable(optionByNode, q, StartRequest(d), mem)
      modifies this
      ensures OneStep(old(optionByNode), optionByNode, d.componentName, 1)
      ensures var n := q.targetNode.nodeId;
              && n in old(optionByNode) && HasRoom(old(optionByNode)[n], StartRequest(d))
              && SteppedAt(old(optionByNode), optionByNode, n, d.componentName, 1, d.reserveMemoryMiB)
      ensures Safe(t0, old(optionByNode), mem, limit) && AgreeOn(d, mem, limit) ==>
          Safe(t0, optionByNode, mem, limit) && Fuller(old(optionByNode), optionByNode, d.componentName)
    {
      ghost var before, n := optionByNode, q.targetNode.nodeId;
      ChosenHasRoom(before, q, StartRequest(d), mem);
      Store(q, d.componentName, 1, d.reserveMemoryMiB);
      StoreStep(before, n, optionByNode[n], d.componentName, 1, d.reserveMemoryMiB);
      StepKeepsCounts(before, optionByNode, n, d.componentName, 1, d.reserveMemoryMiB);
      StartKeepsSafe(t0, before, optionByNode, n, d, mem, limit);
      StartFills(t0, before, optionByNode, n, d, mem, limit);
    }

    /** One more stop of a run. */
    method StopNext(c: Name, ghost ts: seq<Table>, ghost at: seq<Name>, ghost t0: Table, ghost mem: Name -> int,
                    ghost limit: Name -> int)
      returns (ok: bool, ghost ts': seq<Table>, ghost at': seq<Name>)
      requires IsTable(optionByNode) && Stops(ts, at, c) && ts[|at|] == optionByNode
      modifies this
      ensures ok ==> IsTable(optionByNode) && SameNodes(old(optionByNode), optionByNode)
      ensures ok ==> OthersKept(old(optionByNode), optionByNode, c)
      ensures Safe(t0, old(optionByNode), mem, limit) ==> Safe(t0, optionByNode, mem, limit)
      ensures !ok ==> optionByNode == old(optionByNode) && ts' == ts && at' == at
      ensures !ok ==> NoneLeft(optionByNode, c)
      ensures Stops(ts', at', c) && ts'[0] == ts[0] && ts'[|at'|] == optionByNode
      ensures |at'| == |at| + if ok then 1 else 0
    {
      ghost var n;
      ok, n := StopOnce(c, t0, mem, limit);
      ts', at' := ts, at;
      if ok {
        StopsMore(ts, at, optionByNode, n, c);
        ts', at' := ts + [optionByNode], at + [n];
      }
    }

    /** Stops -d.delta instances of one component, as far as there are any. */
    method ScaleDownComponent(d: ComponentDelta, ghost t0: Table, ghost mem: Name -> int, ghost limit: Name -> int)
      requires IsTable(optionByNode) && d.delta < 0 && Untouched(optionByNode, d.componentName)
      modifies this
      ensures IsTable(optionByNode) && SameNodes(old(optionByNode), optionByNode)
      ensures ScaledOne(old(optionByNode), optionByNode, d) && Turn(old(optionByNode), optionByNode, d)
      ensures Safe(t0, old(optionByNode), mem, limit) ==> Safe(t0, optionByNode, mem, limit)
    {
      var c, stopTotal := d.componentName, -d.delta;
      var i := 0;
      ghost var ts, at: seq<Name> := [optionByNode], [];
      while i < stopTotal
        invariant 0 <= i <= stopTotal
        invariant IsTable(optionByNode) && SameNodes(old(optionByNode), optionByNode)
        invariant OthersKept(old(optionByNode), optionByNode, c)
        invariant Safe(t0, old(optionByNode), mem, limit) ==> Safe(t0, optionByNode, mem, limit)
        invariant Stops(ts, at, c) && |at| == i && ts[0] == old(optionByNode) && ts[i] == optionByNode
      {
        ghost var before := optionByNode;
        var ok;
        ok, ts, at := StopNext(c, ts, at, t0, mem, limit);
        if !ok {
          break;
        }
        OthersTwice(old(optionByNode), before, optionByNode, c);
        i := i + 1;
      }
      StopsScale(ts, at, d);
    }

    /** One more start of a run. */
    method StartNext(d: ComponentDelta, ghost ts: seq<Table>, ghost at: seq<Name>, ghost t0: Table,
                     ghost mem: Name -> int, ghost limit: Name -> int)
      returns (ok: bool, ghost ts': seq<Table>, ghost at': seq<Name>)
      requires IsTable(optionByNode) && Starts(ts, at, StartRequest(d)) && ts[|at|] == optionByNode
      modifies this
      ensures ok ==> IsTable(optionByNode) && SameNodes(old(optionByNode), optionByNode)
      ensures ok ==> OthersKept(old(optionByNode), optionByNode, d.componentName)
      ensures Safe(t0, old(optionByNode), mem, limit) && AgreeOn(d, mem, limit) ==>
          Safe(t0, optionByNode, mem, limit) && Fuller(old(optionByNode), optionByNode, d.componentName)
      ensures !ok ==> optionByNode == old(optionByNode) && ts' == ts && at' == at
      ensures !ok ==> Full(optionByNode, StartRequest(d))
      ensures Starts(ts', at', StartRequest(d)) && ts'[0] == ts[0] && ts'[|at'|] == optionByNode
      ensures |at'| == |at| + if ok then 1 else 0
    {
      ghost var n;
      ok, n := StartOnce(d, t0, mem, limit);
      ts', at' := ts, at;
      if ok {
        StartsMore(ts, at, optionByNode, n, StartRequest(d));
        ts', at' := ts + [optionByNode], at + [n];
      }
    }

    /** Starts d.delta instances of one component, as far as there is room. */
    method ScaleUpComponent(d: ComponentDelta, ghost t0: Table, ghost mem: Name -> int, ghost limit: Name -> int)
      requires IsTable(optionByNode) && d.delta > 0 && Untouched(optionByNode, d.componentName)
      modifies this
      ensures IsTable(optionByNode) && SameNodes(old(optionByNode), optionByNode)
      ensures ScaledOne(old(optionByNode), optionByNode, d) && Turn(old(optionByNode), optionByNode, d)
      ensures Rises(old(optionByNode), optionByNode, StartRequest(d), d.delta)
      ensures Grew(old(optionByNode), optionByNode, d) || Full(optionByNode, StartRequest(d))
      ensures Safe(t0, old(optionByNode), mem, limit) && AgreeOn(d, mem, limit) ==>
          Safe(t0, optionByNode, mem, limit) && Fuller(old(optionByNode), optionByNode, d.componentName)
    {
      var c := d.componentName;
      var i := 0;
      ghost var ts, at: seq<Name> := [optionByNode], [];
      while i < d.delta
        invariant 0 <= i <= d.delta
        invariant IsTable(optionByNode) && SameNodes(old(optionByNode), optionByNode)
        invariant OthersKept(old(optionByNode), optionByNode, c)
        invariant Safe(t0, old(optionByNode), mem, limit) && AgreeOn(d, mem, limit) ==>
                    Safe(t0, optionByNode, mem, limit) && Fuller(old(optionByNode), optionByNode, c)
        invariant Starts(ts, at, StartRequest(d)) && |at| == i && ts[0] == old(optionByNode) && ts[i] == optionByNode
      {
        ghost var before := optionByNode;
        var ok;
        ok, ts, at := StartNext(d, ts, at, t0, mem, limit);
        if !ok {
          break;
        }
        FullerTwice(old(optionByNode), before, optionByNode, c);
        OthersTwice(old(optionByNode), before, optionByNode, c);
        i := i + 1;
      }
      StartsScale(ts, at, d);
    }

    /** The scale-down phase: all negative deltas in order. */
    method ScaleDown(ds: seq<ComponentDelta>, ghost t0: Table, ghost mem: Name -> int, ghost limit: Name -> int)
      returns (ghost turns: seq<Table>)
      requires IsTable(optionByNode) && DistinctDeltas(ds) && Pending(optionByNode, ds, Negative)
      modifies this
      ensures IsTable(optionByNode) && SameNodes(old(optionByNode), optionByNode)
      ensures ScaledBy(old(optionByNode), optionByNode, ds, Negative)
      ensures Turns(turns, ds, Negative) && turns[0] == old(optionByNode) && turns[|ds|] == optionByNode
      ensures Pending(old(optionByNode), ds, Positive) ==> Pending(optionByNode, ds, Positive)
      ensures Safe(t0, old(optionByNode), mem, limit) ==> Safe(t0, optionByNode, mem, limit)
    {
      PhaseStarts(optionByNode, ds, Negative);
      turns := [optionByNode];
      for k := 0 to |ds|
        invariant IsTable(optionByNode) && SameNodes(old(optionByNode), optionByNode)
        invariant PhaseSoFar(old(optionByNode), optionByNode, turns, ds, k, Negative)
        invariant Pending(old(optionByNode), ds, Positive) ==> Pending(optionByNode, ds, Positive)
        invariant Safe(t0, old(optionByNode), mem, limit) ==> Safe(t0, optionByNode, mem, limit)
      {
        ghost var before := optionByNode;
        if ds[k].delta < 0 {
          TurnIsNext(old(optionByNode), optionByNode, turns, ds, k, Negative);
          ScaleDownComponent(ds[k], t0, mem, limit);
        }
        PhaseStep(old(optionByNode), before, optionByNode, turns, ds, k, Negative);
        turns := turns + [optionByNode];
      }
      PhaseEnds(old(optionByNode), optionByNode, turns, ds, Negative);
    }

    /** The scale-up phase: all positive deltas in order. */
    method ScaleUp(ds: seq<ComponentDelta>, ghost t0: Table, ghost mem: Name -> int, ghost limit: Name -> int)
      returns (ghost turns: seq<Table>)
      requires IsTable(optionByNode) && DistinctDeltas(ds) && Pending(optionByNode, ds, Positive)
      modifies this
      ensures IsTable(optionByNode) && SameNodes(old(optionByNode), optionByNode)
      ensures ScaledBy(old(optionByNode), optionByNode, ds, Positive)
      ensures Turns(turns, ds, Positive) && turns[0] == old(optionByNode) && turns[|ds|] == optionByNode
      ensures Safe(t0, old(optionByNode), mem, limit) && Agree(ds, mem, limit) ==>
          Safe(t0, optionByNode, mem, limit) && Progress(old(optionByNode), optionByNode, ds)
    {
      PhaseStarts(optionByNode, ds, Positive);
      turns := [optionByNode];
      for k := 0 to |ds|
        invariant IsTable(optionByNode) && SameNodes(old(optionByNode), optionByNode)
        invariant PhaseSoFar(old(optionByNode), optionByNode, turns, ds, k, Positive)
        invariant Safe(t0, old(optionByNode), mem, limit) && Agree(ds, mem, limit) ==>
            Safe(t0, optionByNode, mem, limit) && Progress(old(optionByNode), optionByNode, ds[..k])
      {
        ghost var before := optionByNode;
        if ds[k].delta > 0 {
          TurnIsNext(old(optionByNode), optionByNode, turns, ds, k, Positive);
          ScaleUpComponent(ds[k], t0, mem, limit);
        }
        if Safe(t0, old(optionByNode), mem, limit) && Agree(ds, mem, limit) {
          ProgressStep(old(optionByNode), before, optionByNode, ds, k);
        }
        PhaseStep(old(optionByNode), before, optionByNode, turns, ds, k, Positive);
        turns := turns + [optionByNode];
      }
      PhaseEnds(old(optionByNode), optionByNode, turns, ds, Positive);
    }

    /** Moves one instance to the given node if the node is idle and something fits. */
    method RebalanceNode(node: NodeStatus) returns (moved: bool, ghost f: Name, ghost c: Name, ghost ram: int)
      requires IsTable(optionByNode) && node.nodeId in optionByNode && optionByNode[node.nodeId].targetNode == node
      modifies this
      ensures NodeStep(old(optionByNode), optionByNode, node, moved, f, c, ram)
    {
      moved, f, c, ram := false, "", "", 0;
      var e := node.nodeId;
      var ramUsed := RamUsed(optionByNode[e]);
      if ramUsed == 0 {
        var found := FindCompToMove(optionByNode, e, node.totalMemoryMiB);
        if found.Some? {
          f, c, ram := found.value.from, found.value.c, found.value.ram;
          MoveOne(found.value.from, e, found.value.c, found.value.ram);
          moved := true;
        }
      }
    }

    /** Takes one instance of c off the node from and plans it for the node e. */
    method MoveOne(from: Name, e: Name, c: Name, ram: int)
      requires IsTable(optionByNode) && from in optionByNode && e in optionByNode && from != e
      requires Total(optionByNode[from]) > 1 && Count(optionByNode[from], c) > 0
      modifies this
      ensures MovedOne(old(optionByNode), optionByNode, from, e, c, ram)
    {
      var give := CloneWithTargetDelta(optionByNode[from], c, -1, ram);
      var take := CloneWithTargetDelta(optionByNode[e], c, 1, ram);
      optionByNode := optionByNode[from := give];
      optionByNode := optionByNode[e := take];
    }

    /** The rebalance phase: conserves every total, empties no node, keeps memory and limits, and
        leaves no node idle to which some instance could still be moved. */
    method Rebalance(nodes: seq<NodeStatus>, ghost t0: Table, ghost mem: Name -> int, ghost limit: Name -> int)
      returns (ghost turns: seq<Table>)
      requires IsTable(optionByNode) && DistinctNodes(nodes) && NodesIn(nodes, optionByNode)
      modifies this
      ensures Rebalanced(old(optionByNode), optionByNode)
      ensures NodeTurns(turns, nodes) && turns[0] == old(optionByNode) && turns[|nodes|] == optionByNode
      ensures Balanced(t0, old(optionByNode), optionByNode, nodes, mem, limit)
    {
      turns := [optionByNode];
      for i := 0 to |nodes|
        invariant Rebalanced(old(optionByNode), optionByNode)
        invariant NodesIn(nodes, optionByNode)
        invariant NodeTurns(turns, nodes[..i]) && turns[0] == old(optionByNode) && turns[i] == optionByNode
        invariant Balanced(t0, old(optionByNode), optionByNode, nodes[..i], mem, limit)
      {
        ghost var before := optionByNode;
        var moved, f, c, ram := RebalanceNode(nodes[i]);
        StepRebalances(old(optionByNode), before, optionByNode, nodes[i], moved, f, c, ram);
        StepBalances(old(optionByNode), t0, before, optionByNode, nodes, i, moved, f, c, ram, mem, limit);
        MoreNodeTurns(turns, optionByNode, nodes, i, moved, f, c, ram);
        turns := turns + [optionByNode];
      }
      assert nodes[..|nodes|] == nodes;
    }

    /** Sorts every option's targets in place and lists the options that have any. */
    method Collect() returns (options: seq<PlacementOption>)
      requires IsTable(optionByNode)
      modifies this
      ensures SameViews(old(optionByNode), optionByNode) && Listing(optionByNode, options)
    {
      options := [];
      var todo := optionByNode.Keys;
      while todo != {}
        invariant todo <= optionByNode.Keys
        invariant SameViews(old(optionByNode), optionByNode)
        invariant ListedBut(optionByNode, todo, options)
      {
        var n :| n in todo;
        ghost var before := optionByNode;
        options := CollectNode(n, todo, options);
        SameViewsTwice(old(optionByNode), before, optionByNode);
        todo := todo - {n};
      }
      options := SortByNode(optionByNode, options);
    }

    method CollectNode(n: Name, ghost todo: set<Name>, options: seq<PlacementOption>)
      returns (more: seq<PlacementOption>)
      requires forall k | k in optionByNode ::
          optionByNode[k].targetNode.nodeId == k && Distinct(optionByNode[k].targetCounts)
      requires n in todo && todo <= optionByNode.Keys && ListedBut(optionByNode, todo, options)
      modifies this
      ensures SameViews(old(optionByNode), optionByNode) && ListedBut(optionByNode, todo - {n}, more)
    {
      more := options;
      var opt := optionByNode[n];
      if |opt.targetCounts| > 0 {
        var tcs := SortTargets(opt.targetCounts);
        SameElements(opt.targetCounts, tcs);
        CollectStep(optionByNode, todo, options, n, opt.(targetCounts := tcs));
        optionByNode := optionByNode[n := opt.(targetCounts := tcs)];
        more := options + [optionByNode[n]];
      } else {
        SkippedStep(optionByNode, todo, options, n);
      }
    }

    /** The planner: from what the nodes run and the wanted changes to one option per changed node. */
    method ComputeScaleStartStopInputs(nodes: seq<NodeStatus>, deltas: seq<ComponentDelta>,
                                       ghost mem: Name -> int, ghost limit: Name -> int)
      returns (options: seq<PlacementOption>, ghost tr: Trace)
      requires DistinctNodes(nodes) && DistinctDeltas(deltas)
      modifies this
      ensures IsTable(optionByNode) && SameNodes(FreshTable(nodes), optionByNode)
      ensures IsTrace(tr, nodes, deltas) && SameViews(tr.moves[|nodes|], optionByNode)
      ensures Scaled(FreshTable(nodes), optionByNode, deltas)
      ensures RisesFar(FreshTable(nodes), optionByNode, tr.ups, tr.ds)
      ensures Rebalanced(Filled(tr), optionByNode)
      ensures UniformNodes(nodes, mem) && Agree(deltas, mem, limit) ==>
                && Safe(FreshTable(nodes), optionByNode, mem, limit) && AllSettled(optionByNode, nodes, mem)
                && Safe(FreshTable(nodes), Filled(tr), mem, limit) && OnlyGives(Filled(tr), optionByNode)
                && Progress(FreshTable(nodes), Filled(tr), deltas)
                && Served(FreshTable(nodes), Filled(tr), optionByNode, deltas)
      ensures Listing(optionByNode, options)
    {
      StartFresh(nodes);
      var ds := SortDeltas(deltas);
      SameElements(deltas, ds);
      tr := ScaleAndRebalance(nodes, ds, deltas, mem, limit);
      ghost var t3 := optionByNode;
      options := Collect();
      SameViewsKeep(t3, optionByNode);
      if UniformNodes(nodes, mem) && Agree(deltas, mem, limit) {
        Collected(FreshTable(nodes), Filled(tr), t3, optionByNode, nodes, deltas, mem, limit);
      }
      PhasesScale(FreshTable(nodes), tr.ups[0], Filled(tr), optionByNode, ds, deltas);
      PhasesRise(FreshTable(nodes), tr.ups, optionByNode, ds);
    }

    /** One option without targets per node. */
    method StartFresh(nodes: seq<NodeStatus>)
      modifies this
      ensures optionByNode == FreshTable(nodes)
    {
      optionByNode := map[];
      for i := 0 to |nodes|
        invariant optionByNode == FreshTable(nodes[..i])
      {
        assert nodes[..i + 1][..i] == nodes[..i];
        optionByNode := optionByNode[nodes[i].nodeId := PlacementOption(nodes[i], [])];
      }
      assert nodes[..|nodes|] == nodes;
    }

    /** The three phases. */
    method ScaleAndRebalance(nodes: seq<NodeStatus>, ds: seq<ComponentDelta>, ghost deltas: seq<ComponentDelta>,
                             ghost mem: Name -> int, ghost limit: Name -> int)
      returns (ghost tr: Trace)
      requires DistinctNodes(nodes) && DistinctDeltas(ds) && InOrder(ds, deltas) && optionByNode == FreshTable(nodes)
      requires forall d :: d in ds <==> d in deltas
      modifies this
      ensures tr.ds == ds && IsTrace(tr, nodes, deltas) && tr.moves[|nodes|] == optionByNode
      ensures IsTable(Filled(tr)) && SameNodes(FreshTable(nodes), Filled(tr)) && Rebalanced(Filled(tr), optionByNode)
      ensures ScaledBy(FreshTable(nodes), tr.ups[0], ds, Negative) && ScaledBy(tr.ups[0], Filled(tr), ds, Positive)
      ensures UniformNodes(nodes, mem) && Agree(deltas, mem, limit) ==>
                && Safe(FreshTable(nodes), optionByNode, mem, limit) && AllSettled(optionByNode, nodes, mem)
                && Safe(FreshTable(nodes), Filled(tr), mem, limit) && OnlyGives(Filled(tr), optionByNode)
                && Progress(FreshTable(nodes), Filled(tr), deltas)
    {
      ghost var t0 := FreshTable(nodes);
      FreshTableKeys(nodes);
      assert forall c :: Untouched(optionByNode, c);
      if UniformNodes(nodes, mem) {
        FreshUniform(nodes, mem);
        FreshIsSafe(nodes, mem, limit);
      }
      ghost var downs := ScaleDown(ds, t0, mem, limit);
      ghost var t1 := optionByNode;
      ghost var ups := ScaleUp(ds, t0, mem, limit);
      ghost var filled := optionByNode;
      ghost var moves := Rebalance(nodes, t0, mem, limit);
      PhasesProgress(t0, t1, filled, ds, deltas);
      tr := Trace(ds, downs, ups, moves);
    }
  }
}

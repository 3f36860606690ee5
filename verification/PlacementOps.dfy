/** The operations on placement options, each proved against its meaning. */
module PlacementOps {
  import opened ClusterTypes
  import opened Sums
  import opened Sorting
  import opened Placement

  ghost predicate CountsRun(byComp: map<Name, int>, infos: seq<ComponentInfo>) {
    byComp.Keys == RunNames(infos) && forall c | c in byComp :: byComp[c] == RunCount(infos, c)
  }

  lemma OneMoreRunning(byComp: map<Name, int>, infos: seq<ComponentInfo>, ci: ComponentInfo)
    requires CountsRun(byComp, infos)
    ensures CountsRun(byComp[ci.componentName := Get(byComp, ci.componentName) + 1], infos + [ci])
  {
    assert (infos + [ci])[..|infos|] == infos;
    RunCountPositive(infos, ci.componentName);
  }

  method CountRunning(infos: seq<ComponentInfo>) returns (byComp: map<Name, int>, total: int)
    ensures CountsRun(byComp, infos) && total == SumMap(byComp)
  {
    byComp, total := map[], 0;
    for i := 0 to |infos|
      invariant CountsRun(byComp, infos[..i]) && total == SumMap(byComp)
    {
      var c := infos[i].componentName;
      assert infos[..i + 1] == infos[..i] + [infos[i]];
      OneMoreRunning(byComp, infos[..i], infos[i]);
      SumUpdate(byComp, c, Get(byComp, c) + 1);
      byComp := byComp[c := Get(byComp, c) + 1];
      total := total + 1;
    }
    assert infos[..|infos|] == infos;
  }

  method ContainerCountByComponent(p: PlacementOption) returns (byComp: map<Name, int>, total: int)
    ensures byComp == CountMap(p) && total == Total(p)
  {
    var infos := Running(p);
    byComp, total := CountRunning(infos);
    var tcs := p.targetCounts;
    for i := 0 to |tcs|
      invariant byComp == CountMap(p.(targetCounts := tcs[..i])) && total == SumMap(byComp)
    {
      var c := tcs[i].componentName;
      assert tcs[..i + 1] == tcs[..i] + [tcs[i]];
      OneMoreTarget(p, tcs[..i], tcs[i]);
      SumUpdate(byComp, c, tcs[i].targetCount);
      total := total - Get(byComp, c);
      byComp := byComp[c := tcs[i].targetCount];
      total := total + tcs[i].targetCount;
    }
    assert tcs[..|tcs|] == tcs;
    TotalIsSum(p);
  }

  /** The planned count of a component is its target, else the number of instances that run. */
  lemma CountMapIs(p: PlacementOption, c: Name)
    ensures Get(CountMap(p), c) == if c in Targets(p) then Targets(p)[c].targetCount else |PlacesOf(Running(p), c)|
  {
    RunCountIs(Running(p), c);
    if c !in Names(p) {
      CountOutside(p, c);
    }
  }

  lemma OneMoreTarget(p: PlacementOption, tcs: seq<ComponentTarget>, t: ComponentTarget)
    ensures CountMap(p.(targetCounts := tcs + [t]))
         == CountMap(p.(targetCounts := tcs))[t.componentName := t.targetCount]
  {
    assert (tcs + [t])[..|tcs|] == tcs;
  }

  method RamUsed(p: PlacementOption) returns (ramUsed: int)
    ensures ramUsed == Ram(p)
  {
    ramUsed := 0;
    var byComp: set<Name> := {};
    var tcs, infos := p.targetCounts, Running(p);
    for i := 0 to |tcs|
      invariant ramUsed == TargetRam(tcs[..i]) && byComp == TargetMap(tcs[..i]).Keys
    {
      assert tcs[..i + 1][..i] == tcs[..i];
      byComp := byComp + {tcs[i].componentName};
      ramUsed := ramUsed + tcs[i].targetCount * tcs[i].requiredMemoryMiB;
    }
    assert tcs[..|tcs|] == tcs;
    for i := 0 to |infos|
      invariant ramUsed == TargetRam(tcs) + RunRam(infos[..i], byComp)
    {
      assert infos[..i + 1][..i] == infos[..i];
      if infos[i].componentName !in byComp {
        ramUsed := ramUsed + infos[i].memoryReservedMiB;
      }
    }
    assert infos[..|infos|] == infos;
  }

  // ---------- reserve of one component ----------

  function MaxRunRam(infos: seq<ComponentInfo>, c: Name): int {
    if infos == [] then 0
    else
      var rest, ci := MaxRunRam(infos[..|infos| - 1], c), infos[|infos| - 1];
      if ci.componentName == c && ci.memoryReservedMiB > rest then ci.memoryReservedMiB else rest
  }

  function MaxTargetRam(tcs: seq<ComponentTarget>, c: Name, least: int): int {
    if tcs == [] then least
    else
      var rest, t := MaxTargetRam(tcs[..|tcs| - 1], c, least), tcs[|tcs| - 1];
      if t.componentName == c && t.requiredMemoryMiB > rest then t.requiredMemoryMiB else rest
  }

  /** The reserve assumed for component c: the largest one seen on the node, or 128. */
  function RamFor(p: PlacementOption, c: Name): int {
    var m := MaxTargetRam(p.targetCounts, c, MaxRunRam(Running(p), c));
    if m == 0 then 128 else m
  }

  /** Some running instance or target of c reserves m. */
  ghost predicate Reserved(p: PlacementOption, c: Name, m: int) {
    || (exists ci :: ci in Running(p) && ci.componentName == c && ci.memoryReservedMiB == m)
    || (exists t :: t in p.targetCounts && t.componentName == c && t.requiredMemoryMiB == m)
  }

  lemma {:induction false} MaxRunRamIs(infos: seq<ComponentInfo>, c: Name)
    ensures MaxRunRam(infos, c) >= 0
    ensures forall ci | ci in infos && ci.componentName == c :: ci.memoryReservedMiB <= MaxRunRam(infos, c)
    ensures MaxRunRam(infos, c) == 0
         || exists ci :: ci in infos && ci.componentName == c && ci.memoryReservedMiB == MaxRunRam(infos, c)
  {
    if infos != [] {
      var n := |infos| - 1;
      MaxRunRamIs(infos[..n], c);
      assert infos == infos[..n] + [infos[n]];
    }
  }

  lemma {:induction false} MaxTargetRamIs(tcs: seq<ComponentTarget>, c: Name, least: int)
    ensures MaxTargetRam(tcs, c, least) >= least
    ensures forall t | t in tcs && t.componentName == c :: t.requiredMemoryMiB <= MaxTargetRam(tcs, c, least)
    ensures MaxTargetRam(tcs, c, least) == least
         || exists t :: t in tcs && t.componentName == c && t.requiredMemoryMiB == MaxTargetRam(tcs, c, least)
  {
    if tcs != [] {
      var n := |tcs| - 1;
      MaxTargetRamIs(tcs[..n], c, least);
      assert tcs == tcs[..n] + [tcs[n]];
    }
  }

  /** The reserve found is the largest that is reserved, and 128 if none is positive. */
  lemma RamForIs(p: PlacementOption, c: Name)
    ensures forall m | Reserved(p, c, m) && m > 0 :: m <= RamFor(p, c)
    ensures (exists m :: m > 0 && Reserved(p, c, m)) ==> Reserved(p, c, RamFor(p, c))
    ensures (forall m | Reserved(p, c, m) :: m <= 0) ==> RamFor(p, c) == 128
  {
    var run := MaxRunRam(Running(p), c);
    MaxRunRamIs(Running(p), c);
    MaxTargetRamIs(p.targetCounts, c, run);
    var m := MaxTargetRam(p.targetCounts, c, run);
    assert m == 0 || Reserved(p, c, m);
  }

  method RamForComponent(p: PlacementOption, c: Name) returns (maxRam: int)
    ensures maxRam == RamFor(p, c)
  {
    maxRam := 0;
    var tcs, infos := p.targetCounts, Running(p);
    for i := 0 to |infos|
      invariant maxRam == MaxRunRam(infos[..i], c)
    {
      assert infos[..i + 1][..i] == infos[..i];
      if c == infos[i].componentName && infos[i].memoryReservedMiB > maxRam {
        maxRam := infos[i].memoryReservedMiB;
      }
    }
    assert infos[..|infos|] == infos;
    for i := 0 to |tcs|
      invariant maxRam == MaxTargetRam(tcs[..i], c, MaxRunRam(infos, c))
    {
      assert tcs[..i + 1][..i] == tcs[..i];
      if c == tcs[i].componentName && tcs[i].requiredMemoryMiB > maxRam {
        maxRam := tcs[i].requiredMemoryMiB;
      }
    }
    assert tcs[..|tcs|] == tcs;
    if maxRam == 0 {
      maxRam := 128;
    }
  }

  lemma {:induction false} MaxRunRamUniform(infos: seq<ComponentInfo>, c: Name, m: int)
    requires m >= 1 && forall ci | ci in infos :: ci.componentName == c ==> ci.memoryReservedMiB == m
    ensures MaxRunRam(infos, c) == if c in RunNames(infos) then m else 0
  {
    if infos != [] {
      var pre, ci := infos[..|infos| - 1], infos[|infos| - 1];
      MaxRunRamUniform(pre, c, m);
      assert infos == pre + [ci];
    }
  }

  lemma {:induction false} MaxTargetRamUniform(tcs: seq<ComponentTarget>, c: Name, m: int, least: int)
    requires 0 <= least <= m && 1 <= m
    requires forall t | t in tcs :: t.componentName == c ==> t.requiredMemoryMiB == m
    ensures MaxTargetRam(tcs, c, least) == if c in TargetMap(tcs) then m else least
  {
    if tcs != [] {
      MaxTargetRamUniform(tcs[..|tcs| - 1], c, m, least);
    }
  }

  /** Under uniform reserves the reserve found for a component on the node is its reserve. */
  lemma RamForUniform(p: PlacementOption, c: Name, mem: Name -> int)
    requires WellFormed(p) && Uniform(p, mem) && c in Names(p)
    ensures RamFor(p, c) == mem(c)
  {
    TargetMapKeys(p.targetCounts);
    MaxRunRamUniform(Running(p), c, mem(c));
    MaxTargetRamUniform(p.targetCounts, c, mem(c), MaxRunRam(Running(p), c));
  }

  // ---------- changing one target ----------

  function Planned(p: PlacementOption, c: Name, delta: int, requiredRam: int): ComponentTarget {
    ComponentTarget(c, requiredRam, Count(p, c) + delta)
  }

  function Clone(p: PlacementOption, c: Name, delta: int, requiredRam: int): PlacementOption {
    p.(targetCounts := Without(p.targetCounts, {c}) + [Planned(p, c, delta, requiredRam)])
  }

  /** q is p with the planned count of c changed by delta and every other target kept. */
  ghost predicate Adjusted(p: PlacementOption, q: PlacementOption, c: Name, delta: int, requiredRam: int) {
    && q.targetNode == p.targetNode
    && Distinct(q.targetCounts)
    && Targets(q) == Targets(p)[c := Planned(p, c, delta, requiredRam)]
  }

  method CloneWithTargetDelta(p: PlacementOption, c: Name, delta: int, requiredRam: int)
    returns (q: PlacementOption)
    ensures q == Clone(p, c, delta, requiredRam)
    ensures Distinct(p.targetCounts) ==> Adjusted(p, q, c, delta, requiredRam)
  {
    var currentCount := -1;
    var targetCounts: seq<ComponentTarget> := [];
    var tcs := p.targetCounts;
    for i := 0 to |tcs|
      invariant targetCounts == Without(tcs[..i], {c})
      invariant currentCount == if c in TargetMap(tcs[..i]) then TargetMap(tcs[..i])[c].targetCount else -1
    {
      assert tcs[..i + 1][..i] == tcs[..i];
      if tcs[i].componentName == c {
        currentCount := tcs[i].targetCount;
      } else {
        targetCounts := targetCounts + [tcs[i]];
      }
    }
    assert tcs[..|tcs|] == tcs;
    if currentCount < 0 {
      var byComp, _ := ContainerCountByComponent(p);
      currentCount := Get(byComp, c);
      if c !in byComp {
        CountOutside(p, c);
      }
    }
    q := p.(targetCounts := targetCounts + [ComponentTarget(c, requiredRam, currentCount + delta)]);
    CloneAdjusts(p, c, delta, requiredRam);
  }

  lemma CloneAdjusts(p: PlacementOption, c: Name, delta: int, requiredRam: int)
    ensures Distinct(p.targetCounts) ==> Adjusted(p, Clone(p, c, delta, requiredRam), c, delta, requiredRam)
  {
    var kept, t := Without(p.targetCounts, {c}), Planned(p, c, delta, requiredRam);
    WithoutMeaning(p.targetCounts, {c});
    assert (kept + [t])[..|kept|] == kept;
    assert (Targets(p) - {c})[c := t] == Targets(p)[c := t];
    if Distinct(p.targetCounts) {
      WithoutThenDistinct(p.targetCounts, t);
    }
  }

  lemma WithoutThenDistinct(tcs: seq<ComponentTarget>, t: ComponentTarget)
    requires Distinct(tcs)
    ensures Distinct(Without(tcs, {t.componentName}) + [t])
  {
    var kept := Without(tcs, {t.componentName});
    WithoutKeeps(tcs, {t.componentName});
    assert forall i | 0 <= i < |kept| :: kept[i] in kept;
  }

  /** Changing one target changes that component's count, the container total, and (under
      uniform reserves) the memory by exactly delta instances, and nothing else. */
  lemma AdjustedEffect(p: PlacementOption, q: PlacementOption, c: Name, delta: int, requiredRam: int)
    requires Adjusted(p, q, c, delta, requiredRam)
    ensures Count(q, c) == Count(p, c) + delta
    ensures forall k | k != c :: Count(q, k) == Count(p, k)
    ensures Total(q) == Total(p) + delta
    ensures WellFormed(p) && Count(p, c) + delta >= 0 ==> WellFormed(q)
  {
    AdjustedTotal(p, q, c, delta, requiredRam);
  }

  lemma AdjustedTotal(p: PlacementOption, q: PlacementOption, c: Name, delta: int, requiredRam: int)
    requires Adjusted(p, q, c, delta, requiredRam)
    ensures Total(q) == Total(p) + delta
  {
    AdjustedWeights(p, q, c, delta, requiredRam, One);
    assert delta * One(c) == delta;
    WeightedIsSum(p, One);
    WeightedIsSum(q, One);
  }

  lemma AdjustedRam(p: PlacementOption, q: PlacementOption, c: Name, delta: int, mem: Name -> int)
    requires WellFormed(p) && Uniform(p, mem) && Count(p, c) + delta >= 0
    requires Adjusted(p, q, c, delta, mem(c))
    ensures Uniform(q, mem) && Ram(q) == Ram(p) + delta * mem(c)
  {
    AdjustedEffect(p, q, c, delta, mem(c));
    AdjustedUniform(p, q, c, delta, mem);
    RamIsWeightedCount(p, mem);
    RamIsWeightedCount(q, mem);
    AdjustedWeights(p, q, c, delta, mem(c), mem);
  }

  lemma AdjustedUniform(p: PlacementOption, q: PlacementOption, c: Name, delta: int, mem: Name -> int)
    requires Uniform(p, mem) && Adjusted(p, q, c, delta, mem(c))
    ensures Uniform(q, mem)
  {
  }

  lemma AdjustedCounts(p: PlacementOption, q: PlacementOption, c: Name, delta: int, requiredRam: int)
    requires Adjusted(p, q, c, delta, requiredRam)
    ensures Names(q) == Names(p) + {c} && Count(q, c) == Count(p, c) + delta
    ensures forall k | k != c :: Count(q, k) == Count(p, k)
  {
  }

  lemma AdjustedWeights(p: PlacementOption, q: PlacementOption, c: Name, delta: int, requiredRam: int, w: Name -> int)
    requires Adjusted(p, q, c, delta, requiredRam)
    ensures SumMap(WeightMap(q, w)) == SumMap(WeightMap(p, w)) + delta * w(c)
  {
    AdjustedCounts(p, q, c, delta, requiredRam);
    WeightMapStep(p, q, c, w);
    Distribute(Count(p, c), delta, w(c));
  }

  lemma Distribute(k: int, delta: int, m: int)
    ensures (k + delta) * m == k * m + delta * m
  {
  }

  // ---------- merging ----------

  method MergeTargetCounts(a: seq<ComponentTarget>, b: seq<ComponentTarget>) returns (merged: seq<ComponentTarget>)
    ensures merged == b + Without(a, TargetMap(b).Keys)
    ensures TargetMap(merged) == TargetMap(a) + TargetMap(b)
    ensures Distinct(a) && Distinct(b) ==> Distinct(merged)
  {
    merged := [];
    var byComponentName: set<Name> := {};
    for i := 0 to |b|
      invariant merged == b[..i] && byComponentName == TargetMap(b[..i]).Keys
    {
      assert b[..i + 1][..i] == b[..i];
      byComponentName := byComponentName + {b[i].componentName};
      merged := merged + [b[i]];
    }
    assert b[..|b|] == b;
    for i := 0 to |a|
      invariant merged == b + Without(a[..i], byComponentName)
    {
      assert a[..i + 1][..i] == a[..i];
      if a[i].componentName !in byComponentName {
        merged := merged + [a[i]];
      }
    }
    assert a[..|a|] == a;
    MergeMeaning(a, b);
    if Distinct(a) && Distinct(b) {
      MergeDistinct(a, b);
    }
  }

  lemma MergeMeaning(a: seq<ComponentTarget>, b: seq<ComponentTarget>)
    ensures TargetMap(b + Without(a, TargetMap(b).Keys)) == TargetMap(a) + TargetMap(b)
  {
    WithoutMeaning(a, TargetMap(b).Keys);
    TargetMapAppend(b, Without(a, TargetMap(b).Keys));
  }

  lemma MergeDistinct(a: seq<ComponentTarget>, b: seq<ComponentTarget>)
    requires Distinct(a) && Distinct(b)
    ensures Distinct(b + Without(a, TargetMap(b).Keys))
  {
    WithoutKeeps(a, TargetMap(b).Keys);
    TargetMapKeys(b);
  }

  /** q is what the planner stores for p's node after one more step on component c: a target
      that c already has on the node absorbs the step, otherwise c gets a new target. */
  ghost predicate Merged(p: PlacementOption, q: PlacementOption, c: Name, delta: int, requiredRam: int) {
    if c in Targets(p) then
      q.targetNode == p.targetNode && Distinct(q.targetCounts) && Targets(q) == Targets(p)
    else
      Adjusted(p, q, c, delta, requiredRam)
  }

  method MergeOption(optionByNode: map<Name, PlacementOption>, toMerge: PlacementOption)
    returns (r: PlacementOption)
    ensures r.targetNode == toMerge.targetNode
    ensures var n := toMerge.targetNode.nodeId;
            if n in optionByNode then
              && Targets(r) == Targets(toMerge) + Targets(optionByNode[n])
              && (Distinct(toMerge.targetCounts) && Distinct(optionByNode[n].targetCounts)
                  ==> Distinct(r.targetCounts))
            else r == toMerge
  {
    r := toMerge;
    if toMerge.targetNode.nodeId in optionByNode {
      var tcs := MergeTargetCounts(toMerge.targetCounts, optionByNode[toMerge.targetNode.nodeId].targetCounts);
      r := toMerge.(targetCounts := tcs);
    }
  }

  /** The earlier target wins, so merging a step back into the node absorbs a repeated step. */
  lemma MergeAbsorbs(p: PlacementOption, step: PlacementOption, q: PlacementOption, c: Name, delta: int, ram: int)
    requires Adjusted(p, step, c, delta, ram)
    requires q.targetNode == p.targetNode && Distinct(q.targetCounts)
    requires Targets(q) == Targets(step) + Targets(p)
    ensures Merged(p, q, c, delta, ram)
  {
    if c in Targets(p) {
      assert Targets(step) + Targets(p) == Targets(p);
    } else {
      assert Targets(step) + Targets(p) == Targets(step);
    }
  }
}

/** Values exchanged between nodes: what runs where, and what should run where. */
module ClusterTypes {
  type Name = string

  datatype Option<+T> = None | Some(value: T)

  datatype Status = Starting | Active | Stopping

  datatype ComponentInfo = ComponentInfo(
    componentName: Name, status: Status, memoryReservedMiB: int,
    startTime: int, lastRequestTime: int, activity: seq<real>)

  datatype NodeStatus = NodeStatus(
    nodeId: Name, peerUrl: string, version: int, totalMemoryMiB: int, loadAvg1m: real,
    runningComponents: seq<ComponentInfo>)

  datatype ComponentTarget = ComponentTarget(
    componentName: Name, requiredMemoryMiB: int, targetCount: int)

  function RunCount(infos: seq<ComponentInfo>, c: Name): nat {
    if infos == [] then 0
    else RunCount(infos[..|infos| - 1], c) + if infos[|infos| - 1].componentName == c then 1 else 0
  }

  function RunNames(infos: seq<ComponentInfo>): set<Name> {
    set ci | ci in infos :: ci.componentName
  }

  /** The places of the instances of component c. */
  ghost function PlacesOf(infos: seq<ComponentInfo>, c: Name): set<int> {
    set i: int | 0 <= i < |infos| && infos[i].componentName == c
  }

  lemma {:induction false} RunCountIs(infos: seq<ComponentInfo>, c: Name)
    ensures RunCount(infos, c) == |PlacesOf(infos, c)|
  {
    if infos == [] {
      assert PlacesOf(infos, c) == {};
    } else {
      var n := |infos| - 1;
      RunCountIs(infos[..n], c);
      assert PlacesOf(infos, c) == PlacesOf(infos[..n], c) + if infos[n].componentName == c then {n} else {};
    }
  }

  lemma {:induction false} RunCountPositive(infos: seq<ComponentInfo>, c: Name)
    ensures RunCount(infos, c) > 0 <==> c in RunNames(infos)
  {
    if infos != [] {
      var n := |infos| - 1;
      RunCountPositive(infos[..n], c);
      assert infos == infos[..n] + [infos[n]];
      assert c in RunNames(infos) <==> c in RunNames(infos[..n]) || c == infos[n].componentName;
    }
  }
}

/** Placement options: what one node would run if its targets were applied. */
module Placement {
  import opened ClusterTypes
  import opened Sums
  import opened Sorting

  datatype PlacementOption = PlacementOption(targetNode: NodeStatus, targetCounts: seq<ComponentTarget>)

  /** The targets by component name; a later target replaces an earlier one. */
  function TargetMap(tcs: seq<ComponentTarget>): map<Name, ComponentTarget> {
    if tcs == [] then map[]
    else var t := tcs[|tcs| - 1]; TargetMap(tcs[..|tcs| - 1])[t.componentName := t]
  }

  function Running(p: PlacementOption): seq<ComponentInfo> { p.targetNode.runningComponents }

  function Targets(p: PlacementOption): map<Name, ComponentTarget> { TargetMap(p.targetCounts) }

  /** The number of containers of component c that option p plans for its node. */
  function Count(p: PlacementOption, c: Name): int {
    if c in Targets(p) then Targets(p)[c].targetCount else RunCount(Running(p), c)
  }

  function Names(p: PlacementOption): set<Name> {
    Targets(p).Keys + RunNames(Running(p))
  }

  function CountMap(p: PlacementOption): map<Name, int> {
    map c | c in Names(p) :: Count(p, c)
  }

  ghost predicate Distinct(tcs: seq<ComponentTarget>) {
    forall i, j | 0 <= i < j < |tcs| :: tcs[i].componentName != tcs[j].componentName
  }

  ghost predicate WellFormed(p: PlacementOption) {
    Distinct(p.targetCounts) && forall c | c in Targets(p) :: Targets(p)[c].targetCount >= 0
  }

  /** Every instance of a component reserves the same positive amount of memory. */
  ghost predicate Uniform(p: PlacementOption, mem: Name -> int) {
    && (forall c :: mem(c) >= 1)
    && (forall ci | ci in Running(p) :: ci.memoryReservedMiB == mem(ci.componentName))
    && (forall c | c in Targets(p) :: Targets(p)[c].requiredMemoryMiB == mem(c))
  }

  // ---------- target lists ----------

  lemma {:induction false} TargetMapKeys(tcs: seq<ComponentTarget>)
    ensures forall i | 0 <= i < |tcs| :: tcs[i].componentName in TargetMap(tcs)
    ensures forall c | c in TargetMap(tcs) :: TargetMap(tcs)[c].componentName == c && TargetMap(tcs)[c] in tcs
    ensures Distinct(tcs) ==> forall i | 0 <= i < |tcs| :: TargetMap(tcs)[tcs[i].componentName] == tcs[i]
  {
    if tcs != [] {
      var n := |tcs| - 1;
      TargetMapKeys(tcs[..n]);
    }
  }

  lemma {:induction false} TargetMapAppend(s: seq<ComponentTarget>, t: seq<ComponentTarget>)
    ensures TargetMap(s + t) == TargetMap(s) + TargetMap(t)
  {
    if t == [] {
      assert s + t == s;
    } else {
      var n := |t| - 1;
      assert (s + t)[..|s + t| - 1] == s + t[..n];
      TargetMapAppend(s, t[..n]);
    }
  }

  /** With distinct names the order of the targets does not matter. */
  lemma TargetMapPermuted(s: seq<ComponentTarget>, r: seq<ComponentTarget>)
    requires Distinct(s) && multiset(s) == multiset(r)
    ensures Distinct(r) && TargetMap(r) == TargetMap(s)
  {
    var key := (t: ComponentTarget) => t.componentName;
    assert DistinctBy(s, key);
    DistinctPermuted(s, r, key);
    assert forall i, j | 0 <= i < j < |r| :: key(r[i]) != key(r[j]);
    SameElements(s, r);
    TargetMapKeys(s);
    TargetMapKeys(r);
  }

  function Without(tcs: seq<ComponentTarget>, names: set<Name>): seq<ComponentTarget> {
    if tcs == [] then []
    else
      var n := |tcs| - 1;
      Without(tcs[..n], names) + if tcs[n].componentName in names then [] else [tcs[n]]
  }

  lemma LastTarget(m: map<Name, ComponentTarget>, w: seq<ComponentTarget>, names: set<Name>, t: ComponentTarget)
    requires TargetMap(w) == m - names
    ensures TargetMap(w + if t.componentName in names then [] else [t]) == m[t.componentName := t] - names
  {
    if t.componentName in names {
      assert w + [] == w;
      assert m[t.componentName := t] - names == m - names;
    } else {
      assert (w + [t])[..|w|] == w;
      assert m[t.componentName := t] - names == (m - names)[t.componentName := t];
    }
  }

  lemma {:induction false} WithoutMeaning(tcs: seq<ComponentTarget>, names: set<Name>)
    ensures TargetMap(Without(tcs, names)) == TargetMap(tcs) - names
  {
    if tcs != [] {
      var n := |tcs| - 1;
      WithoutMeaning(tcs[..n], names);
      LastTarget(TargetMap(tcs[..n]), Without(tcs[..n], names), names, tcs[n]);
    }
  }

  lemma {:induction false} WithoutKeeps(tcs: seq<ComponentTarget>, names: set<Name>)
    ensures forall t | t in Without(tcs, names) :: t in tcs && t.componentName !in names
    ensures Distinct(tcs) ==> Distinct(Without(tcs, names))
  {
    if tcs != [] {
      WithoutKeeps(tcs[..|tcs| - 1], names);
    }
  }

  // ---------- weighted totals ----------

  function WeightTargets(tcs: seq<ComponentTarget>, w: Name -> int): int {
    if tcs == [] then 0
    else
      var n := |tcs| - 1;
      var c := tcs[n].componentName;
      var before := TargetMap(tcs[..n]);
      WeightTargets(tcs[..n], w) + tcs[n].targetCount * w(c) - (if c in before then before[c].targetCount * w(c) else 0)
  }

  function WeightRun(infos: seq<ComponentInfo>, skip: set<Name>, w: Name -> int): int {
    if infos == [] then 0
    else
      var c := infos[|infos| - 1].componentName;
      WeightRun(infos[..|infos| - 1], skip, w) + if c in skip then 0 else w(c)
  }

  /** The planned containers of p, each counted with the weight of its component. */
  function Weighted(p: PlacementOption, w: Name -> int): int {
    WeightTargets(p.targetCounts, w) + WeightRun(Running(p), Targets(p).Keys, w)
  }

  ghost function WeightMap(p: PlacementOption, w: Name -> int): map<Name, int> {
    map c | c in Names(p) :: Count(p, c) * w(c)
  }

  function One(c: Name): int { 1 }

  /** The number of containers p plans for its node. */
  function Total(p: PlacementOption): int { Weighted(p, One) }

  lemma {:induction false} SkipOne(infos: seq<ComponentInfo>, skip: set<Name>, c: Name, w: Name -> int)
    ensures WeightRun(infos, skip + {c}, w)
         == WeightRun(infos, skip, w) - if c in skip then 0 else RunCount(infos, c) * w(c)
  {
    if infos != [] {
      SkipOne(infos[..|infos| - 1], skip, c, w);
    }
  }

  lemma CountOutside(p: PlacementOption, c: Name)
    requires c !in Names(p)
    ensures Count(p, c) == 0
  {
    RunCountPositive(Running(p), c);
  }

  /** Two options that differ in one component only. */
  lemma WeightMapStep(q: PlacementOption, p: PlacementOption, c: Name, w: Name -> int)
    requires Names(p) == Names(q) + {c}
    requires forall k | k != c :: Count(p, k) == Count(q, k)
    ensures SumMap(WeightMap(p, w)) == SumMap(WeightMap(q, w)) - Count(q, c) * w(c) + Count(p, c) * w(c)
  {
    assert WeightMap(p, w) == WeightMap(q, w)[c := Count(p, c) * w(c)];
    SumUpdate(WeightMap(q, w), c, Count(p, c) * w(c));
    if c !in Names(q) {
      CountOutside(q, c);
    }
  }

  ghost function RunMap(infos: seq<ComponentInfo>, w: Name -> int): map<Name, int> {
    map c | c in RunNames(infos) :: RunCount(infos, c) * w(c)
  }

  lemma RunMapStep(infos: seq<ComponentInfo>, ci: ComponentInfo, w: Name -> int)
    ensures var c := ci.componentName;
            RunMap(infos + [ci], w) == RunMap(infos, w)[c := RunCount(infos + [ci], c) * w(c)]
  {
    assert (infos + [ci])[..|infos|] == infos;
    assert forall c :: c in RunNames(infos + [ci]) <==> c in RunNames(infos) || c == ci.componentName;
  }

  lemma Successor(k: int, x: int)
    ensures (k + 1) * x == k * x + x
  {
  }

  lemma RunSumStep(pre: seq<ComponentInfo>, ci: ComponentInfo, w: Name -> int)
    ensures SumMap(RunMap(pre + [ci], w)) == SumMap(RunMap(pre, w)) + w(ci.componentName)
  {
    var c := ci.componentName;
    var k, x := RunCount(pre, c), w(c);
    assert RunCount(pre + [ci], c) == k + 1 by {
      assert (pre + [ci])[..|pre|] == pre;
    }
    RunMapStep(pre, ci, w);
    SumUpdate(RunMap(pre, w), c, (k + 1) * x);
    RunMapAt(pre, c, w);
    Successor(k, x);
  }

  lemma RunMapAt(infos: seq<ComponentInfo>, c: Name, w: Name -> int)
    ensures Get(RunMap(infos, w), c) == RunCount(infos, c) * w(c)
  {
    RunCountPositive(infos, c);
  }

  lemma {:induction false} RunWeightIsSum(infos: seq<ComponentInfo>, w: Name -> int)
    ensures WeightRun(infos, {}, w) == SumMap(RunMap(infos, w))
  {
    if infos != [] {
      var pre, ci := infos[..|infos| - 1], infos[|infos| - 1];
      RunWeightIsSum(pre, w);
      assert infos == pre + [ci];
      RunSumStep(pre, ci, w);
    }
  }

  /** A weighted total is the sum over components of count times weight. */
  lemma {:induction false} WeightedIsSum(p: PlacementOption, w: Name -> int)
    ensures Weighted(p, w) == SumMap(WeightMap(p, w))
    decreases |p.targetCounts|
  {
    if p.targetCounts == [] {
      RunWeightIsSum(Running(p), w);
      assert Targets(p).Keys == {} && Names(p) == RunNames(Running(p));
      assert WeightMap(p, w) == RunMap(Running(p), w);
    } else {
      var n := |p.targetCounts| - 1;
      var t := p.targetCounts[n];
      var c := t.componentName;
      var q := p.(targetCounts := p.targetCounts[..n]);
      WeightedIsSum(q, w);
      WeightMapStep(q, p, c, w);
      SkipOne(Running(p), Targets(q).Keys, c, w);
      assert Targets(p).Keys == Targets(q).Keys + {c};
    }
  }

  lemma TotalIsSum(p: PlacementOption)
    ensures Total(p) == SumMap(CountMap(p))
  {
    WeightedIsSum(p, One);
    assert WeightMap(p, One) == CountMap(p);
  }

  // ---------- memory ----------

  function TargetRam(tcs: seq<ComponentTarget>): int {
    if tcs == [] then 0
    else TargetRam(tcs[..|tcs| - 1]) + tcs[|tcs| - 1].targetCount * tcs[|tcs| - 1].requiredMemoryMiB
  }

  function RunRam(infos: seq<ComponentInfo>, skip: set<Name>): int {
    if infos == [] then 0
    else
      var ci := infos[|infos| - 1];
      RunRam(infos[..|infos| - 1], skip) + if ci.componentName in skip then 0 else ci.memoryReservedMiB
  }

  /** Memory reserved on the node of p once its targets are applied. */
  function Ram(p: PlacementOption): int {
    TargetRam(p.targetCounts) + RunRam(Running(p), Targets(p).Keys)
  }

  lemma {:induction false} RunRamUniform(infos: seq<ComponentInfo>, skip: set<Name>, mem: Name -> int)
    requires forall ci | ci in infos :: ci.memoryReservedMiB == mem(ci.componentName)
    ensures RunRam(infos, skip) == WeightRun(infos, skip, mem)
  {
    if infos != [] {
      RunRamUniform(infos[..|infos| - 1], skip, mem);
    }
  }

  lemma {:induction false} TargetRamUniform(tcs: seq<ComponentTarget>, mem: Name -> int)
    requires Distinct(tcs)
    requires forall t | t in tcs :: t.requiredMemoryMiB == mem(t.componentName)
    ensures TargetRam(tcs) == WeightTargets(tcs, mem)
  {
    if tcs != [] {
      var n := |tcs| - 1;
      TargetRamUniform(tcs[..n], mem);
      TargetMapKeys(tcs[..n]);
    }
  }

  /** With one positive reserve per component, memory used is the sum over components of
      count times reserve. */
  lemma RamIsWeightedCount(p: PlacementOption, mem: Name -> int)
    requires WellFormed(p) && Uniform(p, mem)
    ensures Ram(p) == SumMap(WeightMap(p, mem))
  {
    TargetMapKeys(p.targetCounts);
    RunRamUniform(Running(p), Targets(p).Keys, mem);
    TargetRamUniform(p.targetCounts, mem);
    WeightedIsSum(p, mem);
  }

  lemma CountNonNegative(p: PlacementOption)
    requires WellFormed(p)
    ensures forall c :: Count(p, c) >= 0
  {
  }

  lemma AllZeroIff(p: PlacementOption, w: Name -> int)
    requires WellFormed(p) && forall c :: w(c) >= 1
    ensures SumMap(WeightMap(p, w)) >= 0
    ensures SumMap(WeightMap(p, w)) == 0 <==> forall c :: Count(p, c) == 0
  {
    var m := WeightMap(p, w);
    forall c | c in m
      ensures m[c] >= Count(p, c) >= 0
    {
      assert Count(p, c) * w(c) >= Count(p, c);
    }
    SumBounds(m);
    forall c
      ensures SumMap(m) == 0 ==> Count(p, c) == 0
    {
      if c !in Names(p) {
        CountOutside(p, c);
      }
    }
    if forall c :: Count(p, c) == 0 {
      SumZero(m);
    }
  }

  /** More instances take more memory. */
  lemma RamGrows(p: PlacementOption, q: PlacementOption, mem: Name -> int)
    requires WellFormed(p) && Uniform(p, mem) && WellFormed(q) && Uniform(q, mem)
    requires forall c :: Count(p, c) <= Count(q, c)
    ensures Ram(p) <= Ram(q)
  {
    RamIsWeightedCount(p, mem);
    RamIsWeightedCount(q, mem);
    forall c ensures Get(WeightMap(p, mem), c) <= Get(WeightMap(q, mem), c) {
      WeightAt(p, c, mem);
      WeightAt(q, c, mem);
      TimesAtMost(Count(p, c), Count(q, c), mem(c));
    }
    SumAtMost(WeightMap(p, mem), WeightMap(q, mem));
  }

  lemma WeightAt(p: PlacementOption, c: Name, w: Name -> int)
    ensures Get(WeightMap(p, w), c) == Count(p, c) * w(c)
  {
    if c !in Names(p) {
      CountOutside(p, c);
    }
  }

  lemma TimesAtMost(a: int, b: int, w: int)
    requires a <= b && w >= 0
    ensures a * w <= b * w
  {
  }


  /** Under uniform positive reserves no memory is used exactly when nothing is planned. */
  lemma NoRamIffEmpty(p: PlacementOption, mem: Name -> int)
    requires WellFormed(p) && Uniform(p, mem)
    ensures Ram(p) >= 0 && Total(p) >= 0
    ensures Ram(p) == 0 <==> Total(p) == 0
    ensures Total(p) == 0 <==> forall c :: Count(p, c) == 0
  {
    RamIsWeightedCount(p, mem);
    WeightedIsSum(p, One);
    AllZeroIff(p, mem);
    AllZeroIff(p, One);
  }
}

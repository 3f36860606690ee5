/** Choosing the node that starts or stops an instance of a component. */
module BestOption {
  import opened ClusterTypes
  import opened Sums
  import opened Sorting
  import opened Placement
  import opened PlacementOps
  import opened Displacing

  /** The components that p scales below, respectively above, what its node runs now. */
  function Below(p: PlacementOption): set<Name> {
    set c | c in Targets(p) && Targets(p)[c].targetCount < RunCount(Running(p), c)
  }

  function Above(p: PlacementOption): set<Name> {
    set c | c in Targets(p) && Targets(p)[c].targetCount > RunCount(Running(p), c)
  }

  method ScaleUpDownCounts(p: PlacementOption) returns (scaleUp: nat, scaleDown: nat)
    requires Distinct(p.targetCounts)
    ensures scaleUp == |Above(p)| && scaleDown == |Below(p)|
    ensures scaleUp == |set c | c in Targets(p) && Targets(p)[c].targetCount > RunCount(Running(p), c)|
    ensures scaleDown == |set c | c in Targets(p) && Targets(p)[c].targetCount < RunCount(Running(p), c)|
  {
    var byComp: map<Name, int> := map[];
    var tcs, infos := p.targetCounts, Running(p);
    for i := 0 to |infos|
      invariant forall c :: Get(byComp, c) == RunCount(infos[..i], c)
    {
      assert infos[..i + 1][..i] == infos[..i];
      var c := infos[i].componentName;
      byComp := byComp[c := Get(byComp, c) + 1];
    }
    assert infos[..|infos|] == infos;
    scaleUp, scaleDown := 0, 0;
    for i := 0 to |tcs|
      invariant scaleUp == |Above(Prefix(p, i))| && scaleDown == |Below(Prefix(p, i))|
    {
      var c := tcs[i].componentName;
      BelowStep(p, i);
      AboveStep(p, i);
      if tcs[i].targetCount < Get(byComp, c) {
        scaleDown := scaleDown + 1;
      } else if tcs[i].targetCount > Get(byComp, c) {
        scaleUp := scaleUp + 1;
      }
    }
    assert tcs[..|tcs|] == tcs;
    assert Above(p) == set c | c in Targets(p) && Targets(p)[c].targetCount > RunCount(Running(p), c);
    assert Below(p) == set c | c in Targets(p) && Targets(p)[c].targetCount < RunCount(Running(p), c);
  }

  function Prefix(p: PlacementOption, i: nat): PlacementOption
    requires i <= |p.targetCounts|
  {
    p.(targetCounts := p.targetCounts[..i])
  }

  lemma PrefixStep(p: PlacementOption, i: nat)
    requires i < |p.targetCounts| && Distinct(p.targetCounts)
    ensures var t := p.targetCounts[i];
            Targets(Prefix(p, i + 1)) == Targets(Prefix(p, i))[t.componentName := t]
            && t.componentName !in Targets(Prefix(p, i))
  {
    assert p.targetCounts[..i + 1][..i] == p.targetCounts[..i];
    TargetMapKeys(p.targetCounts[..i]);
  }

  lemma BelowStep(p: PlacementOption, i: nat)
    requires i < |p.targetCounts| && Distinct(p.targetCounts)
    ensures var t := p.targetCounts[i];
            |Below(Prefix(p, i + 1))| == |Below(Prefix(p, i))|
              + if t.targetCount < RunCount(Running(p), t.componentName) then 1 else 0
  {
    var t := p.targetCounts[i];
    PrefixStep(p, i);
    if t.targetCount < RunCount(Running(p), t.componentName) {
      assert Below(Prefix(p, i + 1)) == Below(Prefix(p, i)) + {t.componentName};
    } else {
      assert Below(Prefix(p, i + 1)) == Below(Prefix(p, i));
    }
  }

  lemma AboveStep(p: PlacementOption, i: nat)
    requires i < |p.targetCounts| && Distinct(p.targetCounts)
    ensures var t := p.targetCounts[i];
            |Above(Prefix(p, i + 1))| == |Above(Prefix(p, i))|
              + if t.targetCount > RunCount(Running(p), t.componentName) then 1 else 0
  {
    var t := p.targetCounts[i];
    PrefixStep(p, i);
    if t.targetCount > RunCount(Running(p), t.componentName) {
      assert Above(Prefix(p, i + 1)) == Above(Prefix(p, i)) + {t.componentName};
    } else {
      assert Above(Prefix(p, i + 1)) == Above(Prefix(p, i));
    }
  }

  // ---------- cost order ----------

  /** The comparison that orders start and stop options of component c. */
  predicate CostLess(a: PlacementOption, b: PlacementOption, c: Name) {
    if Count(a, c) != Count(b, c) then Count(a, c) < Count(b, c)
    else if |Below(a)| != |Below(b)| then |Below(a)| < |Below(b)|
    else if Total(a) <= 1 && Total(b) > 1 then true
    else if Total(b) <= 1 && Total(a) > 1 then false
    else a.targetNode.loadAvg1m < b.targetNode.loadAvg1m
  }

  datatype Cost = Cost(instances: int, displaced: int, crowded: int, load: real)

  function CostOf(p: PlacementOption, c: Name): Cost {
    Cost(Count(p, c), |Below(p)|, if Total(p) <= 1 then 0 else 1, p.targetNode.loadAvg1m)
  }

  predicate LexLess(x: Cost, y: Cost) {
    || x.instances < y.instances
    || (x.instances == y.instances
        && (|| x.displaced < y.displaced
            || (x.displaced == y.displaced
                && (x.crowded < y.crowded || (x.crowded == y.crowded && x.load < y.load)))))
  }

  /** The comparison is lexicographic: fewest instances of c, then fewest displaced
      components, then nodes left with at most one container, then lowest load. */
  lemma CostIsLexicographic(a: PlacementOption, b: PlacementOption, c: Name)
    ensures CostLess(a, b, c) <==> LexLess(CostOf(a, c), CostOf(b, c))
    ensures Count(a, c) < Count(b, c) ==> CostLess(a, b, c)
    ensures Count(a, c) == Count(b, c) && |Below(a)| < |Below(b)| ==> CostLess(a, b, c)
    ensures Count(a, c) == Count(b, c) && |Below(a)| == |Below(b)| && Total(a) <= 1 < Total(b) ==> CostLess(a, b, c)
    ensures Count(a, c) == Count(b, c) && |Below(a)| == |Below(b)| && (Total(a) <= 1 <==> Total(b) <= 1) ==>
              (CostLess(a, b, c) <==> a.targetNode.loadAvg1m < b.targetNode.loadAvg1m)
    ensures CostLess(a, b, c) ==> !CostLess(b, a, c)
  {
  }

  lemma CostOrder(c: Name)
    ensures forall a, b :: CostLess(a, b, c) ==> !CostLess(b, a, c)
    ensures forall a, b, d {:trigger CostLess(a, b, c), CostLess(b, d, c)} ::
              !CostLess(a, b, c) && !CostLess(b, d, c) ==> !CostLess(a, d, c)
  {
    forall a, b
      ensures CostLess(a, b, c) ==> !CostLess(b, a, c)
    {
      CostIsLexicographic(a, b, c);
      CostIsLexicographic(b, a, c);
    }
    forall a, b, d | !CostLess(a, b, c) && !CostLess(b, d, c)
      ensures !CostLess(a, d, c)
    {
      CostIsLexicographic(a, b, c);
      CostIsLexicographic(b, d, c);
      CostIsLexicographic(a, d, c);
    }
  }

  method SortByCost(options: seq<PlacementOption>, c: Name) returns (sorted: seq<PlacementOption>)
    ensures multiset(sorted) == multiset(options)
    ensures forall i, j | 0 <= i < j < |sorted| :: !CostLess(sorted[j], sorted[i], c)
  {
    var less := (a: PlacementOption, b: PlacementOption) => CostLess(a, b, c);
    assert StrictWeakOrder(less) by {
      CostOrder(c);
    }
    sorted := Sort(options, less);
    assert SortedBy(sorted, less);
    forall i, j | 0 <= i < j < |sorted|
      ensures !CostLess(sorted[j], sorted[i], c)
    {
      assert !less(sorted[j], sorted[i]);
    }
  }

  method SortTargets(tcs: seq<ComponentTarget>) returns (sorted: seq<ComponentTarget>)
    ensures multiset(sorted) == multiset(tcs)
    ensures forall i, j | 0 <= i < j < |sorted| :: !StringLess(sorted[j].componentName, sorted[i].componentName)
    ensures Distinct(tcs) ==> Distinct(sorted) && TargetMap(sorted) == TargetMap(tcs)
  {
    var less := (a: ComponentTarget, b: ComponentTarget) => StringLess(a.componentName, b.componentName);
    assert StrictWeakOrder(less) by {
      StringOrder();
    }
    sorted := Sort(tcs, less);
    assert SortedBy(sorted, less);
    forall i, j | 0 <= i < j < |sorted|
      ensures !StringLess(sorted[j].componentName, sorted[i].componentName)
    {
      assert !less(sorted[j], sorted[i]);
    }
    if Distinct(tcs) {
      TargetMapPermuted(tcs, sorted);
    }
  }

  /** Options with the same node and the same target map mean the same. */
  lemma SameView(p: PlacementOption, q: PlacementOption)
    requires p.targetNode == q.targetNode && Targets(p) == Targets(q)
    ensures Total(p) == Total(q) && Below(p) == Below(q)
    ensures forall c :: Count(p, c) == Count(q, c)
  {
    TotalIsSum(p);
    TotalIsSum(q);
    assert CountMap(p) == CountMap(q);
  }

  lemma SameRam(p: PlacementOption, q: PlacementOption, mem: Name -> int)
    requires p.targetNode == q.targetNode && Targets(p) == Targets(q)
    requires WellFormed(p) && Distinct(q.targetCounts) && Uniform(p, mem)
    ensures Uniform(q, mem) && Ram(p) == Ram(q)
  {
    RamIsWeightedCount(p, mem);
    RamIsWeightedCount(q, mem);
    assert WeightMap(p, mem) == WeightMap(q, mem);
  }

  // ---------- stopping ----------

  /** Options are kept by node id, one per node. */
  ghost predicate IsTable(t: map<Name, PlacementOption>) {
    forall n | n in t :: t[n].targetNode.nodeId == n && WellFormed(t[n])
  }

  function StopClone(p: PlacementOption, c: Name): PlacementOption {
    Clone(p, c, -1, RamFor(p, c))
  }

  /** options holds the stop of c on every node in seen that plans an instance, and nothing else. */
  ghost predicate StopsListed(t: map<Name, PlacementOption>, seen: set<Name>, c: Name, options: seq<PlacementOption>) {
    && (forall n | n in seen && n in t && Count(t[n], c) > 0 :: StopClone(t[n], c) in options)
    && (forall o | o in options ::
          var n := o.targetNode.nodeId; n in t && Count(t[n], c) > 0 && o == StopClone(t[n], c))
  }

  method StopOption(p: PlacementOption, c: Name) returns (r: Option<PlacementOption>)
    ensures r == if Count(p, c) > 0 then Some(StopClone(p, c)) else None
  {
    var countByComp, _ := ContainerCountByComponent(p);
    if c !in countByComp {
      CountOutside(p, c);
    }
    r := None;
    if Get(countByComp, c) > 0 {
      var requiredRam := RamForComponent(p, c);
      var modified := CloneWithTargetDelta(p, c, -1, requiredRam);
      r := Some(modified);
    }
  }

  method BestStopComponentOption(t: map<Name, PlacementOption>, c: Name) returns (r: Option<PlacementOption>)
    requires IsTable(t)
    ensures r.None? <==> forall n | n in t :: Count(t[n], c) <= 0
    ensures r.Some? ==>
              var n := r.value.targetNode.nodeId;
              n in t && Count(t[n], c) > 0 && Adjusted(t[n], r.value, c, -1, RamFor(t[n], c))
    ensures r.Some? ==> forall n | n in t && Count(t[n], c) > 0 :: !CostLess(r.value, StopClone(t[n], c), c)
  {
    var options: seq<PlacementOption> := [];
    var todo := t.Keys;
    while todo != {}
      invariant todo <= t.Keys
      invariant StopsListed(t, t.Keys - todo, c, options)
    {
      var n :| n in todo;
      todo := todo - {n};
      var option := StopOption(t[n], c);
      options := options + if option.Some? then [option.value] else [];
    }
    if |options| > 0 {
      var sorted := SortByCost(options, c);
      r := Some(sorted[|sorted| - 1]);
      LastIsCostliest(t, c, options, sorted);
    } else {
      r := None;
    }
  }

  lemma LastIsCostliest(t: map<Name, PlacementOption>, c: Name, options: seq<PlacementOption>,
                        sorted: seq<PlacementOption>)
    requires IsTable(t) && StopsListed(t, t.Keys, c, options) && |sorted| > 0 && multiset(sorted) == multiset(options)
    requires forall i, j | 0 <= i < j < |sorted| :: !CostLess(sorted[j], sorted[i], c)
    ensures var last := sorted[|sorted| - 1];
            var n := last.targetNode.nodeId;
            && n in t && Count(t[n], c) > 0 && Adjusted(t[n], last, c, -1, RamFor(t[n], c))
            && forall n | n in t && Count(t[n], c) > 0 :: !CostLess(last, StopClone(t[n], c), c)
  {
    SameElements(options, sorted);
    var last := sorted[|sorted| - 1];
    assert last in sorted;
    var n := last.targetNode.nodeId;
    CloneAdjusts(t[n], c, -1, RamFor(t[n], c));
    CostOrder(c);
  }

  // ---------- starting ----------

  ghost predicate Eligible(p: PlacementOption, c: Name, requiredRam: int, maxInst: int) {
    && (maxInst <= 0 || Count(p, c) < maxInst)
    && p.targetNode.totalMemoryMiB >= requiredRam
  }

  ghost predicate Fits(p: PlacementOption, requiredRam: int) {
    p.targetNode.totalMemoryMiB - Ram(p) >= requiredRam
  }

  /** q is an acceptable way to start one more instance of c on p's node. */
  ghost predicate StartsOn(p: PlacementOption, q: PlacementOption, c: Name, requiredRam: int, maxInst: int,
                           displaceOK: bool, mem: Name -> int) {
    && q.targetNode == p.targetNode && Distinct(q.targetCounts)
    && Eligible(p, c, requiredRam, maxInst)
    && Count(q, c) == Count(p, c) + 1
    && (forall k | k != c :: Count(q, k) <= Count(p, k))
    && (WellFormed(p) && Count(p, c) >= 0 ==> WellFormed(q))
    && (Fits(p, requiredRam) ==> Adjusted(p, q, c, 1, requiredRam))
    && (!displaceOK ==> Fits(p, requiredRam))
    && (!Fits(p, requiredRam) ==> RoomMade(p, q, c, requiredRam))
    && (WellFormed(p) && Uniform(p, mem) && mem(c) == requiredRam ==>
          Uniform(q, mem) && Ram(q) <= q.targetNode.totalMemoryMiB)
  }

  method StartOption(p: PlacementOption, c: Name, requiredRam: int, maxInst: int, displaceOK: bool,
                     ghost mem: Name -> int)
    returns (r: Option<PlacementOption>)
    requires WellFormed(p)
    ensures r.Some? ==> StartsOn(p, r.value, c, requiredRam, maxInst, displaceOK, mem)
    ensures Eligible(p, c, requiredRam, maxInst) && Fits(p, requiredRam) ==> r == Some(Clone(p, c, 1, requiredRam))
    ensures displaceOK && Eligible(p, c, requiredRam, maxInst) && CanFree(p, c, requiredRam) ==> r.Some?
  {
    r := None;
    var ram := RamUsed(p);
    var countByComp, _ := ContainerCountByComponent(p);
    var memoryAvailable, q := p.targetNode.totalMemoryMiB - ram, p;
    if c !in countByComp {
      CountOutside(p, c);
    }
    var underPerNodeLimit := maxInst <= 0 || Get(countByComp, c) < maxInst;
    if underPerNodeLimit && p.targetNode.totalMemoryMiB >= requiredRam {
      if memoryAvailable < requiredRam && displaceOK {
        q, memoryAvailable := Displace(p, c, requiredRam, mem);
      }
      if memoryAvailable >= requiredRam {
        var modified := CloneWithTargetDelta(q, c, 1, requiredRam);
        StartedOn(p, q, modified, c, requiredRam, maxInst, displaceOK, memoryAvailable, mem);
        r := Some(modified);
      }
    }
  }

  lemma StartedOn(p: PlacementOption, q: PlacementOption, r: PlacementOption, c: Name, requiredRam: int, maxInst: int,
                  displaceOK: bool, avail: int, mem: Name -> int)
    requires WellFormed(p) && Eligible(p, c, requiredRam, maxInst) && avail >= requiredRam
    requires Adjusted(q, r, c, 1, requiredRam)
    requires if Fits(p, requiredRam) then q == p && avail == p.targetNode.totalMemoryMiB - Ram(p)
             else displaceOK && MadeRoom(p, q, c, avail, mem) && RoomReady(p, q, c, requiredRam)
    ensures StartsOn(p, r, c, requiredRam, maxInst, displaceOK, mem)
  {
    assert MadeRoom(p, q, c, avail, mem);
    AdjustedEffect(q, r, c, 1, requiredRam);
    StartEffect(p, q, r, c, requiredRam, avail, mem);
  }

  lemma StartEffect(p: PlacementOption, q: PlacementOption, r: PlacementOption, c: Name, requiredRam: int,
                    avail: int, mem: Name -> int)
    requires WellFormed(p) && MadeRoom(p, q, c, avail, mem) && avail >= requiredRam
    requires Adjusted(q, r, c, 1, requiredRam)
    ensures Count(r, c) == Count(p, c) + 1 && forall k | k != c :: Count(r, k) <= Count(p, k)
    ensures WellFormed(r)
    ensures Uniform(p, mem) && mem(c) == requiredRam ==> Uniform(r, mem) && Ram(r) <= r.targetNode.totalMemoryMiB
  {
    AdjustedEffect(q, r, c, 1, requiredRam);
    if Uniform(p, mem) && mem(c) == requiredRam {
      AdjustedRam(q, r, c, 1, mem);
    }
  }

  /** The request of one start: component, memory, per-node limit, and whether others may be stopped. */
  datatype Request = Request(c: Name, requiredRam: int, maxInst: int, displaceOK: bool)

  ghost predicate Acceptable(t: map<Name, PlacementOption>, q: PlacementOption, req: Request, mem: Name -> int) {
    var n := q.targetNode.nodeId;
    n in t && StartsOn(t[n], q, req.c, req.requiredRam, req.maxInst, req.displaceOK, mem)
  }

  /** Node n has room for the request as it is. */
  ghost predicate HasRoom(p: PlacementOption, req: Request) {
    Eligible(p, req.c, req.requiredRam, req.maxInst) && Fits(p, req.requiredRam)
  }

  /** Stopping what may be stopped on node n for the request frees enough. */
  ghost predicate CanMakeRoom(p: PlacementOption, req: Request) {
    && req.displaceOK && Eligible(p, req.c, req.requiredRam, req.maxInst)
    && CanFree(p, req.c, req.requiredRam)
  }

  /** options holds acceptable options only, and covers every suitable node in seen. */
  ghost predicate Compared(t: map<Name, PlacementOption>, seen: set<Name>, options: seq<PlacementOption>,
                           req: Request, mem: Name -> int) {
    && (forall q | q in options :: Acceptable(t, q, req, mem))
    && (forall n | n in seen && n in t && HasRoom(t[n], req) :: Clone(t[n], req.c, 1, req.requiredRam) in options)
    && (forall n | n in seen && n in t && CanMakeRoom(t[n], req) ::
          exists q | q in options :: q.targetNode == t[n].targetNode)
  }

  lemma ComparedStep(t: map<Name, PlacementOption>, seen: set<Name>, options: seq<PlacementOption>,
                     req: Request, mem: Name -> int, n: Name, option: Option<PlacementOption>)
    requires IsTable(t) && n in t && Compared(t, seen, options, req, mem)
    requires option.Some? ==> StartsOn(t[n], option.value, req.c, req.requiredRam, req.maxInst, req.displaceOK, mem)
    requires HasRoom(t[n], req) ==> option == Some(Clone(t[n], req.c, 1, req.requiredRam))
    requires CanMakeRoom(t[n], req) ==> option.Some?
    ensures Compared(t, seen + {n}, options + (if option.Some? then [option.value] else []), req, mem)
  {
    var more := options + if option.Some? then [option.value] else [];
    assert forall q :: q in more <==> q in options || (option.Some? && q == option.value);
    forall m | m in seen + {n} && m in t && CanMakeRoom(t[m], req)
      ensures exists q | q in more :: q.targetNode == t[m].targetNode
    {
      if m in seen {
        var q :| q in options && q.targetNode == t[m].targetNode;
        assert q in more;
      } else {
        assert option.value in more;
      }
    }
  }

  /** No node has targets yet, and none runs c. */
  ghost predicate RunsNowhere(t: map<Name, PlacementOption>, c: Name) {
    forall n | n in t :: Fresh(t[n]) && RunCount(Running(t[n]), c) == 0
  }

  /** r plans no fewer instances of anything than its node runs. */
  ghost predicate StopsNothing(r: PlacementOption) {
    forall k :: Count(r, k) >= RunCount(Running(r), k)
  }

  /** Finds the node to start a component on. The ghost result lists the options compared. */
  method BestStartComponentOption(t: map<Name, PlacementOption>, req: Request, ghost mem: Name -> int)
    returns (r: Option<PlacementOption>, ghost considered: seq<PlacementOption>)
    requires IsTable(t)
    ensures r.None? <==> considered == []
    ensures Compared(t, t.Keys, considered, req, mem)
    ensures r.Some? ==> Acceptable(t, r.value, req, mem)
    ensures r.Some? ==> forall q | q in considered :: !CostLess(q, r.value, req.c)
    ensures !req.displaceOK ==> (r.Some? <==> exists n :: n in t && HasRoom(t[n], req))
    ensures req.displaceOK && (exists n :: n in t && (HasRoom(t[n], req) || CanMakeRoom(t[n], req))) ==> r.Some?
    ensures r.Some? && RunsNowhere(t, req.c) && (exists n :: n in t && HasRoom(t[n], req)) ==> StopsNothing(r.value)
  {
    var options: seq<PlacementOption> := [];
    var todo := t.Keys;
    while todo != {}
      invariant todo <= t.Keys
      invariant Compared(t, t.Keys - todo, options, req, mem)
    {
      var n :| n in todo;
      var option := StartOption(t[n], req.c, req.requiredRam, req.maxInst, req.displaceOK, mem);
      ComparedStep(t, t.Keys - todo, options, req, mem, n, option);
      assert t.Keys - todo + {n} == t.Keys - (todo - {n});
      todo := todo - {n};
      options := options + if option.Some? then [option.value] else [];
    }
    considered := options;
    assert t.Keys - {} == t.Keys;
    if |options| > 0 {
      var best := Cheapest(t, options, req, mem);
      r := Some(best);
    } else {
      r := None;
    }
    BestIsFound(t, considered, r, req, mem);
  }

  /** What it means that none, or a cheapest acceptable one, of the options compared was chosen. */
  lemma BestIsFound(t: map<Name, PlacementOption>, considered: seq<PlacementOption>, r: Option<PlacementOption>,
                    req: Request, mem: Name -> int)
    requires IsTable(t) && Compared(t, t.Keys, considered, req, mem) && (r.None? <==> considered == [])
    requires r.Some? ==> Acceptable(t, r.value, req, mem) && forall q | q in considered :: !CostLess(q, r.value, req.c)
    ensures !req.displaceOK ==> (r.Some? <==> exists n :: n in t && HasRoom(t[n], req))
    ensures req.displaceOK && (exists n :: n in t && (HasRoom(t[n], req) || CanMakeRoom(t[n], req))) ==> r.Some?
    ensures r.Some? && RunsNowhere(t, req.c) && (exists n :: n in t && HasRoom(t[n], req)) ==> StopsNothing(r.value)
  {
    if r.Some? && !req.displaceOK {
      assert HasRoom(t[r.value.targetNode.nodeId], req);
    }
    if n :| r.Some? && n in t && HasRoom(t[n], req) && RunsNowhere(t, req.c) {
      PlacementFrugal(t, considered, r.value, req, mem, n);
    }
  }

  method Cheapest(ghost t: map<Name, PlacementOption>, options: seq<PlacementOption>, req: Request,
                  ghost mem: Name -> int)
    returns (r: PlacementOption)
    requires IsTable(t) && |options| > 0
    requires forall q | q in options :: Acceptable(t, q, req, mem)
    ensures Acceptable(t, r, req, mem)
    ensures forall q | q in options :: !CostLess(q, r, req.c)
  {
    var sorted := SortByCost(options, req.c);
    SameElements(options, sorted);
    var best := sorted[0];
    assert best in options;
    var tcs := SortTargets(best.targetCounts);
    r := best.(targetCounts := tcs);
    SortedWinner(t[best.targetNode.nodeId], best, r, req.c, req.requiredRam, req.maxInst, req.displaceOK, mem);
    SameView(best, r);
    forall q | q in options
      ensures !CostLess(q, r, req.c)
    {
      var i :| 0 <= i < |sorted| && sorted[i] == q;
      CostOrder(req.c);
      assert !CostLess(q, best, req.c);
    }
  }

  lemma SortedWinner(p: PlacementOption, q: PlacementOption, r: PlacementOption, c: Name, requiredRam: int,
                     maxInst: int, displaceOK: bool, mem: Name -> int)
    requires WellFormed(p) && StartsOn(p, q, c, requiredRam, maxInst, displaceOK, mem)
    requires r.targetNode == q.targetNode && Distinct(r.targetCounts) && Targets(r) == Targets(q)
    ensures StartsOn(p, r, c, requiredRam, maxInst, displaceOK, mem)
  {
    SameView(q, r);
    CountNonNegative(p);
    if Uniform(p, mem) && mem(c) == requiredRam {
      SameRam(q, r, mem);
    }
  }

  // ---------- placing a component on idle tables ----------

  /** On a fresh table, displacement always finds an option when some node is large enough and
      does not run the component yet. */
  lemma PlacementComplete(t: map<Name, PlacementOption>, considered: seq<PlacementOption>, req: Request,
                          mem: Name -> int, n: Name)
    requires IsTable(t) && Compared(t, t.Keys, considered, req, mem)
    requires req.displaceOK && n in t && Fresh(t[n]) && RunCount(Running(t[n]), req.c) == 0
    requires t[n].targetNode.totalMemoryMiB >= req.requiredRam
    ensures considered != []
  {
    assert Targets(t[n]) == map[];
    FreshCanFree(t[n], req.c, req.requiredRam);
    assert CanMakeRoom(t[n], req);
  }

  /** If the component runs nowhere and some node has room for it, the cheapest option stops
      no instance of anything. */
  lemma PlacementFrugal(t: map<Name, PlacementOption>, considered: seq<PlacementOption>, r: PlacementOption,
                        req: Request, mem: Name -> int, n: Name)
    requires IsTable(t) && Compared(t, t.Keys, considered, req, mem) && Acceptable(t, r, req, mem)
    requires forall q | q in considered :: !CostLess(q, r, req.c)
    requires RunsNowhere(t, req.c) && n in t && HasRoom(t[n], req)
    ensures StopsNothing(r)
  {
    var q := Clone(t[n], req.c, 1, req.requiredRam);
    OneMoreStopsNothing(t[n], req.c, req.requiredRam);
    assert !CostLess(q, r, req.c);
    assert |Below(r)| == 0;
    NothingBelow(r);
  }

  lemma OneMoreStopsNothing(p: PlacementOption, c: Name, requiredRam: int)
    requires Fresh(p)
    ensures Below(Clone(p, c, 1, requiredRam)) == {} && Count(Clone(p, c, 1, requiredRam), c) == Count(p, c) + 1
  {
    CloneAdjusts(p, c, 1, requiredRam);
    assert Targets(p) == map[];
  }

  lemma NothingBelow(r: PlacementOption)
    requires |Below(r)| == 0
    ensures StopsNothing(r)
  {
    assert Below(r) == {};
    forall k ensures Count(r, k) >= RunCount(Running(r), k) {
      assert k !in Below(r);
    }
  }
}

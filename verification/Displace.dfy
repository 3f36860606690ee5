/** Stopping instances on a node to make room for a component. */
module Displacing {
  import opened ClusterTypes
  import opened Sums
  import opened Sorting
  import opened Placement
  import opened PlacementOps

  lemma {:induction false} RunCountPrefix(infos: seq<ComponentInfo>, i: nat, c: Name)
    requires i <= |infos|
    ensures RunCount(infos[..i], c) <= RunCount(infos, c)
  {
    if i < |infos| {
      assert infos[..|infos| - 1][..i] == infos[..i];
      RunCountPrefix(infos[..|infos| - 1], i, c);
    } else {
      assert infos[..i] == infos;
    }
  }

  lemma RunCountAppend(s: seq<ComponentInfo>, ci: ComponentInfo)
    ensures forall k :: RunCount(s + [ci], k) == RunCount(s, k) + if ci.componentName == k then 1 else 0
  {
    assert (s + [ci])[..|s|] == s;
  }

  lemma {:induction false} RunCountIsSum(s: seq<ComponentInfo>, c: Name, f: ComponentInfo -> int)
    requires forall ci :: f(ci) == if ci.componentName == c then 1 else 0
    ensures RunCount(s, c) == SumBy(s, f)
  {
    if s != [] {
      RunCountIsSum(s[..|s| - 1], c, f);
    }
  }

  lemma {:induction false} RunRamIsSum(s: seq<ComponentInfo>, f: ComponentInfo -> int)
    requires forall ci :: f(ci) == ci.memoryReservedMiB
    ensures RunRam(s, {}) == SumBy(s, f)
  {
    if s != [] {
      RunRamIsSum(s[..|s| - 1], f);
    }
  }

  lemma RunPermuted(s: seq<ComponentInfo>, r: seq<ComponentInfo>)
    requires multiset(s) == multiset(r)
    ensures RunRam(s, {}) == RunRam(r, {})
    ensures forall c :: RunCount(s, c) == RunCount(r, c)
  {
    var g := (ci: ComponentInfo) => ci.memoryReservedMiB;
    RunRamIsSum(s, g);
    RunRamIsSum(r, g);
    SumByPermuted(s, r, g);
    forall c
      ensures RunCount(s, c) == RunCount(r, c)
    {
      var f := (ci: ComponentInfo) => if ci.componentName == c then 1 else 0;
      RunCountIsSum(s, c, f);
      RunCountIsSum(r, c, f);
      SumByPermuted(s, r, f);
    }
  }

  ghost predicate Fresh(p: PlacementOption) { p.targetCounts == [] }

  /** The running instances that may be stopped to make room for c: for every other component
      no more of them than are planned to stay. */
  ghost predicate Displaceable(p: PlacementOption, c: Name, list: seq<ComponentInfo>) {
    && RunCount(list, c) == 0
    && (forall k :: RunCount(list, k) > 0 ==> RunCount(list, k) <= Count(p, k))
    && (forall ci | ci in list :: ci in Running(p))
    && (Fresh(p) && RunCount(Running(p), c) == 0 ==> list == Running(p))
  }

  /** Instance i of the node may be stopped for c: it belongs to another component, fewer instances
      of which stand before it than are planned to stay. */
  ghost predicate MayStop(p: PlacementOption, c: Name, i: int)
    requires 0 <= i < |Running(p)|
  {
    var k := Running(p)[i].componentName;
    k != c && RunCount(Running(p)[..i], k) < Count(p, k)
  }

  /** list holds, in order, those of the first n instances that may be stopped; at tells their places. */
  ghost predicate Stoppable(p: PlacementOption, c: Name, list: seq<ComponentInfo>, at: seq<int>, n: int)
    requires n <= |Running(p)|
  {
    && |list| == |at| && (forall j, k | 0 <= j < k < |at| :: at[j] < at[k])
    && (forall k | 0 <= k < |at| :: 0 <= at[k] < n && MayStop(p, c, at[k]) && list[k] == Running(p)[at[k]])
    && (forall i | 0 <= i < n && MayStop(p, c, i) :: i in at)
  }

  /** Of every component listed so far there are as many as were met, or as many as are planned. */
  ghost predicate ListedAll(p: PlacementOption, c: Name, i: nat, list: seq<ComponentInfo>)
    requires i <= |Running(p)|
  {
    forall k | k != c :: RunCount(list, k) < Count(p, k) ==> RunCount(list, k) == RunCount(Running(p)[..i], k)
  }

  ghost predicate NeverMore(p: PlacementOption, i: nat, list: seq<ComponentInfo>)
    requires i <= |Running(p)|
  {
    forall k :: RunCount(list, k) <= RunCount(Running(p)[..i], k)
  }

  lemma ListedMore(p: PlacementOption, c: Name, i: nat, list: seq<ComponentInfo>, at: seq<int>, taken: bool)
    requires i < |Running(p)| && Stoppable(p, c, list, at, i) && ListedAll(p, c, i, list) && NeverMore(p, i, list)
    requires var k := Running(p)[i].componentName; taken <==> k != c && RunCount(list, k) < Count(p, k)
    ensures var list' := if taken then list + [Running(p)[i]] else list;
            && Stoppable(p, c, list', if taken then at + [i] else at, i + 1)
            && ListedAll(p, c, i + 1, list') && NeverMore(p, i + 1, list')
  {
    assert MayStop(p, c, i) <==> taken;
    StoppableMore(p, c, list, at, i);
    CountsMore(p, c, i, list, taken);
  }

  lemma CountsMore(p: PlacementOption, c: Name, i: nat, list: seq<ComponentInfo>, taken: bool)
    requires i < |Running(p)| && ListedAll(p, c, i, list) && NeverMore(p, i, list)
    requires var k := Running(p)[i].componentName; taken <==> k != c && RunCount(list, k) < Count(p, k)
    ensures var list' := if taken then list + [Running(p)[i]] else list;
            ListedAll(p, c, i + 1, list') && NeverMore(p, i + 1, list')
  {
    var ci := Running(p)[i];
    var list' := if taken then list + [ci] else list;
    RunCountAppend(list, ci);
    RunCountAppend(Running(p)[..i], ci);
    assert Running(p)[..i + 1] == Running(p)[..i] + [ci];
    forall k
      ensures RunCount(list', k) == RunCount(list, k) + if taken && ci.componentName == k then 1 else 0
      ensures RunCount(Running(p)[..i + 1], k) == RunCount(Running(p)[..i], k) + if ci.componentName == k then 1 else 0
    {
    }
  }

  lemma StoppableMore(p: PlacementOption, c: Name, list: seq<ComponentInfo>, at: seq<int>, i: nat)
    requires i < |Running(p)| && Stoppable(p, c, list, at, i)
    ensures if MayStop(p, c, i) then Stoppable(p, c, list + [Running(p)[i]], at + [i], i + 1)
            else Stoppable(p, c, list, at, i + 1)
  {
  }

  /** The loop of ListDisplaceable has looked at i instances. */
  ghost predicate Listed(p: PlacementOption, c: Name, i: nat, list: seq<ComponentInfo>, countByComp: map<Name, int>) {
    && i <= |Running(p)|
    && (forall k :: RunCount(list, k) + Get(countByComp, k) == Count(p, k))
    && (forall k :: RunCount(list, k) > 0 ==> Get(countByComp, k) >= 0)
    && RunCount(list, c) == 0
    && (forall ci | ci in list :: ci in Running(p))
    && (Fresh(p) && RunCount(Running(p), c) == 0 ==> list == Running(p)[..i])
  }

  lemma ListedStep(p: PlacementOption, c: Name, i: nat, list: seq<ComponentInfo>, countByComp: map<Name, int>)
    requires i < |Running(p)| && Listed(p, c, i, list, countByComp)
    ensures var ci := Running(p)[i];
            var k := ci.componentName;
            if Get(countByComp, k) > 0 && k != c
            then Listed(p, c, i + 1, list + [ci], countByComp[k := Get(countByComp, k) - 1])
            else Listed(p, c, i + 1, list, countByComp)
  {
    var k := Running(p)[i].componentName;
    if Get(countByComp, k) > 0 && k != c {
      ListedTaken(p, c, i, list, countByComp);
    } else {
      ListedSkipped(p, c, i, list, countByComp);
    }
  }

  lemma ListedTaken(p: PlacementOption, c: Name, i: nat, list: seq<ComponentInfo>, countByComp: map<Name, int>)
    requires i < |Running(p)| && Listed(p, c, i, list, countByComp)
    requires Running(p)[i].componentName != c && Get(countByComp, Running(p)[i].componentName) > 0
    ensures var ci := Running(p)[i];
            Listed(p, c, i + 1, list + [ci], countByComp[ci.componentName := Get(countByComp, ci.componentName) - 1])
  {
    var infos := Running(p);
    RunCountAppend(list, infos[i]);
    TakenCounts(p, list, infos[i], countByComp);
    assert infos[..i + 1] == infos[..i] + [infos[i]];
    assert forall ci :: ci in list + [infos[i]] <==> ci in list || ci == infos[i];
  }

  lemma TakenCounts(p: PlacementOption, list: seq<ComponentInfo>, ci: ComponentInfo, countByComp: map<Name, int>)
    requires forall k :: RunCount(list, k) + Get(countByComp, k) == Count(p, k)
    requires forall k :: RunCount(list, k) > 0 ==> Get(countByComp, k) >= 0
    requires Get(countByComp, ci.componentName) > 0
    ensures var left := countByComp[ci.componentName := Get(countByComp, ci.componentName) - 1];
            && (forall k :: RunCount(list + [ci], k) + Get(left, k) == Count(p, k))
            && (forall k :: RunCount(list + [ci], k) > 0 ==> Get(left, k) >= 0)
  {
    RunCountAppend(list, ci);
  }

  /** On a fresh node that does not run c nothing is skipped. */
  lemma ListedSkipped(p: PlacementOption, c: Name, i: nat, list: seq<ComponentInfo>, countByComp: map<Name, int>)
    requires i < |Running(p)| && Listed(p, c, i, list, countByComp)
    requires Running(p)[i].componentName == c || Get(countByComp, Running(p)[i].componentName) <= 0
    ensures !(Fresh(p) && RunCount(Running(p), c) == 0) && Listed(p, c, i + 1, list, countByComp)
  {
    StillRunning(Running(p), i);
  }

  ghost predicate ListedSoFar(p: PlacementOption, c: Name, i: nat, list: seq<ComponentInfo>, at: seq<int>,
                              countByComp: map<Name, int>) {
    && Listed(p, c, i, list, countByComp)
    && Stoppable(p, c, list, at, i) && ListedAll(p, c, i, list) && NeverMore(p, i, list)
  }

  lemma ListedSoFarStep(p: PlacementOption, c: Name, i: nat, list: seq<ComponentInfo>, at: seq<int>,
                        countByComp: map<Name, int>)
    requires i < |Running(p)| && ListedSoFar(p, c, i, list, at, countByComp)
    ensures var ci := Running(p)[i];
            var k := ci.componentName;
            if Get(countByComp, k) > 0 && k != c
            then ListedSoFar(p, c, i + 1, list + [ci], at + [i], countByComp[k := Get(countByComp, k) - 1])
            else ListedSoFar(p, c, i + 1, list, at, countByComp)
  {
    var k := Running(p)[i].componentName;
    ListedStep(p, c, i, list, countByComp);
    assert RunCount(list, k) + Get(countByComp, k) == Count(p, k);
    ListedMore(p, c, i, list, at, Get(countByComp, k) > 0 && k != c);
  }

  method ListDisplaceable(p: PlacementOption, c: Name) returns (list: seq<ComponentInfo>, ghost at: seq<int>)
    ensures Displaceable(p, c, list) && Stoppable(p, c, list, at, |Running(p)|)
  {
    list, at := [], [];
    var countByComp, _ := ContainerCountByComponent(p);
    var infos := Running(p);
    NoneListed(p, c);
    NoneStoppable(p, c);
    for i := 0 to |infos|
      invariant ListedSoFar(p, c, i, list, at, countByComp)
    {
      var k := infos[i].componentName;
      ListedSoFarStep(p, c, i, list, at, countByComp);
      if Get(countByComp, k) > 0 && k != c {
        at := at + [i];
        list := list + [infos[i]];
        countByComp := countByComp[k := Get(countByComp, k) - 1];
      }
    }
    AllListed(p, c, list, countByComp);
    assert Stoppable(p, c, list, at, |infos|);
  }

  lemma NoneStoppable(p: PlacementOption, c: Name)
    requires Listed(p, c, 0, [], CountMap(p))
    ensures ListedSoFar(p, c, 0, [], [], CountMap(p))
  {
  }

  lemma NoneListed(p: PlacementOption, c: Name)
    ensures Listed(p, c, 0, [], CountMap(p))
  {
    forall k | k !in CountMap(p)
      ensures Count(p, k) == 0
    {
      CountOutside(p, k);
    }
  }

  lemma AllListed(p: PlacementOption, c: Name, list: seq<ComponentInfo>, countByComp: map<Name, int>)
    requires Listed(p, c, |Running(p)|, list, countByComp)
    ensures Displaceable(p, c, list)
  {
    assert Running(p)[..|Running(p)|] == Running(p);
  }

  lemma StillRunning(infos: seq<ComponentInfo>, i: nat)
    requires i < |infos|
    ensures RunCount(infos[..i], infos[i].componentName) < RunCount(infos, infos[i].componentName)
  {
    var k := infos[i].componentName;
    assert RunCount(infos[..i + 1], k) == RunCount(infos[..i], k) + 1 by {
      RunCountAppend(infos[..i], infos[i]);
      assert infos[..i + 1] == infos[..i] + [infos[i]];
    }
    RunCountPrefix(infos, i + 1, k);
  }

  method SortByRequestTime(list: seq<ComponentInfo>) returns (sorted: seq<ComponentInfo>)
    ensures multiset(sorted) == multiset(list)
    ensures forall i, j | 0 <= i < j < |sorted| :: sorted[i].lastRequestTime >= sorted[j].lastRequestTime
  {
    var less := (a: ComponentInfo, b: ComponentInfo) => a.lastRequestTime > b.lastRequestTime;
    sorted := Sort(list, less);
    assert SortedBy(sorted, less);
    forall i, j | 0 <= i < j < |sorted|
      ensures sorted[i].lastRequestTime >= sorted[j].lastRequestTime
    {
      assert !less(sorted[j], sorted[i]);
    }
  }

  /** q stops instances of components other than c on p's node, leaving avail memory free. */
  ghost predicate MadeRoom(p: PlacementOption, q: PlacementOption, c: Name, avail: int, mem: Name -> int) {
    && q.targetNode == p.targetNode
    && Distinct(q.targetCounts)
    && Count(q, c) == Count(p, c)
    && (forall k :: Count(q, k) <= Count(p, k) && (Count(p, k) >= 0 ==> Count(q, k) >= 0))
    && (WellFormed(p) ==> WellFormed(q))
    && (WellFormed(p) && Uniform(p, mem) ==> Uniform(q, mem) && avail == q.targetNode.totalMemoryMiB - Ram(q))
  }

  /** q is p after the first i instances of sorted have been stopped. */
  ghost predicate Stopped(p: PlacementOption, q: PlacementOption, sorted: seq<ComponentInfo>, i: nat,
                          avail: int, mem: Name -> int) {
    && i <= |sorted|
    && q.targetNode == p.targetNode && Distinct(q.targetCounts)
    && (forall k :: Count(q, k) == Count(p, k) - RunCount(sorted[..i], k))
    && avail == p.targetNode.totalMemoryMiB - Ram(p) + RunRam(sorted[..i], {})
    && (WellFormed(p) ==> WellFormed(q))
    && (WellFormed(p) && Uniform(p, mem) ==> Uniform(q, mem) && avail == q.targetNode.totalMemoryMiB - Ram(q))
  }

  ghost predicate Within(p: PlacementOption, sorted: seq<ComponentInfo>) {
    && (forall k :: RunCount(sorted, k) > 0 ==> RunCount(sorted, k) <= Count(p, k))
    && (forall ci | ci in sorted :: ci in Running(p))
  }

  method StopOne(ghost p: PlacementOption, q: PlacementOption, sorted: seq<ComponentInfo>, i: nat,
                 avail: int, ghost mem: Name -> int)
    returns (r: PlacementOption)
    requires i < |sorted| && Within(p, sorted) && Stopped(p, q, sorted, i, avail, mem)
    ensures Stopped(p, r, sorted, i + 1, avail + sorted[i].memoryReservedMiB, mem)
  {
    var ci := sorted[i];
    var k := ci.componentName;
    r := CloneWithTargetDelta(q, k, -1, ci.memoryReservedMiB);
    AdjustedEffect(q, r, k, -1, ci.memoryReservedMiB);
    assert sorted[..i + 1][..i] == sorted[..i];
    RunCountPrefix(sorted, i + 1, k);
    assert Count(q, k) >= 1;
    assert ci in sorted;
    if WellFormed(p) && Uniform(p, mem) {
      AdjustedRam(q, r, k, -1, mem);
    }
  }

  lemma StillDisplaceable(p: PlacementOption, c: Name, list: seq<ComponentInfo>, sorted: seq<ComponentInfo>)
    requires Displaceable(p, c, list) && multiset(sorted) == multiset(list)
    ensures Within(p, sorted) && RunCount(sorted, c) == 0 && RunRam(sorted, {}) == RunRam(list, {})
  {
    SameElements(list, sorted);
    RunPermuted(list, sorted);
  }

  // ---------- the order of stopping ----------

  /** The memory free on the node once the first i instances of the order are stopped. */
  ghost function Freed(p: PlacementOption, order: seq<ComponentInfo>, i: nat): int
    requires i <= |order|
  {
    p.targetNode.totalMemoryMiB - Ram(p) + RunRam(order[..i], {})
  }

  /** order holds what may be stopped for c, most recently requested first, and stopping fewer than
      the first i of them does not free enough. */
  ghost predicate StopsInOrder(p: PlacementOption, c: Name, requiredRam: int, order: seq<ComponentInfo>, i: nat) {
    && (exists list, at :: Stoppable(p, c, list, at, |Running(p)|) && multiset(order) == multiset(list))
    && (forall j, k | 0 <= j < k < |order| :: order[j].lastRequestTime >= order[k].lastRequestTime)
    && FreesLate(p, order, i, requiredRam)
  }

  /** q is p after the fewest stops in that order that free enough, or all of them. */
  ghost predicate Displaced(p: PlacementOption, q: PlacementOption, c: Name, requiredRam: int) {
    exists order, i: nat | StopsInOrder(p, c, requiredRam, order, i) ::
      && (i == |order| || Freed(p, order, i) >= requiredRam)
      && forall k :: Count(q, k) == Count(p, k) - RunCount(order[..i], k)
  }

  /** r is p with one instance of c more, after the fewest stops in that order that free enough. */
  ghost predicate RoomMade(p: PlacementOption, r: PlacementOption, c: Name, requiredRam: int) {
    exists order, i: nat | StopsInOrder(p, c, requiredRam, order, i) ::
      && Freed(p, order, i) >= requiredRam
      && forall k :: Count(r, k) == Count(p, k) - RunCount(order[..i], k) + if k == c then 1 else 0
  }

  /** Starting c on q makes it such an option. */
  ghost predicate RoomReady(p: PlacementOption, q: PlacementOption, c: Name, requiredRam: int) {
    forall r :: (forall k :: Count(r, k) == Count(q, k) + if k == c then 1 else 0) ==> RoomMade(p, r, c, requiredRam)
  }

  /** Stopping all that may be stopped for c frees enough. */
  ghost predicate CanFree(p: PlacementOption, c: Name, requiredRam: int) {
    exists list, at | Stoppable(p, c, list, at, |Running(p)|) ::
      p.targetNode.totalMemoryMiB - Ram(p) + RunRam(list, {}) >= requiredRam
  }

  /** On a fresh node without c everything may be stopped. */
  lemma FreshCanFree(p: PlacementOption, c: Name, requiredRam: int)
    requires Fresh(p) && RunCount(Running(p), c) == 0 && requiredRam <= p.targetNode.totalMemoryMiB
    ensures CanFree(p, c, requiredRam)
  {
    var infos := Running(p);
    var at := seq(|infos|, i => i);
    forall i | 0 <= i < |infos| ensures MayStop(p, c, i) && i == at[i] {
      StillRunning(infos, i);
    }
    assert Targets(p).Keys == {};
    assert Stoppable(p, c, infos, at, |infos|);
  }

  /** What stays was not requested later than what is stopped. */
  lemma LatestStopped(p: PlacementOption, c: Name, requiredRam: int, order: seq<ComponentInfo>, i: nat)
    requires StopsInOrder(p, c, requiredRam, order, i)
    ensures forall x, y | x in order[..i] && y in order[i..] :: y.lastRequestTime <= x.lastRequestTime
  {
  }

  /** There is just one list of what may be stopped. */
  lemma {:induction false} StoppableUnique(p: PlacementOption, c: Name, list: seq<ComponentInfo>, at: seq<int>,
                                           list': seq<ComponentInfo>, at': seq<int>)
    requires Stoppable(p, c, list, at, |Running(p)|) && Stoppable(p, c, list', at', |Running(p)|)
    ensures list == list'
  {
    SameIncreasing(at, at');
  }

  ghost predicate Increasing(a: seq<int>) { forall j, k | 0 <= j < k < |a| :: a[j] < a[k] }

  lemma WithoutLast(a: seq<int>)
    requires Increasing(a) && a != []
    ensures Increasing(a[..|a| - 1]) && forall x :: x in a[..|a| - 1] <==> x in a && x != a[|a| - 1]
    ensures a[|a| - 1] in a && forall x | x in a :: x <= a[|a| - 1]
  {
    assert a == a[..|a| - 1] + [a[|a| - 1]];
  }

  lemma {:induction false} SameIncreasing(a: seq<int>, b: seq<int>)
    requires Increasing(a) && Increasing(b) && forall x :: x in a <==> x in b
    ensures a == b
  {
    assert a != [] ==> a[0] in a;
    assert b != [] ==> b[0] in b;
    if a != [] && b != [] {
      WithoutLast(a);
      WithoutLast(b);
      var a', b' := a[..|a| - 1], b[..|b| - 1];
      assert a[|a| - 1] == b[|b| - 1];
      forall x ensures x in a' <==> x in b' {
        assert x in a' <==> x in a && x != a[|a| - 1];
      }
      SameIncreasing(a', b');
    }
  }

  /** Stops instances, most recently requested first, until the memory suffices. Under uniform
      reserves none is stopped in vain: without the last stop the memory would not suffice. */
  method Displace(p: PlacementOption, c: Name, requiredRam: int, ghost mem: Name -> int)
    returns (q: PlacementOption, avail: int)
    requires Distinct(p.targetCounts)
    requires p.targetNode.totalMemoryMiB - Ram(p) < requiredRam
    ensures MadeRoom(p, q, c, avail, mem)
    ensures Fresh(p) && RunCount(Running(p), c) == 0 && requiredRam <= p.targetNode.totalMemoryMiB
            ==> avail >= requiredRam
    ensures NotInVain(p, q, c, requiredRam, avail)
    ensures Displaced(p, q, c, requiredRam) && (avail < requiredRam ==> !CanFree(p, c, requiredRam))
    ensures avail >= requiredRam ==> RoomReady(p, q, c, requiredRam)
  {
    var list, at := ListDisplaceable(p, c);
    var sorted := SortByRequestTime(list);
    StillDisplaceable(p, c, list, sorted);
    ghost var i;
    q, avail, i := StopUntil(p, sorted, requiredRam, mem);
    DisplacedIs(p, q, c, requiredRam, list, at, sorted, i, avail, mem);
    RoomIsMade(p, q, c, requiredRam, list, sorted, i, avail, mem);
  }

  lemma RoomIsMade(p: PlacementOption, q: PlacementOption, c: Name, requiredRam: int, list: seq<ComponentInfo>,
                   sorted: seq<ComponentInfo>, i: nat, avail: int, mem: Name -> int)
    requires Displaceable(p, c, list) && RunRam(list, {}) == RunRam(sorted, {})
    requires Within(p, sorted) && RunCount(sorted, c) == 0 && Stopped(p, q, sorted, i, avail, mem)
    requires (avail >= requiredRam || i == |sorted|) && (i == 0 ==> q == p)
    requires i > 0 ==> avail - sorted[i - 1].memoryReservedMiB < requiredRam
    ensures MadeRoom(p, q, c, avail, mem) && NotInVain(p, q, c, requiredRam, avail)
    ensures Fresh(p) && RunCount(Running(p), c) == 0 && requiredRam <= p.targetNode.totalMemoryMiB
            ==> avail >= requiredRam
  {
    StopsOnly(p, q, c, sorted, i);
    if avail < requiredRam {
      FreshFits(p, q, c, list, sorted, avail, mem);
    }
    assert i > 0 ==> sorted[i - 1] in sorted;
  }

  /** Stops the instances one after the other until the memory suffices. */
  method StopUntil(p: PlacementOption, sorted: seq<ComponentInfo>, requiredRam: int, ghost mem: Name -> int)
    returns (q: PlacementOption, avail: int, ghost stops: nat)
    requires Distinct(p.targetCounts) && Within(p, sorted)
    ensures Stopped(p, q, sorted, stops, avail, mem) && FreesLate(p, sorted, stops, requiredRam)
    ensures (avail >= requiredRam || stops == |sorted|) && (stops == 0 ==> q == p)
    ensures stops > 0 ==> avail - sorted[stops - 1].memoryReservedMiB < requiredRam
  {
    var ram := RamUsed(p);
    q, avail := p, p.targetNode.totalMemoryMiB - ram;
    var i := 0;
    while avail < requiredRam && i < |sorted|
      invariant Stopped(p, q, sorted, i, avail, mem) && FreesLate(p, sorted, i, requiredRam)
      invariant i == 0 ==> q == p
      invariant i > 0 ==> avail - sorted[i - 1].memoryReservedMiB < requiredRam
      decreases |sorted| - i
    {
      q := StopOne(p, q, sorted, i, avail, mem);
      avail := avail + sorted[i].memoryReservedMiB;
      i := i + 1;
    }
    stops := i;
  }

  lemma DisplacedIs(p: PlacementOption, q: PlacementOption, c: Name, requiredRam: int, list: seq<ComponentInfo>,
                    at: seq<int>, sorted: seq<ComponentInfo>, i: nat, avail: int, mem: Name -> int)
    requires Stoppable(p, c, list, at, |Running(p)|) && multiset(sorted) == multiset(list)
    requires RunRam(sorted, {}) == RunRam(list, {}) && RunCount(sorted, c) == 0
    requires forall j, k | 0 <= j < k < |sorted| :: sorted[j].lastRequestTime >= sorted[k].lastRequestTime
    requires Stopped(p, q, sorted, i, avail, mem) && (avail >= requiredRam || i == |sorted|)
    requires FreesLate(p, sorted, i, requiredRam)
    ensures Displaced(p, q, c, requiredRam) && (avail < requiredRam ==> !CanFree(p, c, requiredRam))
    ensures avail >= requiredRam ==> RoomReady(p, q, c, requiredRam)
  {
    assert StopsInOrder(p, c, requiredRam, sorted, i);
    assert Freed(p, sorted, i) == avail;
    if avail < requiredRam {
      assert sorted[..|sorted|] == sorted;
      forall list', at' | Stoppable(p, c, list', at', |Running(p)|)
        ensures p.targetNode.totalMemoryMiB - Ram(p) + RunRam(list', {}) < requiredRam
      {
        StoppableUnique(p, c, list, at, list', at');
      }
    }
  }

  /** Fewer than the first i stops do not free enough. */
  ghost predicate FreesLate(p: PlacementOption, order: seq<ComponentInfo>, i: nat, requiredRam: int) {
    i <= |order| && forall j | 0 <= j < i :: Freed(p, order, j) < requiredRam
  }

  /** Once everything displaceable on a fresh node without c is stopped, all memory is free. */
  lemma FreshFits(p: PlacementOption, q: PlacementOption, c: Name, list: seq<ComponentInfo>,
                  sorted: seq<ComponentInfo>, avail: int, mem: Name -> int)
    requires Displaceable(p, c, list) && RunRam(list, {}) == RunRam(sorted, {})
    requires Stopped(p, q, sorted, |sorted|, avail, mem)
    ensures Fresh(p) && RunCount(Running(p), c) == 0 ==> avail == p.targetNode.totalMemoryMiB
  {
    assert sorted[..|sorted|] == sorted;
    if Fresh(p) {
      assert Targets(p).Keys == {};
    }
  }

  ghost predicate NotInVain(p: PlacementOption, q: PlacementOption, c: Name, requiredRam: int, avail: int) {
    q == p || exists ci | ci in Running(p) ::
      && ci.componentName != c
      && Count(q, ci.componentName) < Count(p, ci.componentName)
      && avail - ci.memoryReservedMiB < requiredRam
  }

  lemma StopsOnly(p: PlacementOption, q: PlacementOption, c: Name, sorted: seq<ComponentInfo>, i: nat)
    requires i <= |sorted| && RunCount(sorted, c) == 0
    requires forall k :: RunCount(sorted, k) > 0 ==> RunCount(sorted, k) <= Count(p, k)
    requires forall k :: Count(q, k) == Count(p, k) - RunCount(sorted[..i], k)
    ensures Count(q, c) == Count(p, c)
    ensures forall k :: Count(q, k) <= Count(p, k) && (Count(p, k) >= 0 ==> Count(q, k) >= 0)
    ensures i > 0 ==>
              var k := sorted[i - 1].componentName; k != c && Count(q, k) < Count(p, k)
  {
    forall k
      ensures RunCount(sorted[..i], k) <= RunCount(sorted, k)
    {
      RunCountPrefix(sorted, i, k);
    }
    if i > 0 {
      var ci := sorted[i - 1];
      assert ci in sorted[..i];
      RunCountPositive(sorted[..i], ci.componentName);
    }
  }
}

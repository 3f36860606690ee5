/** The whole table of placement options and what one planner step does to it. */
module PlanTable {
  import opened ClusterTypes
  import opened Sums
  import opened Placement
  import opened PlacementOps
  import opened Displacing
  import opened BestOption

  type Table = map<Name, PlacementOption>

  ghost function CountByNode(t: Table, c: Name): map<Name, int> {
    map n | n in t :: Count(t[n], c)
  }

  /** The instances of component c planned on all nodes together. */
  ghost function ClusterCount(t: Table, c: Name): int {
    SumMap(CountByNode(t, c))
  }

  ghost predicate SameNodes(t0: Table, t: Table) {
    t.Keys == t0.Keys && forall n | n in t :: t[n].targetNode == t0[n].targetNode
  }

  function Max(a: int, b: int): int { if a > b then a else b }

  /** Memory and per-node limits hold: a node never uses more than it has or used at the start,
      and never runs more of a limited component than the limit or what ran at the start. */
  ghost predicate NodeSafe(p0: PlacementOption, p: PlacementOption, mem: Name -> int, limit: Name -> int) {
    && Uniform(p, mem)
    && Ram(p) <= Max(p.targetNode.totalMemoryMiB, Ram(p0))
    && forall c | limit(c) > 0 :: Count(p, c) <= Max(limit(c), Count(p0, c))
  }

  ghost predicate Safe(t0: Table, t: Table, mem: Name -> int, limit: Name -> int) {
    SameNodes(t0, t) && forall n | n in t :: NodeSafe(t0[n], t[n], mem, limit)
  }

  lemma CountByNodeUpdate(t: Table, n: Name, q: PlacementOption, c: Name)
    requires n in t
    ensures ClusterCount(t[n := q], c) == ClusterCount(t, c) - Count(t[n], c) + Count(q, c)
  {
    SumUpdate(CountByNode(t, c), n, Count(q, c));
    assert CountByNode(t[n := q], c) == CountByNode(t, c)[n := Count(q, c)];
  }

  /** A step takes effect exactly when the component has no target on the node yet. */
  function Effect(p: PlacementOption, c: Name, delta: int): int {
    if c in Targets(p) then 0 else delta
  }

  ghost predicate Untouched(t: Table, c: Name) {
    forall n | n in t :: c !in Targets(t[n])
  }

  lemma MergedEffect(p: PlacementOption, q: PlacementOption, c: Name, delta: int, ram: int)
    requires WellFormed(p) && Merged(p, q, c, delta, ram) && Count(p, c) + delta >= 0
    ensures WellFormed(q)
    ensures Count(q, c) == Count(p, c) + Effect(p, c, delta)
    ensures forall k | k != c :: Count(q, k) == Count(p, k)
  {
    if c in Targets(p) {
      SameView(p, q);
    } else {
      AdjustedEffect(p, q, c, delta, ram);
    }
  }

  /** After one step for c on a node every further step for c there is absorbed, whatever the
      number of instances still missing. */
  lemma SecondStepAbsorbed(p: PlacementOption, q: PlacementOption, r: PlacementOption, c: Name,
                           delta: int, ram: int, delta': int, ram': int)
    requires Merged(p, q, c, delta, ram) && Merged(q, r, c, delta', ram')
    ensures forall k :: Count(r, k) == Count(q, k)
  {
    SameView(q, r);
  }

  lemma StoreStep(t: Table, n: Name, q: PlacementOption, c: Name, delta: int, ram: int)
    requires IsTable(t) && n in t && Merged(t[n], q, c, delta, ram) && Count(t[n], c) + delta >= 0
    ensures IsTable(t[n := q]) && SameNodes(t, t[n := q])
    ensures ClusterCount(t[n := q], c) == ClusterCount(t, c) + Effect(t[n], c, delta)
    ensures forall k | k != c :: ClusterCount(t[n := q], k) == ClusterCount(t, k)
    ensures forall k | k != c && Untouched(t, k) :: Untouched(t[n := q], k)
  {
    MergedEffect(t[n], q, c, delta, ram);
    forall k
      ensures ClusterCount(t[n := q], k) == ClusterCount(t, k) - Count(t[n], k) + Count(q, k)
    {
      CountByNodeUpdate(t, n, q, k);
    }
  }

  lemma StopIsSafe(p0: PlacementOption, p: PlacementOption, q: PlacementOption, c: Name,
                   mem: Name -> int, limit: Name -> int)
    requires WellFormed(p) && NodeSafe(p0, p, mem, limit) && Count(p, c) > 0
    requires Merged(p, q, c, -1, RamFor(p, c))
    ensures NodeSafe(p0, q, mem, limit)
  {
    if c !in Names(p) {
      CountOutside(p, c);
    }
    RamForUniform(p, c, mem);
    MergedEffect(p, q, c, -1, RamFor(p, c));
    if c in Targets(p) {
      SameRam(p, q, mem);
    } else {
      AdjustedRam(p, q, c, -1, mem);
    }
  }

  lemma StartIsSafe(p0: PlacementOption, p: PlacementOption, q: PlacementOption, c: Name,
                    mem: Name -> int, limit: Name -> int)
    requires WellFormed(p) && NodeSafe(p0, p, mem, limit) && q.targetNode == p.targetNode
    requires Merged(p, q, c, 1, mem(c))
    requires Ram(p) + mem(c) <= p.targetNode.totalMemoryMiB
    requires limit(c) > 0 ==> Count(p, c) < limit(c)
    ensures NodeSafe(p0, q, mem, limit)
  {
    CountNonNegative(p);
    MergedEffect(p, q, c, 1, mem(c));
    if c in Targets(p) {
      SameRam(p, q, mem);
    } else {
      AdjustedRam(p, q, c, 1, mem);
    }
  }

  // ---------- moving one instance to an idle node ----------

  /** t' is t with one instance of c moved from node f to node e. */
  ghost predicate MovedOne(t: Table, t': Table, f: Name, e: Name, c: Name, ram: int) {
    && f in t && e in t && f != e
    && Count(t[f], c) > 0 && Total(t[f]) > 1
    && t'.Keys == t.Keys
    && (forall n | n in t && n != f && n != e :: t'[n] == t[n])
    && Adjusted(t[f], t'[f], c, -1, ram)
    && Adjusted(t[e], t'[e], c, 1, ram)
  }

  lemma MoveShape(t: Table, t': Table, f: Name, e: Name, c: Name, ram: int)
    requires IsTable(t) && MovedOne(t, t', f, e, c, ram)
    ensures IsTable(t') && SameNodes(t, t')
    ensures forall n | n in t && Total(t[n]) > 0 :: Total(t'[n]) > 0
  {
    AdjustedEffect(t[f], t'[f], c, -1, ram);
    AdjustedEffect(t[e], t'[e], c, 1, ram);
  }

  lemma MoveTotals(t: Table, t': Table, f: Name, e: Name, c: Name, ram: int)
    requires MovedOne(t, t', f, e, c, ram)
    ensures forall k :: ClusterCount(t', k) == ClusterCount(t, k)
  {
    AdjustedEffect(t[f], t'[f], c, -1, ram);
    AdjustedEffect(t[e], t'[e], c, 1, ram);
    assert t' == t[f := t'[f]][e := t'[e]];
    forall k
      ensures ClusterCount(t', k) == ClusterCount(t, k)
    {
      CountByNodeUpdate(t, f, t'[f], k);
      CountByNodeUpdate(t[f := t'[f]], e, t'[e], k);
    }
  }

  /** A move conserves every component's total and empties no node. */
  lemma MoveConserves(t: Table, t': Table, f: Name, e: Name, c: Name, ram: int)
    requires IsTable(t) && MovedOne(t, t', f, e, c, ram)
    ensures IsTable(t') && SameNodes(t, t')
    ensures forall k :: ClusterCount(t', k) == ClusterCount(t, k)
    ensures forall n | n in t && Total(t[n]) > 0 :: Total(t'[n]) > 0
  {
    MoveShape(t, t', f, e, c, ram);
    MoveTotals(t, t', f, e, c, ram);
  }

  lemma GiveIsSafe(p0: PlacementOption, p: PlacementOption, q: PlacementOption, c: Name,
                   mem: Name -> int, limit: Name -> int)
    requires WellFormed(p) && NodeSafe(p0, p, mem, limit) && Count(p, c) > 0
    requires Adjusted(p, q, c, -1, mem(c))
    ensures NodeSafe(p0, q, mem, limit)
  {
    AdjustedEffect(p, q, c, -1, mem(c));
    AdjustedRam(p, q, c, -1, mem);
  }

  lemma TakeIsSafe(p0: PlacementOption, p: PlacementOption, q: PlacementOption, c: Name,
                   mem: Name -> int, limit: Name -> int)
    requires WellFormed(p) && NodeSafe(p0, p, mem, limit)
    requires Ram(p) == 0 && mem(c) <= p.targetNode.totalMemoryMiB
    requires Adjusted(p, q, c, 1, mem(c))
    ensures NodeSafe(p0, q, mem, limit)
  {
    NoRamIffEmpty(p, mem);
    AdjustedEffect(p, q, c, 1, mem(c));
    AdjustedRam(p, q, c, 1, mem);
  }

  lemma MoveIsSafe(t0: Table, t: Table, t': Table, f: Name, e: Name, c: Name, mem: Name -> int, limit: Name -> int)
    requires IsTable(t) && Safe(t0, t, mem, limit) && MovedOne(t, t', f, e, c, mem(c))
    requires Ram(t[e]) == 0 && mem(c) <= t[e].targetNode.totalMemoryMiB
    ensures Safe(t0, t', mem, limit)
  {
    MoveShape(t, t', f, e, c, mem(c));
    GiveIsSafe(t0[f], t[f], t'[f], c, mem, limit);
    TakeIsSafe(t0[e], t[e], t'[e], c, mem, limit);
  }

  /** Nothing on another node with more than one container could be moved to node e. */
  ghost predicate Blocked(t: Table, e: Name, mem: Name -> int)
    requires e in t
  {
    forall n, c | n in t && n != e && Total(t[n]) > 1 && Count(t[n], c) > 0 ::
      mem(c) > t[e].targetNode.totalMemoryMiB
  }

  /** An idle node to which nothing could be moved stays that way after any later move. */
  lemma BlockedStays(t: Table, t': Table, f: Name, e: Name, c: Name, mem: Name -> int, idle: Name)
    requires IsTable(t) && MovedOne(t, t', f, e, c, mem(c)) && Total(t[e]) == 0
    requires idle in t && idle != e
    requires Total(t[idle]) == 0 ==> Blocked(t, idle, mem)
    ensures Total(t'[idle]) == 0 ==> Blocked(t', idle, mem)
  {
    AdjustedEffect(t[f], t'[f], c, -1, mem(c));
    AdjustedEffect(t[e], t'[e], c, 1, mem(c));
    if Total(t'[idle]) == 0 {
      assert idle != f;
      forall n, k | n in t' && n != idle && Total(t'[n]) > 1 && Count(t'[n], k) > 0
        ensures mem(k) > t'[idle].targetNode.totalMemoryMiB
      {
        assert n != e;
        assert Total(t[n]) > 1 && Count(t[n], k) > 0;
      }
    }
  }

  /** Tables that differ in the order of targets only. */
  ghost predicate SameViews(t: Table, t': Table) {
    && SameNodes(t, t')
    && forall n | n in t :: Distinct(t'[n].targetCounts) && Targets(t'[n]) == Targets(t[n])
  }

  lemma SameViewsTwice(t: Table, t': Table, t'': Table)
    requires SameViews(t, t') && SameViews(t', t'')
    ensures SameViews(t, t'')
  {
  }

  lemma SameViewsKeep(t: Table, t': Table)
    requires IsTable(t) && SameViews(t, t')
    ensures IsTable(t')
    ensures forall c :: ClusterCount(t', c) == ClusterCount(t, c)
    ensures forall n | n in t :: Total(t'[n]) == Total(t[n])
    ensures forall n, c | n in t :: Count(t'[n], c) == Count(t[n], c)
  {
    forall n | n in t
      ensures Total(t'[n]) == Total(t[n]) && forall c :: Count(t'[n], c) == Count(t[n], c)
    {
      SameView(t[n], t'[n]);
    }
    forall c
      ensures ClusterCount(t', c) == ClusterCount(t, c)
    {
      assert CountByNode(t', c) == CountByNode(t, c);
    }
  }

  lemma SameViewsSafe(t0: Table, t: Table, t': Table, mem: Name -> int, limit: Name -> int)
    requires IsTable(t) && SameViews(t, t') && Safe(t0, t, mem, limit)
    ensures Safe(t0, t', mem, limit)
  {
    SameViewsKeep(t, t');
    forall n | n in t
      ensures NodeSafe(t0[n], t'[n], mem, limit)
    {
      SameRam(t[n], t'[n], mem);
    }
  }

  lemma SomewherePositive(t: Table, c: Name)
    requires IsTable(t)
    ensures ClusterCount(t, c) >= 0
    ensures ClusterCount(t, c) > 0 ==> exists n :: n in t && Count(t[n], c) > 0
  {
    SumBounds(CountByNode(t, c));
    if forall n | n in t :: Count(t[n], c) <= 0 {
      forall n | n in t
        ensures CountByNode(t, c)[n] == 0
      {
        CountNonNegative(t[n]);
      }
      SumZero(CountByNode(t, c));
    }
  }
}

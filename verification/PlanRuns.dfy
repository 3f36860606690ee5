/** Sequences of planner steps for one component: how far they get. */
module PlanRuns {
  import opened ClusterTypes
  import opened Sizes
  import opened Sums
  import opened Placement
  import opened PlacementOps
  import opened Displacing
  import opened BestOption
  import opened PlanTable

  /** One step for c was merged into node n's option; nothing else changed. */
  ghost predicate SteppedAt(before: Table, after: Table, n: Name, c: Name, delta: int, ram: int) {
    && n in before && n in after
    && Merged(before[n], after[n], c, delta, ram)
    && after == before[n := after[n]]
  }

  ghost predicate Stepped(before: Table, after: Table, n: Name, c: Name, delta: int) {
    n in before && Count(before[n], c) + delta >= 0 && exists ram :: SteppedAt(before, after, n, c, delta, ram)
  }

  /** The tables ts come about by steps for c on the nodes at, one after the other. */
  ghost predicate Steps(ts: seq<Table>, at: seq<Name>, c: Name, delta: int) {
    && |ts| == |at| + 1 && IsTable(ts[0]) && Untouched(ts[0], c)
    && forall i | 0 <= i < |at| :: Stepped(ts[i], ts[i + 1], at[i], c, delta)
  }

  /** Each node chosen so far has changed by one step, however often it was chosen. */
  ghost predicate NodesChanged(before: Table, after: Table, at: set<Name>, c: Name, delta: int) {
    && IsTable(after) && SameNodes(before, after) && at <= before.Keys
    && (forall n | n in before && n !in at :: after[n] == before[n])
    && (forall n | n in at :: c in Targets(after[n]) && Count(after[n], c) == Count(before[n], c) + delta)
  }

  ghost predicate Changed(before: Table, after: Table, at: set<Name>, c: Name, delta: int) {
    NodesChanged(before, after, at, c, delta) && ClusterCount(after, c) == ClusterCount(before, c) + |at| * delta
  }

  lemma StepEffect(before: Table, after: Table, n: Name, c: Name, delta: int)
    requires IsTable(before) && Stepped(before, after, n, c, delta)
    ensures IsTable(after) && SameNodes(before, after) && after == before[n := after[n]]
    ensures c in Targets(after[n]) && Count(after[n], c) == Count(before[n], c) + Effect(before[n], c, delta)
    ensures ClusterCount(after, c) == ClusterCount(before, c) + Effect(before[n], c, delta)
  {
    var ram :| SteppedAt(before, after, n, c, delta, ram);
    StoreStep(before, n, after[n], c, delta, ram);
    MergedEffect(before[n], after[n], c, delta, ram);
    MergedTarget(before[n], after[n], c, delta, ram);
  }

  lemma MergedTarget(p: PlacementOption, q: PlacementOption, c: Name, delta: int, ram: int)
    requires Merged(p, q, c, delta, ram)
    ensures c in Targets(q)
  {
  }

  lemma NodesChangedOnce(first: Table, before: Table, after: Table, at: set<Name>, n: Name, c: Name, delta: int)
    requires Untouched(first, c) && NodesChanged(first, before, at, c, delta)
    requires n in before && IsTable(after) && SameNodes(before, after) && after == before[n := after[n]]
    requires c in Targets(after[n]) && Count(after[n], c) == Count(before[n], c) + Effect(before[n], c, delta)
    ensures NodesChanged(first, after, at + {n}, c, delta) && (c in Targets(before[n]) <==> n in at)
  {
  }

  lemma ChangedOnce(first: Table, before: Table, after: Table, at: set<Name>, n: Name, c: Name, delta: int)
    requires Untouched(first, c)
    requires Changed(first, before, at, c, delta) && Stepped(before, after, n, c, delta)
    ensures Changed(first, after, at + {n}, c, delta)
  {
    StepEffect(before, after, n, c, delta);
    NodesChangedOnce(first, before, after, at, n, c, delta);
    TotalOnce(at, n, delta, ClusterCount(first, c), ClusterCount(before, c), ClusterCount(after, c));
  }

  lemma TotalOnce(at: set<Name>, n: Name, delta: int, first: int, before: int, after: int)
    requires before == first + |at| * delta && after == before + if n in at then 0 else delta
    ensures after == first + |at + {n}| * delta
  {
    if n in at {
      assert at + {n} == at;
    } else {
      OneMoreTimes(|at|, delta);
    }
  }

  lemma ChangedNone(t: Table, c: Name, delta: int)
    requires IsTable(t)
    ensures Changed(t, t, {}, c, delta)
  {
  }

  lemma OneMoreTimes(k: nat, delta: int)
    ensures (k + 1) * delta == k * delta + delta
  {
  }

  lemma {:induction false} StepsChange(ts: seq<Table>, at: seq<Name>, c: Name, delta: int, i: nat)
    requires Steps(ts, at, c, delta) && i <= |at|
    ensures Changed(ts[0], ts[i], Among(at[..i]), c, delta)
    decreases i
  {
    if i == 0 {
      assert Among(at[..0]) == {};
      ChangedNone(ts[0], c, delta);
    } else {
      StepsChange(ts, at, c, delta, i - 1);
      assert Stepped(ts[i - 1], ts[i - 1 + 1], at[i - 1], c, delta);
      ChangedOnce(ts[0], ts[i - 1], ts[i], Among(at[..i - 1]), at[i - 1], c, delta);
      assert at[..i] == at[..i - 1] + [at[i - 1]];
      MoreAmong(at[..i - 1], at[i - 1]);
    }
  }

  /** Fewer names than choices: some name was chosen again. */
  lemma {:induction false} ChosenAgain(at: seq<Name>) returns (j: nat)
    requires |Among(at)| < |at|
    ensures j < |at| && at[j] in at[..j]
  {
    var n := |at| - 1;
    if at[n] in at[..n] {
      j := n;
    } else {
      assert at == at[..n] + [at[n]];
      MoreAmong(at[..n], at[n]);
      j := ChosenAgain(at[..n]);
      assert at[..n][..j] == at[..j];
    }
  }

  function Min(a: int, b: int): int { if a < b then a else b }

  // ---------- scaling down ----------

  ghost function AtLeast(t: Table, c: Name, m: int): set<Name> { set n | n in t && Count(t[n], c) >= m }

  ghost predicate IsMost(t: Table, c: Name, m: int) {
    (exists n :: n in t && Count(t[n], c) == m) && forall n | n in t :: Count(t[n], c) <= m
  }

  /** Every stop is on a node that plans the most instances at that time. */
  ghost predicate Stops(ts: seq<Table>, at: seq<Name>, c: Name) {
    && Steps(ts, at, c, -1)
    && forall i | 0 <= i < |at| :: at[i] in ts[i] && IsMost(ts[i], c, Count(ts[i][at[i]], c))
  }

  lemma StopsMore(ts: seq<Table>, at: seq<Name>, t: Table, n: Name, c: Name)
    requires Stops(ts, at, c) && Stepped(ts[|at|], t, n, c, -1) && IsMost(ts[|at|], c, Count(ts[|at|][n], c))
    ensures Stops(ts + [t], at + [n], c)
  {
  }

  ghost predicate NoneLeft(t: Table, c: Name) { forall n | n in t :: Count(t[n], c) <= 0 }

  /** The most instances any node plans, and 0 if there are none. */
  ghost function Most(t: Table, c: Name): int {
    if m :| IsMost(t, c, m) && m >= 1 then m else 0
  }

  /** One less than the most, but at least one: a node without instances cannot be stopped on. */
  function SecondMost(m: int): int { if m > 1 then m - 1 else 1 }

  /** The number of nodes with the most instances, respectively with the most or one less. */
  ghost function Topmost(t: Table, c: Name): nat {
    if Most(t, c) == 0 then 0 else |AtLeast(t, c, Most(t, c))|
  }

  ghost function NearTop(t: Table, c: Name): nat {
    if Most(t, c) == 0 then 0 else |AtLeast(t, c, SecondMost(Most(t, c)))|
  }

  /** Out of k wanted stops at least those on nodes with the most instances take effect, and at
      most those on nodes with the most or one less. */
  ghost predicate Falls(before: Table, after: Table, c: Name, k: nat) {
    Min(k, Topmost(before, c)) <= ClusterCount(before, c) - ClusterCount(after, c) <= Min(k, NearTop(before, c))
  }

  lemma StoppedNearMost(ts: seq<Table>, at: seq<Name>, c: Name, m: int)
    requires Stops(ts, at, c) && IsMost(ts[0], c, m)
    ensures Among(at) <= AtLeast(ts[0], c, SecondMost(m))
  {
    forall i | 0 <= i < |at| ensures at[i] in AtLeast(ts[0], c, SecondMost(m)) {
      StopNearMost(ts, at, c, m, i);
    }
  }

  lemma StopNearMost(ts: seq<Table>, at: seq<Name>, c: Name, m: int, i: nat)
    requires Stops(ts, at, c) && IsMost(ts[0], c, m) && i < |at|
    ensures at[i] in ts[0] && Count(ts[0][at[i]], c) >= SecondMost(m)
  {
    var top :| top in ts[0] && Count(ts[0][top], c) == m;
    StepsChange(ts, at, c, -1, i);
    assert Stepped(ts[i], ts[i + 1], at[i], c, -1);
    assert Count(ts[i][top], c) <= Count(ts[i][at[i]], c);
  }

  /** A stop on a node that was stopped before happens only when all nodes with the most
      instances were. */
  lemma RepeatedStop(ts: seq<Table>, at: seq<Name>, c: Name, m: int, j: nat)
    requires Stops(ts, at, c) && IsMost(ts[0], c, m) && j < |at| && at[j] in at[..j]
    ensures AtLeast(ts[0], c, m) <= Among(at)
  {
    StepsChange(ts, at, c, -1, j);
    forall n | n in AtLeast(ts[0], c, m) ensures n in Among(at) {
      assert Count(ts[j][n], c) <= Count(ts[j][at[j]], c);
    }
  }

  /** How many of k wanted stops take effect; a run that is shorter found nothing left to stop. */
  lemma StopsFall(ts: seq<Table>, at: seq<Name>, c: Name, k: nat)
    requires Stops(ts, at, c) && |at| <= k
    requires |at| < k ==> NoneLeft(ts[|at|], c)
    ensures Falls(ts[0], ts[|at|], c, k)
  {
    FallIsNodes(ts, at, c);
    FallWithin(ts, at, c, k);
  }

  lemma FallWithin(ts: seq<Table>, at: seq<Name>, c: Name, k: nat)
    requires Stops(ts, at, c) && |at| <= k
    requires |at| < k ==> NoneLeft(ts[|at|], c)
    ensures Min(k, Topmost(ts[0], c)) <= |Among(at)| <= Min(k, NearTop(ts[0], c))
  {
    var m := Most(ts[0], c);
    if m == 0 {
      NothingStopped(ts, at, c);
    } else {
      assert IsMost(ts[0], c, m);
      FallBounds(ts, at, c, k, m);
    }
  }

  /** A stop takes place only where an instance is planned. */
  lemma NothingStopped(ts: seq<Table>, at: seq<Name>, c: Name)
    requires Stops(ts, at, c) && Most(ts[0], c) == 0
    ensures at == []
  {
    assert at != [] ==> IsMost(ts[0], c, Count(ts[0][at[0]], c)) && Stepped(ts[0], ts[0 + 1], at[0], c, -1);
  }

  lemma FallIsNodes(ts: seq<Table>, at: seq<Name>, c: Name)
    requires Steps(ts, at, c, -1)
    ensures ClusterCount(ts[|at|], c) == ClusterCount(ts[0], c) - |Among(at)|
  {
    StepsChange(ts, at, c, -1, |at|);
    assert at[..|at|] == at;
  }

  lemma FallBounds(ts: seq<Table>, at: seq<Name>, c: Name, k: nat, m: int)
    requires Stops(ts, at, c) && |at| <= k && IsMost(ts[0], c, m) && m >= 1
    requires |at| < k ==> NoneLeft(ts[|at|], c)
    ensures Min(k, |AtLeast(ts[0], c, m)|) <= |Among(at)| <= Min(k, |AtLeast(ts[0], c, SecondMost(m))|)
  {
    AmongSize(at);
    StoppedNearMost(ts, at, c, m);
    SubsetSize(Among(at), AtLeast(ts[0], c, SecondMost(m)));
    if |Among(at)| < k {
      AllMostStopped(ts, at, c, k, m);
      SubsetSize(AtLeast(ts[0], c, m), Among(at));
    }
  }

  lemma AllMostStopped(ts: seq<Table>, at: seq<Name>, c: Name, k: nat, m: int)
    requires Stops(ts, at, c) && IsMost(ts[0], c, m) && m >= 1 && |Among(at)| < k
    requires |at| < k ==> NoneLeft(ts[|at|], c)
    ensures |at| <= k ==> AtLeast(ts[0], c, m) <= Among(at)
  {
    if |at| == k {
      var j := ChosenAgain(at);
      RepeatedStop(ts, at, c, m, j);
    } else if |at| < k {
      StepsChange(ts, at, c, -1, |at|);
      assert at[..|at|] == at;
      forall n | n in AtLeast(ts[0], c, m) ensures n in Among(at) {
        assert Count(ts[|at|][n], c) <= 0;
      }
    }
  }

  /** Scaling down by k reaches its target when at least k nodes plan the most instances, and
      misses it when fewer than k plan the most or one less. */
  lemma FallsMeaning(before: Table, after: Table, c: Name, k: nat, m: int)
    requires Falls(before, after, c, k) && IsMost(before, c, m) && m >= 1
    ensures |AtLeast(before, c, m)| >= k ==> ClusterCount(after, c) == ClusterCount(before, c) - k
    ensures |AtLeast(before, c, SecondMost(m))| < k ==> ClusterCount(after, c) > ClusterCount(before, c) - k
  {
    MostIs(before, c, m);
  }

  lemma {:induction false} MostExists(t: Table, c: Name, n: Name) returns (m: int)
    requires n in t && Count(t[n], c) > 0
    ensures IsMost(t, c, m) && m >= Count(t[n], c)
  {
    var counts := set k | k in t :: Count(t[k], c);
    m := Largest(counts, Count(t[n], c));
    var k :| k in t && Count(t[k], c) == m;
    assert forall j | j in t :: Count(t[j], c) in counts;
  }

  lemma {:induction false} Largest(s: set<int>, x: int) returns (m: int)
    requires x in s
    ensures m in s && forall y | y in s :: y <= m
    decreases |s|
  {
    if y :| y in s && y != x {
      var low, high := if x < y then x else y, if x < y then y else x;
      m := Largest(s - {low}, high);
      assert forall z | z in s :: z == low || z in s - {low};
    } else {
      m := x;
    }
  }

  /** Where something runs, some node runs the most. */
  lemma TopmostPositive(t: Table, c: Name, n: Name)
    requires n in t && Count(t[n], c) > 0
    ensures Topmost(t, c) >= 1
  {
    var m := MostExists(t, c, n);
    MostIs(t, c, m);
    var k :| k in t && Count(t[k], c) == m;
    assert k in AtLeast(t, c, m);
    SubsetSize({k}, AtLeast(t, c, m));
  }

  lemma MostIs(t: Table, c: Name, m: int)
    requires IsMost(t, c, m) && m >= 1
    ensures Most(t, c) == m
  {
  }

  /** The same counts on every node. */
  ghost predicate SameCounts(t: Table, t': Table, c: Name) {
    (forall n :: n in t' <==> n in t) && forall n | n in t :: Count(t'[n], c) == Count(t[n], c)
  }

  lemma SameCountsTotal(t: Table, t': Table, c: Name)
    requires SameCounts(t, t', c)
    ensures ClusterCount(t', c) == ClusterCount(t, c)
  {
    assert CountByNode(t', c) == CountByNode(t, c);
  }

  lemma FallsSame(t: Table, t': Table, after: Table, after': Table, c: Name, k: nat)
    requires SameCounts(t, t', c) && ClusterCount(after', c) == ClusterCount(after, c) && Falls(t', after, c, k)
    ensures Falls(t, after', c, k)
  {
    SameCountsTotal(t, t', c);
    SameMost(t, t', c);
    assert AtLeast(t', c, Most(t, c)) == AtLeast(t, c, Most(t, c));
    assert AtLeast(t', c, SecondMost(Most(t, c))) == AtLeast(t, c, SecondMost(Most(t, c)));
  }

  lemma SameMost(t: Table, t': Table, c: Name)
    requires SameCounts(t, t', c)
    ensures Most(t', c) == Most(t, c)
  {
    if m :| IsMost(t, c, m) && m >= 1 {
      MostMoves(t, t', c, m);
      MostIs(t, c, m);
      MostIs(t', c, m);
    } else if m :| IsMost(t', c, m) && m >= 1 {
      MostMoves(t', t, c, m);
    }
  }

  lemma MostMoves(t: Table, t': Table, c: Name, m: int)
    requires SameCounts(t, t', c) && IsMost(t, c, m)
    ensures IsMost(t', c, m)
  {
    var n :| n in t && Count(t[n], c) == m;
    assert n in t' && Count(t'[n], c) == m;
  }

  ghost predicate StopsFrom(ts: seq<Table>, at: seq<Name>, before: Table, after: Table, c: Name, k: nat) {
    && Stops(ts, at, c) && ts[0] == before && ts[|at|] == after
    && |at| <= k && (|at| < k ==> NoneLeft(after, c))
  }

  /** A run of k stops, or of fewer that ends with nothing left to stop. */
  ghost predicate StopTurn(before: Table, after: Table, c: Name, k: nat) {
    exists ts, at :: StopsFrom(ts, at, before, after, c, k)
  }

  lemma RunIsStopTurn(ts: seq<Table>, at: seq<Name>, c: Name, k: nat)
    requires Stops(ts, at, c) && |at| <= k && (|at| < k ==> NoneLeft(ts[|at|], c))
    ensures StopTurn(ts[0], ts[|at|], c, k)
  {
    assert StopsFrom(ts, at, ts[0], ts[|at|], c, k);
  }

  // ---------- scaling up ----------

  ghost predicate IsLeastRoom(t: Table, req: Request, m: int) {
    && (exists n :: n in t && HasRoom(t[n], req) && Count(t[n], req.c) == m)
    && forall n | n in t && HasRoom(t[n], req) :: Count(t[n], req.c) >= m
  }

  ghost function RoomAt(t: Table, req: Request, m: int): set<Name> {
    set n | n in t && HasRoom(t[n], req) && Count(t[n], req.c) == m
  }

  /** Every start is on a node with room that plans the fewest instances of those. */
  ghost predicate Starts(ts: seq<Table>, at: seq<Name>, req: Request) {
    && Steps(ts, at, req.c, 1)
    && forall i | 0 <= i < |at| ::
        at[i] in ts[i] && HasRoom(ts[i][at[i]], req) && IsLeastRoom(ts[i], req, Count(ts[i][at[i]], req.c))
  }

  /** The start for req took place on node n, which had room and, of those with room, the fewest instances. */
  ghost predicate StartedAt(t: Table, t': Table, n: Name, req: Request) {
    Stepped(t, t', n, req.c, 1) && HasRoom(t[n], req) && IsLeastRoom(t, req, Count(t[n], req.c))
  }

  lemma StartsMore(ts: seq<Table>, at: seq<Name>, t: Table, n: Name, req: Request)
    requires Starts(ts, at, req) && StartedAt(ts[|at|], t, n, req)
    ensures Starts(ts + [t], at + [n], req)
  {
  }

  /** No node has room. */
  ghost predicate Full(t: Table, req: Request) { forall n | n in t :: !HasRoom(t[n], req) }

  /** Out of k wanted starts at least those on nodes with room and the fewest instances take effect. */
  ghost predicate Rises(before: Table, after: Table, req: Request, k: nat) {
    forall m | IsLeastRoom(before, req, m) ::
      ClusterCount(after, req.c) - ClusterCount(before, req.c) >= Min(k, |RoomAt(before, req, m)|)
  }

  /** The first time a node is chosen it is as it was at the start. */
  lemma {:induction false} ChosenFirst(ts: seq<Table>, at: seq<Name>, req: Request, j: nat, n: Name)
    requires Starts(ts, at, req) && j <= |at| && n in at[..j]
    ensures n in ts[0] && HasRoom(ts[0][n], req)
    decreases j
  {
    if n in at[..j - 1] {
      ChosenFirst(ts, at, req, j - 1, n);
    } else {
      assert at[..j] == at[..j - 1] + [at[j - 1]];
      StepsChange(ts, at, req.c, 1, j - 1);
    }
  }

  lemma RepeatedStart(ts: seq<Table>, at: seq<Name>, req: Request, m: int, j: nat)
    requires Starts(ts, at, req) && IsLeastRoom(ts[0], req, m) && j < |at| && at[j] in at[..j]
    ensures RoomAt(ts[0], req, m) <= Among(at)
  {
    StepsChange(ts, at, req.c, 1, j);
    ChosenFirst(ts, at, req, j, at[j]);
    forall n | n in RoomAt(ts[0], req, m) ensures n in Among(at) {
      assert n in Among(at[..j]);
    }
  }

  lemma RiseIsNodes(ts: seq<Table>, at: seq<Name>, c: Name)
    requires Steps(ts, at, c, 1)
    ensures ClusterCount(ts[|at|], c) == ClusterCount(ts[0], c) + |Among(at)|
  {
    StepsChange(ts, at, c, 1, |at|);
    assert at[..|at|] == at;
  }

  lemma AllLeastStarted(ts: seq<Table>, at: seq<Name>, req: Request, k: nat, m: int)
    requires Starts(ts, at, req) && IsLeastRoom(ts[0], req, m) && |Among(at)| < k && |at| <= k
    requires |at| < k ==> Full(ts[|at|], req)
    ensures RoomAt(ts[0], req, m) <= Among(at)
  {
    if |at| == k {
      var j := ChosenAgain(at);
      RepeatedStart(ts, at, req, m, j);
    } else {
      StepsChange(ts, at, req.c, 1, |at|);
      assert at[..|at|] == at;
      forall n | n in RoomAt(ts[0], req, m) ensures n in Among(at) {
        assert !HasRoom(ts[|at|][n], req);
      }
    }
  }

  /** How many of k wanted starts take effect at least; a run that is shorter found no room. */
  lemma StartsRise(ts: seq<Table>, at: seq<Name>, req: Request, k: nat)
    requires Starts(ts, at, req) && |at| <= k
    requires |at| < k ==> Full(ts[|at|], req)
    ensures Rises(ts[0], ts[|at|], req, k)
  {
    RiseIsNodes(ts, at, req.c);
    forall m | IsLeastRoom(ts[0], req, m) ensures |Among(at)| >= Min(k, |RoomAt(ts[0], req, m)|) {
      if |Among(at)| < k {
        AllLeastStarted(ts, at, req, k, m);
        SubsetSize(RoomAt(ts[0], req, m), Among(at));
      }
    }
  }

  /** If any node has room, some node with room plans the fewest instances of those. */
  lemma {:induction false} LeastRoomExists(t: Table, req: Request, n: Name) returns (m: int)
    requires n in t && HasRoom(t[n], req) && forall k | k in t :: Count(t[k], req.c) >= 0
    ensures IsLeastRoom(t, req, m)
    decreases Count(t[n], req.c)
  {
    if k :| k in t && HasRoom(t[k], req) && Count(t[k], req.c) < Count(t[n], req.c) {
      m := LeastRoomExists(t, req, k);
    } else {
      m := Count(t[n], req.c);
    }
  }

  /** At least one start takes effect when some node has room. */
  lemma RisesSome(before: Table, after: Table, req: Request, k: nat, n: Name)
    requires Rises(before, after, req, k) && k >= 1 && n in before && HasRoom(before[n], req)
    requires forall j | j in before :: Count(before[j], req.c) >= 0
    ensures ClusterCount(after, req.c) > ClusterCount(before, req.c)
  {
    var m := LeastRoomExists(before, req, n);
    var j :| j in before && HasRoom(before[j], req) && Count(before[j], req.c) == m;
    assert j in RoomAt(before, req, m);
    SubsetSize({j}, RoomAt(before, req, m));
  }

  ghost predicate StartsFrom(ts: seq<Table>, at: seq<Name>, before: Table, after: Table, req: Request, k: nat) {
    && Starts(ts, at, req) && ts[0] == before && ts[|at|] == after
    && |at| <= k && (|at| < k ==> Full(after, req))
  }

  /** A run of k starts, or of fewer that ends with no node having room. */
  ghost predicate StartTurn(before: Table, after: Table, req: Request, k: nat) {
    exists ts, at :: StartsFrom(ts, at, before, after, req, k)
  }

  lemma StepKeepsOther(before: Table, after: Table, n: Name, c: Name, delta: int, k: Name)
    requires IsTable(before) && Stepped(before, after, n, c, delta) && k != c
    ensures ClusterCount(after, k) == ClusterCount(before, k)
  {
    var ram :| SteppedAt(before, after, n, c, delta, ram);
    StoreStep(before, n, after[n], c, delta, ram);
  }

  /** Steps for one component leave the totals of all others alone. */
  lemma {:induction false} StepsKeepOthers(ts: seq<Table>, at: seq<Name>, c: Name, delta: int, i: nat, k: Name)
    requires Steps(ts, at, c, delta) && i <= |at| && k != c
    ensures ClusterCount(ts[i], k) == ClusterCount(ts[0], k)
    decreases i
  {
    if i > 0 {
      StepsKeepOthers(ts, at, c, delta, i - 1, k);
      StepsChange(ts, at, c, delta, i - 1);
      StepKeepsOther(ts[i - 1], ts[i], at[i - 1], c, delta, k);
    }
  }

  // ---------- room only shrinks ----------

  /** Starting instances of c takes memory and leaves all other counts alone. */
  ghost predicate Fuller(before: Table, after: Table, c: Name) {
    && SameNodes(before, after)
    && (forall n | n in before :: Ram(after[n]) >= Ram(before[n]))
    && forall n, k | n in before && k != c :: Count(after[n], k) == Count(before[n], k)
  }

  lemma FullStays(before: Table, after: Table, c: Name, req: Request)
    requires Fuller(before, after, c) && Full(before, req) && req.c != c
    ensures Full(after, req)
  {
    forall n | n in after ensures !HasRoom(after[n], req) {
      assert !HasRoom(before[n], req);
    }
  }
}

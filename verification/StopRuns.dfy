/** Which totals a run of planner stops can end with. */
module StopRuns {
  import opened ClusterTypes
  import opened Sums
  import opened Sizes
  import opened Placement
  import opened PlacementOps
  import opened Displacing
  import opened BestOption
  import opened PlanTable
  import opened PlanRuns

  // ---------- stopping on chosen nodes ----------

  /** The nodes ns have the most instances or one less, and those with the most come first. */
  ghost predicate TopsFirst(t: Table, c: Name, ns: seq<Name>, m: int) {
    && NoRepeats(ns)
    && forall i | 0 <= i < |ns| ::
        && ns[i] in t && Count(t[ns[i]], c) >= SecondMost(m)
        && (Count(t[ns[i]], c) == m || AtLeast(t, c, m) <= Among(ns[..i]))
  }

  /** Node a has the most instances left: it had and was not stopped on, or all that had were. */
  lemma MostLeft(t: Table, u: Table, at: set<Name>, c: Name, m: int, a: Name)
    requires NodesChanged(t, u, at, c, -1) && IsMost(t, c, m) && a in t
    requires (a !in at && Count(t[a], c) == m) || (AtLeast(t, c, m) <= at && Count(u[a], c) == m - 1)
    ensures IsMost(u, c, Count(u[a], c))
  {
    forall n | n in u ensures Count(u[n], c) <= Count(u[a], c) {
      assert n in t;
    }
  }

  lemma OneStop(t: Table, a: Name, c: Name) returns (t1: Table)
    requires IsTable(t) && a in t && c !in Targets(t[a]) && Count(t[a], c) >= 1
    ensures Stepped(t, t1, a, c, -1)
  {
    var p := StopClone(t[a], c);
    CloneAdjusts(t[a], c, -1, RamFor(t[a], c));
    t1 := t[a := p];
    assert SteppedAt(t, t1, a, c, -1, RamFor(t[a], c));
  }

  lemma AgainStop(t: Table, a: Name, c: Name)
    requires a in t && c in Targets(t[a]) && Distinct(t[a].targetCounts) && Count(t[a], c) >= 1
    ensures Stepped(t, t, a, c, -1)
  {
    assert t[a := t[a]] == t;
    assert SteppedAt(t, t, a, c, -1, 0);
  }

  /** The next stop is on a node that was not stopped on before. */
  lemma NextStop(ts: seq<Table>, at: seq<Name>, c: Name, m: int, a: Name) returns (next: Table)
    requires Stops(ts, at, c) && IsMost(ts[0], c, m) && m >= 1
    requires a in ts[0] && a !in at && Count(ts[0][a], c) >= SecondMost(m)
    requires Count(ts[0][a], c) == m || AtLeast(ts[0], c, m) <= Among(at)
    ensures Stops(ts + [next], at + [a], c)
  {
    var last := ts[|at|];
    StepsChange(ts, at, c, -1, |at|);
    assert at[..|at|] == at && last[a] == ts[0][a];
    if Count(ts[0][a], c) != m {
      assert a !in AtLeast(ts[0], c, m);
    }
    MostLeft(ts[0], last, Among(at), c, m, a);
    next := OneStop(last, a, c);
    StopsMore(ts, at, next, a, c);
  }

  /** One stop on each of the nodes, in their order. */
  lemma {:induction false} StopOnEach(t: Table, c: Name, ns: seq<Name>, m: int, i: nat) returns (ts: seq<Table>)
    requires IsTable(t) && Untouched(t, c) && IsMost(t, c, m) && m >= 1 && TopsFirst(t, c, ns, m) && i <= |ns|
    ensures Stops(ts, ns[..i], c) && ts[0] == t
    decreases i
  {
    if i == 0 {
      ts := [t];
    } else {
      ts := StopOnEach(t, c, ns, m, i - 1);
      var next := NextStop(ts, ns[..i - 1], c, m, ns[i - 1]);
      ts := ts + [next];
      assert ns[..i] == ns[..i - 1] + [ns[i - 1]];
    }
  }

  /** One more stop on a node that was stopped on, absorbed. */
  lemma StopOnceMore(ts: seq<Table>, at: seq<Name>, c: Name, a: Name)
    requires Stops(ts, at, c) && a in Among(at) && a in ts[|at|]
    requires IsMost(ts[|at|], c, Count(ts[|at|][a], c)) && Count(ts[|at|][a], c) >= 1
    ensures Stops(ts + [ts[|at|]], at + [a], c)
  {
    StepsChange(ts, at, c, -1, |at|);
    assert at[..|at|] == at;
    AgainStop(ts[|at|], a, c);
    StopsMore(ts, at, ts[|at|], a, c);
  }

  /** Further stops on a node that was stopped on, all absorbed. */
  lemma {:induction false} StopAgain(ts: seq<Table>, at: seq<Name>, c: Name, a: Name, j: nat)
    returns (ts': seq<Table>, at': seq<Name>)
    requires Stops(ts, at, c) && a in Among(at) && a in ts[|at|]
    requires IsMost(ts[|at|], c, Count(ts[|at|][a], c)) && Count(ts[|at|][a], c) >= 1
    ensures Stops(ts', at', c) && ts'[0] == ts[0] && |at'| == |at| + j && ts'[|at'|] == ts[|at|]
    decreases j
  {
    ts', at' := ts, at;
    if j > 0 {
      StopOnceMore(ts, at, c, a);
      MoreAmong(at, a);
      ts', at' := StopAgain(ts + [ts[|at|]], at + [a], c, a, j - 1);
    }
  }

  // ---------- which totals are possible ----------

  lemma NothingToStop(t: Table, c: Name)
    requires Most(t, c) == 0
    ensures NoneLeft(t, c)
  {
    forall n | n in t ensures Count(t[n], c) <= 0 {
      if Count(t[n], c) > 0 {
        var m := MostExists(t, c, n);
        MostIs(t, c, m);
      }
    }
  }

  /** Nodes to stop on for a fall by f. */
  lemma ChooseNodes(t: Table, c: Name, m: int, f: nat) returns (ns: seq<Name>)
    requires IsMost(t, c, m) && m >= 1 && f <= |AtLeast(t, c, SecondMost(m))|
    ensures TopsFirst(t, c, ns, m) && |ns| == f
    ensures |AtLeast(t, c, m)| <= f ==> AtLeast(t, c, m) <= Among(ns)
  {
    var tops, near := AtLeast(t, c, m), AtLeast(t, c, SecondMost(m));
    var s := Enumerate(tops);
    var r := Enumerate(near - tops);
    assert near == tops + (near - tops);
    ns := PartsInOrder(s, r, f);
    AreTopsFirst(t, c, ns, m);
  }

  /** The first f elements of two sequences without common elements. */
  lemma PartsInOrder(s: seq<Name>, r: seq<Name>, f: nat) returns (ns: seq<Name>)
    requires NoRepeats(s) && NoRepeats(r) && Among(s) !! Among(r) && f <= |s| + |r|
    ensures |ns| == f && NoRepeats(ns) && (|s| <= f ==> Among(s) <= Among(ns))
    ensures forall i | 0 <= i < f :: ns[i] in Among(s) + Among(r) && (ns[i] in Among(s) || Among(s) <= Among(ns[..i]))
  {
    ns := (s + r)[..f];
    NoneTwice(s, r, f);
    forall i | 0 <= i < f ensures ns[i] in Among(s) + Among(r) && (ns[i] in Among(s) || Among(s) <= Among(ns[..i])) {
      if i >= |s| {
        assert ns[i] == r[i - |s|];
        FirstPart(s, r, i);
        assert ns[..i] == (s + r)[..i];
      }
    }
    if |s| <= f {
      FirstPart(s, r, f);
    }
  }

  lemma FirstPart(s: seq<Name>, r: seq<Name>, i: nat)
    requires |s| <= i <= |s + r|
    ensures Among(s) <= Among((s + r)[..i])
  {
    assert (s + r)[..i] == s + r[..i - |s|];
  }

  lemma AreTopsFirst(t: Table, c: Name, ns: seq<Name>, m: int)
    requires IsMost(t, c, m) && NoRepeats(ns)
    requires forall i | 0 <= i < |ns| ::
      ns[i] in AtLeast(t, c, SecondMost(m)) && (ns[i] in AtLeast(t, c, m) || AtLeast(t, c, m) <= Among(ns[..i]))
    ensures TopsFirst(t, c, ns, m)
  {
  }

  lemma NoneTwice(s: seq<Name>, r: seq<Name>, f: nat)
    requires NoRepeats(s) && NoRepeats(r) && Among(s) !! Among(r) && f <= |s + r|
    ensures NoRepeats((s + r)[..f])
  {
    forall i, j | 0 <= i < |s| && 0 <= j < |r| ensures s[i] != r[j] {
      assert s[i] in Among(s) && r[j] in Among(r);
    }
  }

  /** Any number of stops within the bounds can be the number that takes effect. */
  lemma FallPossible(t: Table, c: Name, k: nat, f: nat) returns (after: Table)
    requires IsTable(t) && Untouched(t, c) && Min(k, Topmost(t, c)) <= f <= Min(k, NearTop(t, c))
    ensures StopTurn(t, after, c, k) && ClusterCount(after, c) == ClusterCount(t, c) - f
  {
    var m := Most(t, c);
    if m == 0 {
      NothingToStop(t, c);
      after := t;
      assert StopsFrom([t], [], t, t, c, k);
    } else {
      var ns := ChooseNodes(t, c, m, f);
      var ts := StopOnEach(t, c, ns, m, f);
      assert ns[..f] == ns;
      DistinctCount(ns);
      FallIsNodes(ts, ns, c);
      after := ts[f];
      RestAbsorbed(ts, ns, c, m, k);
    }
  }

  /** When all nodes with the most were stopped on, the remaining stops change nothing. */
  lemma RestAbsorbed(ts: seq<Table>, at: seq<Name>, c: Name, m: int, k: nat)
    requires Stops(ts, at, c) && IsMost(ts[0], c, m) && m >= 1 && |at| <= k
    requires |at| < k ==> AtLeast(ts[0], c, m) <= Among(at)
    ensures StopTurn(ts[0], ts[|at|], c, k)
  {
    if |at| == k {
      assert StopsFrom(ts, at, ts[0], ts[|at|], c, k);
    } else {
      StepsChange(ts, at, c, -1, |at|);
      assert at[..|at|] == at;
      if m == 1 {
        assert NoneLeft(ts[|at|], c);
        assert StopsFrom(ts, at, ts[0], ts[|at|], c, k);
      } else {
        var a :| a in ts[0] && Count(ts[0][a], c) == m;
        assert a in AtLeast(ts[0], c, m);
        MostLeft(ts[0], ts[|at|], Among(at), c, m, a);
        var ts', at' := StopAgain(ts, at, c, a, k - |at|);
        assert StopsFrom(ts', at', ts[0], ts[|at|], c, k);
      }
    }
  }

  lemma TurnFalls(before: Table, after: Table, c: Name, k: nat)
    requires StopTurn(before, after, c, k)
    ensures Falls(before, after, c, k)
  {
    var ts, at :| StopsFrom(ts, at, before, after, c, k);
    StopsFall(ts, at, c, k);
  }

  /** Out of k wanted stops f can be the number that takes effect exactly if f lies between the
      nodes with the most instances and those with the most or one less, both up to k. */
  lemma FallsExactly(t: Table, c: Name, k: nat, f: int)
    requires IsTable(t) && Untouched(t, c)
    ensures (exists after :: StopTurn(t, after, c, k) && ClusterCount(after, c) == ClusterCount(t, c) - f)
       <==> Min(k, Topmost(t, c)) <= f <= Min(k, NearTop(t, c))
  {
    if after :| StopTurn(t, after, c, k) && ClusterCount(after, c) == ClusterCount(t, c) - f {
      TurnFalls(t, after, c, k);
    }
    if Min(k, Topmost(t, c)) <= f <= Min(k, NearTop(t, c)) {
      var after := FallPossible(t, c, k, f);
    }
  }

  lemma TopWithinNear(t: Table, c: Name)
    ensures Topmost(t, c) <= NearTop(t, c)
  {
    if Most(t, c) > 0 {
      SubsetSize(AtLeast(t, c, Most(t, c)), AtLeast(t, c, SecondMost(Most(t, c))));
    }
  }

  /** Scaling down by k reaches its target in every run exactly if k nodes have the most
      instances, and in some run exactly if k nodes have the most or one less. */
  lemma TargetReached(t: Table, c: Name, k: nat)
    requires IsTable(t) && Untouched(t, c)
    ensures (forall after | StopTurn(t, after, c, k) :: ClusterCount(after, c) == ClusterCount(t, c) - k)
       <==> Topmost(t, c) >= k
    ensures (exists after :: StopTurn(t, after, c, k) && ClusterCount(after, c) == ClusterCount(t, c) - k)
       <==> NearTop(t, c) >= k
  {
    TopWithinNear(t, c);
    FallsExactly(t, c, k, k);
    if Topmost(t, c) < k {
      var after := FallPossible(t, c, k, Topmost(t, c));
    }
    forall after | StopTurn(t, after, c, k)
      ensures Topmost(t, c) >= k ==> ClusterCount(after, c) == ClusterCount(t, c) - k
    {
      TurnFalls(t, after, c, k);
    }
  }

  // ---------- a short stop ----------

  /** Three instances on node a, one on node b, two to stop: every run ends at three instead of
      two, and there is such a run. */
  lemma ShortStop(t: Table, a: Name, b: Name, c: Name)
    requires IsTable(t) && Untouched(t, c) && t.Keys == {a, b} && a != b
    requires Count(t[a], c) == 3 && Count(t[b], c) == 1
    ensures ClusterCount(t, c) == 4
    ensures exists after :: StopTurn(t, after, c, 2)
    ensures forall after | StopTurn(t, after, c, 2) :: ClusterCount(after, c) == 3
  {
    var counts := CountByNode(t, c);
    SumRemove(counts, a);
    assert (counts - {a}).Keys == {b};
    SumRemove(counts - {a}, b);
    assert counts - {a} - {b} == map[];
    OnTop(t, a, b, c);
    var after := FallPossible(t, c, 2, 1);
    forall after | StopTurn(t, after, c, 2) ensures ClusterCount(after, c) == 3 {
      TurnFalls(t, after, c, 2);
    }
  }

  lemma OnTop(t: Table, a: Name, b: Name, c: Name)
    requires t.Keys == {a, b} && a != b && Count(t[a], c) == 3 && Count(t[b], c) == 1
    ensures Topmost(t, c) == 1 && NearTop(t, c) == 1
  {
    assert a in t && b in t;
    MostIs(t, c, 3);
    assert AtLeast(t, c, 3) == {a} && AtLeast(t, c, 2) == {a};
  }
}

/** Starting the containers of a "series" or "seriesfirst" version: any number of nodes, one
    converger each, over one role row and one deploy counter. */
module StartLock {
  import opened RoleLock
  import opened LeaseProtocol

  datatype Mode = Series | SeriesFirst

  /** Where a converger is between planning and having started its containers. */
  datatype Phase =
    | Planned                   // the next step is a locked start: any of a "series" plan, else the first
    | Acquiring                 // read a deploy count of 0 and tries for the role
    | Starting(locked: bool)    // the container of the first start is being started
    | Posting(locked: bool)     // counted the start, the role is still to be released
    | Proceeding                // the first start is done, later starts take no lock
    | StartingMore              // the container of a later start is being started

  datatype World = World(lease: State, count: nat, phase: Proc -> Phase)

  /** One converger per node. */
  ghost predicate OnePerNode(cf: Config) {
    ValidConfig(cf) && forall p, q :: cf.nodeOf(p) == cf.nodeOf(q) ==> p == q
  }

  ghost predicate Start(cf: Config, w: World) {
    Init(cf, w.lease) && w.count == 0 && forall p :: w.phase(p) == Planned
  }

  ghost predicate Turns(w: World, v: World, p: Proc, phase: Phase) {
    v.phase(p) == phase && forall q | q != p :: v.phase(q) == w.phase(q)
  }

  datatype Action =
    | ReadCount(p: Proc)        // head of the acquire loop, where "seriesfirst" reads the deploy count
    | Protocol(p: Proc, l: Label) // one statement of the acquire-or-renew protocol
    | Fail(p: Proc)             // the container did not start; the plan is aborted
    | Count(p: Proc)            // the deploy count is incremented
    | CountFails(p: Proc)       // the increment fails; the error is only logged
    | Unlock(p: Proc)           // the role is released if it was acquired
    | StartMore(p: Proc)        // a later start of the same "seriesfirst" plan, without a lock
    | CountMore(p: Proc)        // and its increment
    | CountMoreFails(p: Proc)   // which may fail as well
    | Replan(p: Proc)           // the plan is done, or its next start is a locked one too
    | Time

  /** The protocol statements process p itself may execute. */
  predicate Own(l: Label, p: Proc) {
    match l
    case DoRead(q) => q == p
    case DoSample(q, _) => q == p
    case DoGiveUp(q) => q == p
    case DoSkip(q) => q == p
    case DoUpdate(q) => q == p
    case DoInsert(q) => q == p
    case DoRelease(_) => false
    case DoTick => false
  }

  /** The statement granted the role to p. */
  ghost predicate Granted(s: State, t: State, p: Proc, l: Label) {
    p in t.leases && t.row.Some? && ((l == DoUpdate(p) && t.pc(p) == Idle) || (l == DoInsert(p) && s.row == None))
  }

  ghost predicate Act(cf: Config, mode: Mode, w: World, v: World, a: Action) {
    match a
    case ReadCount(p) =>
      && w.phase(p) == Planned && v.lease == w.lease && v.count == w.count
      && Turns(w, v, p, if mode == SeriesFirst && w.count > 0 then Starting(false) else Acquiring)
    case Protocol(p, l) =>
      && w.phase(p) == Acquiring && Own(l, p) && Step(cf, w.lease, v.lease, l) && v.count == w.count
      && (if Granted(w.lease, v.lease, p, l) then Turns(w, v, p, Starting(true))
          else Turns(w, v, p, Acquiring) || (v.lease.pc(p) == Idle && Turns(w, v, p, Planned)))
    case Fail(p) =>
      && (w.phase(p).Starting? || w.phase(p).StartingMore?)
      && v.lease == w.lease && v.count == w.count && Turns(w, v, p, Planned)
    case Count(p) =>
      && w.phase(p).Starting? && v.lease == w.lease && v.count == w.count + 1
      && Turns(w, v, p, Posting(w.phase(p).locked))
    case CountFails(p) =>
      && w.phase(p).Starting? && v.lease == w.lease && v.count == w.count && Turns(w, v, p, Proceeding)
    case Unlock(p) =>
      && w.phase(p).Posting? && v.count == w.count && Turns(w, v, p, Proceeding)
      && (if w.phase(p).locked then Release(cf, w.lease, v.lease, cf.nodeOf(p)) else v.lease == w.lease)
    case StartMore(p) =>
      && mode == SeriesFirst
      && w.phase(p) == Proceeding && v.lease == w.lease && v.count == w.count && Turns(w, v, p, StartingMore)
    case CountMore(p) =>
      w.phase(p) == StartingMore && v.lease == w.lease && v.count == w.count + 1 && Turns(w, v, p, Proceeding)
    case CountMoreFails(p) =>
      w.phase(p) == StartingMore && v.lease == w.lease && v.count == w.count && Turns(w, v, p, Proceeding)
    case Replan(p) =>
      w.phase(p) == Proceeding && v.lease == w.lease && v.count == w.count && Turns(w, v, p, Planned)
    case Time =>
      Tick(cf, w.lease, v.lease) && v.count == w.count && forall q :: v.phase(q) == w.phase(q)
  }

  /** Started containers come up before the lease runs out. */
  ghost predicate Timely(cf: Config, w: World) {
    forall p :: w.phase(p) == Starting(true) ==> Holds(cf, w.lease, p)
  }

  ghost predicate History(cf: Config, mode: Mode, worlds: seq<World>, actions: seq<Action>) {
    && |worlds| == |actions| + 1 && Start(cf, worlds[0])
    && (forall i | 0 <= i < |actions| :: Act(cf, mode, worlds[i], worlds[i + 1], actions[i]))
    && (forall i | 0 <= i < |worlds| :: Timely(cf, worlds[i]))
  }

  /** An increment of the deploy count fails, after the first or a later start of a plan. */
  predicate CountingFails(a: Action) { a.CountFails? || a.CountMoreFails? }

  /** Every increment of the deploy count that fails finds the version deployed already. */
  ghost predicate FailuresHarmless(worlds: seq<World>, actions: seq<Action>)
    requires |worlds| == |actions| + 1
  {
    forall i | 0 <= i < |actions| && CountingFails(actions[i]) :: worlds[i].count > 0
  }

  // ---------- safety ----------

  /** Whoever runs without the lock does so because the version has been deployed. */
  ghost predicate UnlockedOnlyDeployed(w: World) {
    forall p :: w.phase(p) != Planned && w.phase(p) != Acquiring && w.phase(p) != Starting(true) ==> w.count > 0
  }

  ghost predicate IsStarting(w: World, p: Proc) { w.phase(p).Starting? || w.phase(p).StartingMore? }

  /** With one process to a node every duration is allowed. */
  lemma AlwaysSteady(cf: Config, l: Label)
    requires OnePerNode(cf)
    ensures Steady(cf, l)
  {
  }

  /** The protocol part of every history is itself a run of the lease protocol. */
  lemma ActKeepsInv(cf: Config, mode: Mode, w: World, v: World, a: Action)
    requires OnePerNode(cf) && Inv(cf, w.lease) && Act(cf, mode, w, v, a)
    ensures Inv(cf, v.lease)
  {
    match a
    case Protocol(p, l) =>
      AlwaysSteady(cf, l);
      StepKeepsInv(cf, w.lease, v.lease, l);
    case Unlock(p) =>
      if w.phase(p).locked {
        ReleaseKeepsInv(cf, w.lease, v.lease, cf.nodeOf(p));
      }
    case Time => TickKeepsInv(cf, w.lease, v.lease);
    case _ =>
  }

  lemma {:induction false} HistoryKeepsInv(cf: Config, mode: Mode, worlds: seq<World>, actions: seq<Action>, i: nat)
    requires OnePerNode(cf) && History(cf, mode, worlds, actions) && i < |worlds|
    ensures Inv(cf, worlds[i].lease)
    decreases i
  {
    if i > 0 {
      HistoryKeepsInv(cf, mode, worlds, actions, i - 1);
      ActKeepsInv(cf, mode, worlds[i - 1], worlds[i], actions[i - 1]);
    }
  }

  /** In every history at most one node is between acquiring the start lock and counting its start. */
  lemma AtMostOneStarter(cf: Config, mode: Mode, worlds: seq<World>, actions: seq<Action>, i: nat, p: Proc, q: Proc)
    requires OnePerNode(cf) && History(cf, mode, worlds, actions) && i < |worlds|
    requires worlds[i].phase(p) == Starting(true) && worlds[i].phase(q) == Starting(true)
    ensures p == q
  {
    HistoryKeepsInv(cf, mode, worlds, actions, i);
    var w := worlds[i];
    assert Timely(cf, w);
    assert OwnsRow(cf, w.lease, p) && OwnsRow(cf, w.lease, q);
  }

  lemma {:induction false} SeriesAlwaysLocks(cf: Config, worlds: seq<World>, actions: seq<Action>, i: nat, p: Proc)
    requires History(cf, Series, worlds, actions) && i < |worlds|
    ensures !worlds[i].phase(p).StartingMore? && worlds[i].phase(p) != Starting(false)
    decreases i
  {
    if i > 0 {
      SeriesAlwaysLocks(cf, worlds, actions, i - 1, p);
      assert Act(cf, Series, worlds[i - 1], worlds[i], actions[i - 1]);
    }
  }

  /** Under "series" at most one node is starting a container at any time, whatever the deploy
      count and whether or not increments succeed. */
  lemma SeriesStartsAlone(cf: Config, worlds: seq<World>, actions: seq<Action>, i: nat, p: Proc, q: Proc)
    requires OnePerNode(cf) && History(cf, Series, worlds, actions) && i < |worlds|
    requires IsStarting(worlds[i], p) && IsStarting(worlds[i], q)
    ensures p == q && Holds(cf, worlds[i].lease, p)
  {
    SeriesAlwaysLocks(cf, worlds, actions, i, p);
    SeriesAlwaysLocks(cf, worlds, actions, i, q);
    AtMostOneStarter(cf, Series, worlds, actions, i, p, q);
    assert Timely(cf, worlds[i]);
  }

  lemma ActKeepsUnlocked(cf: Config, mode: Mode, w: World, v: World, a: Action)
    requires Act(cf, mode, w, v, a) && UnlockedOnlyDeployed(w) && (CountingFails(a) ==> w.count > 0)
    ensures UnlockedOnlyDeployed(v)
  {
    forall p | v.phase(p) != Planned && v.phase(p) != Acquiring && v.phase(p) != Starting(true)
      ensures v.count > 0
    {
      assert w.phase(p) != Planned && w.phase(p) != Acquiring && w.phase(p) != Starting(true) ==> w.count > 0;
    }
  }

  /** If no increment fails at count 0, every start without the lock, the first or a later one of
      a plan, is a start of a version already deployed. */
  lemma {:induction false} UnlockedStartsAreDeployed(cf: Config, mode: Mode, worlds: seq<World>,
                                                     actions: seq<Action>, i: nat)
    requires History(cf, mode, worlds, actions) && FailuresHarmless(worlds, actions) && i < |worlds|
    ensures UnlockedOnlyDeployed(worlds[i])
    decreases i
  {
    if i > 0 {
      UnlockedStartsAreDeployed(cf, mode, worlds, actions, i - 1);
      ActKeepsUnlocked(cf, mode, worlds[i - 1], worlds[i], actions[i - 1]);
    }
  }

  /** And only then: a history keeps the guarantee throughout exactly if every increment that
      fails does so at a positive count. */
  lemma DeployedIffFailuresHarmless(cf: Config, mode: Mode, worlds: seq<World>, actions: seq<Action>)
    requires History(cf, mode, worlds, actions)
    ensures (forall i | 0 <= i < |worlds| :: UnlockedOnlyDeployed(worlds[i])) <==> FailuresHarmless(worlds, actions)
  {
    if FailuresHarmless(worlds, actions) {
      forall i | 0 <= i < |worlds| ensures UnlockedOnlyDeployed(worlds[i]) {
        UnlockedStartsAreDeployed(cf, mode, worlds, actions, i);
      }
    }
    if forall i | 0 <= i < |worlds| :: UnlockedOnlyDeployed(worlds[i]) {
      forall i | 0 <= i < |actions| && CountingFails(actions[i]) ensures worlds[i].count > 0 {
        assert Act(cf, mode, worlds[i], worlds[i + 1], actions[i]);
        assert worlds[i + 1].phase(actions[i].p) == Proceeding;
        assert UnlockedOnlyDeployed(worlds[i + 1]);
      }
    }
  }

  /** Hence while the version counts as not deployed, all starting convergers are one: the holder. */
  lemma FirstStartIsAlone(cf: Config, mode: Mode, worlds: seq<World>, actions: seq<Action>, i: nat, p: Proc, q: Proc)
    requires OnePerNode(cf) && History(cf, mode, worlds, actions) && FailuresHarmless(worlds, actions) && i < |worlds|
    requires worlds[i].count == 0 && IsStarting(worlds[i], p) && IsStarting(worlds[i], q)
    ensures p == q && worlds[i].phase(p) == Starting(true) && Holds(cf, worlds[i].lease, p)
  {
    UnlockedStartsAreDeployed(cf, mode, worlds, actions, i);
    assert worlds[i].phase(p) == Starting(true) && worlds[i].phase(q) == Starting(true);
    AtMostOneStarter(cf, mode, worlds, actions, i, p, q);
    assert Timely(cf, worlds[i]);
  }

  /** The first increment of the counter is made by a converger holding the lock. */
  lemma FirstCountHoldsLock(cf: Config, mode: Mode, worlds: seq<World>, actions: seq<Action>, i: nat)
    requires OnePerNode(cf) && History(cf, mode, worlds, actions) && FailuresHarmless(worlds, actions) && i < |actions|
    requires worlds[i].count == 0 && worlds[i + 1].count > 0
    ensures actions[i].Count? && worlds[i].phase(actions[i].p) == Starting(true)
    ensures Holds(cf, worlds[i].lease, actions[i].p)
  {
    UnlockedStartsAreDeployed(cf, mode, worlds, actions, i);
    assert Act(cf, mode, worlds[i], worlds[i + 1], actions[i]);
    assert Timely(cf, worlds[i]);
  }

  // ---------- a failed increment ----------

  function PhaseAt(f: Proc -> Phase, p: Proc, phase: Phase): Proc -> Phase {
    (q: Proc) => if q == p then phase else f(q)
  }

  function AllPlanned(): Proc -> Phase { (p: Proc) => Planned }

  /** Process p starts the first container, fails to count it, and is starting the next one. */
  function UncountedStart(cf: Config, p: Proc): seq<World> {
    var d, row := cf.skew, Some(Row(cf.nodeOf(p), cf.skew));
    var acquiring := PhaseAt(AllPlanned(), p, Acquiring);
    var free, held := State(None, StoppedClock(), AllIdle(), map[]), State(row, StoppedClock(), AllIdle(), map[p := d]);
    [ World(free, 0, AllPlanned()),
      World(free, 0, acquiring),
      World(free.(pc := At(AllIdle(), p, HasRead(None))), 0, acquiring),
      World(free.(pc := At(AllIdle(), p, HasSampled(None, 0, d))), 0, acquiring),
      World(free.(pc := At(AllIdle(), p, MustInsert(0, d))), 0, acquiring),
      World(held, 0, PhaseAt(AllPlanned(), p, Starting(true))),
      World(held, 0, PhaseAt(AllPlanned(), p, Proceeding)),
      World(held, 0, PhaseAt(AllPlanned(), p, StartingMore)) ]
  }

  /** The lease of p runs out, and process q starts the first container once more. */
  function SecondFirstStart(cf: Config, p: Proc, q: Proc): seq<World> {
    var d, row := cf.skew, Some(Row(cf.nodeOf(p), cf.skew));
    var clock: NodeId -> int := _ => d + 1;
    var more := PhaseAt(AllPlanned(), p, StartingMore);
    var expired := State(row, clock, AllIdle(), map[p := d]);
    [ World(expired, 0, more),
      World(expired, 0, PhaseAt(more, q, Acquiring)),
      World(expired.(pc := At(AllIdle(), q, HasRead(row))), 0, PhaseAt(more, q, Acquiring)),
      World(expired.(pc := At(AllIdle(), q, HasSampled(row, d + 1, d))), 0, PhaseAt(more, q, Acquiring)),
      World(State(Some(Row(cf.nodeOf(q), d + 1 + d)), clock, AllIdle(), map[p := d][q := d + 1 + d]), 0,
            PhaseAt(more, q, Starting(true))) ]
  }

  function UncountedActions(cf: Config, p: Proc, q: Proc): seq<Action> {
    [ ReadCount(p), Protocol(p, DoRead(p)), Protocol(p, DoSample(p, cf.skew)), Protocol(p, DoSkip(p)),
      Protocol(p, DoInsert(p)), CountFails(p), StartMore(p), Time,
      ReadCount(q), Protocol(q, DoRead(q)), Protocol(q, DoSample(q, cf.skew)), Protocol(q, DoUpdate(q)) ]
  }

  lemma UncountedStartSteps(cf: Config, p: Proc)
    requires OnePerNode(cf)
    ensures var w, a := UncountedStart(cf, p), UncountedActions(cf, p, p);
            && Start(cf, w[0]) && (forall i | 0 <= i < 8 :: Timely(cf, w[i]))
            && forall i | 0 <= i < 7 :: Act(cf, SeriesFirst, w[i], w[i + 1], a[i])
  {
    var w, a := UncountedStart(cf, p), UncountedActions(cf, p, p);
    assert Act(cf, SeriesFirst, w[0], w[1], a[0]);
    assert Act(cf, SeriesFirst, w[1], w[2], a[1]);
    assert Act(cf, SeriesFirst, w[2], w[3], a[2]);
    assert Act(cf, SeriesFirst, w[3], w[4], a[3]);
    assert Act(cf, SeriesFirst, w[4], w[5], a[4]);
    assert Act(cf, SeriesFirst, w[5], w[6], a[5]);
    assert Act(cf, SeriesFirst, w[6], w[7], a[6]);
  }

  lemma SecondFirstStartSteps(cf: Config, p: Proc, q: Proc)
    requires OnePerNode(cf) && p != q
    ensures var w, a := SecondFirstStart(cf, p, q), UncountedActions(cf, p, q);
            && Act(cf, SeriesFirst, UncountedStart(cf, p)[7], w[0], a[7])
            && (forall i | 0 <= i < 5 :: Timely(cf, w[i]))
            && forall i | 0 <= i < 4 :: Act(cf, SeriesFirst, w[i], w[i + 1], a[8 + i])
  {
    var w, a := SecondFirstStart(cf, p, q), UncountedActions(cf, p, q);
    assert Act(cf, SeriesFirst, w[0], w[1], a[8]);
    assert Act(cf, SeriesFirst, w[1], w[2], a[9]);
    assert Act(cf, SeriesFirst, w[2], w[3], a[10]);
    assert Act(cf, SeriesFirst, w[3], w[4], a[11]);
  }

  /** A failed increment is only logged, and then the guarantee is lost: there is a history in
      which one node starts a second container without the lock while another starts its first,
      and the version still counts as not deployed. */
  lemma FailedCountBreaks(cf: Config, p: Proc, q: Proc)
    requires OnePerNode(cf) && p != q
    ensures var worlds, actions := UncountedStart(cf, p) + SecondFirstStart(cf, p, q), UncountedActions(cf, p, q);
            && History(cf, SeriesFirst, worlds, actions) && !FailuresHarmless(worlds, actions)
            && worlds[12].count == 0
            && worlds[12].phase(p) == StartingMore && worlds[12].phase(q) == Starting(true)
  {
    var first, second, actions := UncountedStart(cf, p), SecondFirstStart(cf, p, q), UncountedActions(cf, p, q);
    var worlds := first + second;
    UncountedStartSteps(cf, p);
    SecondFirstStartSteps(cf, p, q);
    forall i | 0 <= i < |actions| ensures Act(cf, SeriesFirst, worlds[i], worlds[i + 1], actions[i]) {
      if i < 7 {
        assert worlds[i] == first[i] && worlds[i + 1] == first[i + 1] && actions[i] == UncountedActions(cf, p, p)[i];
      } else if i > 7 {
        assert worlds[i] == second[i - 8] && worlds[i + 1] == second[i - 8 + 1] && actions[i] == actions[8 + (i - 8)];
      }
    }
    assert actions[5].CountFails? && worlds[5].count == 0;
  }

  // ---------- a failed start ----------

  lemma ActKeepsLease(cf: Config, mode: Mode, w: World, v: World, a: Action, p: Proc)
    requires OnePerNode(cf) && Act(cf, mode, w, v, a) && p in w.lease.leases
    requires w.phase(p) != Posting(true) && v.phase(p) != Starting(true)
    ensures p in v.lease.leases && v.lease.leases[p] == w.lease.leases[p]
    ensures w.phase(p) != Starting(true) ==> v.phase(p) != Posting(true)
  {
  }

  lemma {:induction false} LeaseStays(cf: Config, mode: Mode, worlds: seq<World>, actions: seq<Action>, i: nat,
                                      p: Proc, j: nat)
    requires OnePerNode(cf) && History(cf, mode, worlds, actions) && i < j < |worlds|
    requires actions[i] == Fail(p) && worlds[i].phase(p) == Starting(true)
    requires forall k | i < k <= j :: worlds[k].phase(p) != Starting(true)
    ensures p in worlds[i].lease.leases && p in worlds[j].lease.leases
    ensures worlds[j].lease.leases[p] == worlds[i].lease.leases[p] && worlds[j].phase(p) != Posting(true)
    decreases j
  {
    assert Timely(cf, worlds[i]);
    if j == i + 1 {
      assert Act(cf, mode, worlds[i], worlds[j], actions[i]);
    } else {
      LeaseStays(cf, mode, worlds, actions, i, p, j - 1);
      ActKeepsLease(cf, mode, worlds[j - 1], worlds[j], actions[j - 1], p);
    }
  }

  /** A failed start does not give the role back. Until the node acquires it again the lease stays
      as it was, and until it runs out, less the skew, no node is starting under the lock. */
  lemma FailedStartKeepsLock(cf: Config, mode: Mode, worlds: seq<World>, actions: seq<Action>, i: nat, p: Proc,
                             j: nat, q: Proc)
    requires OnePerNode(cf) && History(cf, mode, worlds, actions) && i < j < |worlds|
    requires actions[i] == Fail(p) && worlds[i].phase(p) == Starting(true)
    requires forall k | i < k <= j :: worlds[k].phase(p) != Starting(true)
    ensures p in worlds[i].lease.leases && p in worlds[j].lease.leases
    ensures worlds[j].lease.leases[p] == worlds[i].lease.leases[p]
    ensures worlds[j].lease.clock(cf.nodeOf(p)) + cf.skew <= worlds[i].lease.leases[p] ==>
        OwnsRow(cf, worlds[j].lease, p) && worlds[j].phase(q) != Starting(true)
  {
    LeaseStays(cf, mode, worlds, actions, i, p, j);
    HistoryKeepsInv(cf, mode, worlds, actions, j);
    assert Timely(cf, worlds[j]);
  }
}

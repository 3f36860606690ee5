/** The role lock table: one row per role, naming the node that holds it and until when. */
module RoleLock {
  type NodeId = string
  type RoleId = string

  datatype Option<+T> = None | Some(value: T)

  datatype Row = Row(nodeId: NodeId, expiresAt: int)

  /** The row after a conditional update by node me that had seen expiry seenExpires: it applies
      to a row that expired before now, and to me's own row if its expiry is as seen. */
  predicate UpdateApplies(row: Option<Row>, me: NodeId, now: int, seenExpires: int) {
    row.Some? && (row.value.expiresAt < now || (row.value.nodeId == me && row.value.expiresAt == seenExpires))
  }

  /** The row is held by another node and has not expired. */
  predicate HeldByOther(row: Option<Row>, me: NodeId, now: int) {
    row.Some? && row.value.expiresAt > now && row.value.nodeId != me
  }

  datatype Outcome = Granted | Denied(holder: NodeId) | Retry

  class RoleTable {
    var rows: map<RoleId, Row>

    constructor ()
      ensures rows == map[]
    {
      rows := map[];
    }

    function RowOf(role: RoleId): Option<Row>
      reads this
    {
      if role in rows then Some(rows[role]) else None
    }

    method Update(role: RoleId, me: NodeId, now: int, seenExpires: int, expiresAt: int) returns (count: nat)
      modifies this
      ensures count == if UpdateApplies(old(RowOf(role)), me, now, seenExpires) then 1 else 0
      ensures count == 1 <==>
          (role in old(rows)
           && (old(rows)[role].expiresAt < now
               || (old(rows)[role].nodeId == me && old(rows)[role].expiresAt == seenExpires)))
      ensures rows == if count == 1 then old(rows)[role := Row(me, expiresAt)] else old(rows)
    {
      if role in rows
          && (rows[role].expiresAt < now || (rows[role].nodeId == me && rows[role].expiresAt == seenExpires)) {
        rows := rows[role := Row(me, expiresAt)];
        return 1;
      }
      return 0;
    }

    method Insert(role: RoleId, me: NodeId, expiresAt: int) returns (ok: bool)
      modifies this
      ensures ok == (role !in old(rows))
      ensures rows == if ok then old(rows)[role := Row(me, expiresAt)] else old(rows)
    {
      if role in rows {
        return false;
      }
      rows := rows[role := Row(me, expiresAt)];
      return true;
    }

    /** One attempt, running alone: granted unless another node's row has not expired; a row of
        another node expiring this very instant can neither be denied nor taken over. */
    method AcquireOrRenewRoleOnce(role: RoleId, me: NodeId, lockDur: int, now: int) returns (r: Outcome)
      modifies this
      ensures var row := old(RowOf(role));
              r == if row.Some? && row.value.nodeId != me && row.value.expiresAt > now then Denied(row.value.nodeId)
                   else if row.Some? && row.value.nodeId != me && row.value.expiresAt == now then Retry
                   else Granted
      ensures rows == if r == Granted then old(rows)[role := Row(me, now + lockDur)] else old(rows)
    {
      var seen := RowOf(role);
      var expiresAt := now + lockDur;
      if seen.Some? {
        if seen.value.expiresAt > now && seen.value.nodeId != me {
          return Denied(seen.value.nodeId);
        }
        var count := Update(role, me, now, seen.value.expiresAt, expiresAt);
        if count == 1 {
          return Granted;
        }
      }
      var ok := Insert(role, me, expiresAt);
      return if ok then Granted else Retry;
    }

    /** Up to five attempts at the given, nondecreasing times. Running alone, the first attempt
        decides unless it meets the expiry instant, and at most one later time can lie there. */
    method AcquireOrRenewRole(role: RoleId, me: NodeId, lockDur: int, times: seq<int>) returns (r: Outcome)
      requires |times| == 5
      modifies this
      ensures r == Retry ==>
                var row := old(RowOf(role));
                rows == old(rows) && row.Some? && row.value.nodeId != me
                && forall i | 0 <= i < 5 :: times[i] == row.value.expiresAt
      ensures r.Denied? ==>
                var row := old(RowOf(role));
                rows == old(rows) && row.Some? && row.value.nodeId != me && r.holder == row.value.nodeId
                && exists i :: 0 <= i < 5 && row.value.expiresAt > times[i]
      ensures r.Granted? ==>
                exists i :: 0 <= i < 5 && rows == old(rows)[role := Row(me, times[i] + lockDur)]
                            && (role in old(rows) ==>
                                  old(rows)[role].nodeId == me || old(rows)[role].expiresAt <= times[i])
    {
      for i := 0 to 5
        invariant rows == old(rows)
        invariant i > 0 ==> RowOf(role).Some? && rows[role].nodeId != me
        invariant forall j | 0 <= j < i :: times[j] == rows[role].expiresAt
      {
        r := AcquireOrRenewRoleOnce(role, me, lockDur, times[i]);
        if r != Retry {
          return;
        }
      }
      r := Retry;
    }

    method ReleaseRole(role: RoleId, me: NodeId)
      modifies this
      ensures rows == if old(RowOf(role)).Some? && old(RowOf(role)).value.nodeId == me
                      then old(rows) - {role} else old(rows)
    {
      if role in rows && rows[role].nodeId == me {
        rows := rows - {role};
      }
    }
  }
}

/** Any number of processes on any number of nodes, interleaving the statements of the
    acquire-or-renew protocol over the row of one role, each node with its own clock. */
module LeaseProtocol {
  import opened RoleLock

  type Proc = nat

  /** nodeOf tells each process's node, dur the lock duration asked for on a node that several
      processes share, skew the largest difference between two clocks. */
  datatype Config = Config(nodeOf: Proc -> NodeId, dur: NodeId -> int, skew: int)

  ghost predicate ValidConfig(cf: Config) {
    cf.skew >= 0 && forall n :: cf.dur(n) >= 0
  }

  datatype Pc =
    | Idle
    | HasRead(seen: Option<Row>)
    | HasSampled(seen: Option<Row>, now: int, dur: int)
    | MustInsert(now: int, dur: int)

  /** leases holds, for every process granted the role and not released since, its expiry. */
  datatype State = State(row: Option<Row>, clock: NodeId -> int, pc: Proc -> Pc, leases: map<Proc, int>)

  ghost predicate Init(cf: Config, s: State) {
    s.row == None && s.leases == map[] && (forall p :: s.pc(p) == Idle) && WithinSkew(cf, s.clock)
  }

  ghost predicate WithinSkew(cf: Config, clock: NodeId -> int) {
    forall m, n :: clock(m) <= clock(n) + cf.skew
  }

  /** Only process p's program counter changes, to the given value. */
  ghost predicate Moves(s: State, t: State, p: Proc, pc: Pc) {
    t.pc(p) == pc && forall q | q != p :: t.pc(q) == s.pc(q)
  }

  ghost predicate Read(cf: Config, s: State, t: State, p: Proc) {
    s.pc(p) == Idle && Moves(s, t, p, HasRead(s.row))
    && t.row == s.row && t.clock == s.clock && t.leases == s.leases
  }

  /** The clock is sampled in a call that asks for the lock duration dur. */
  ghost predicate Sample(cf: Config, s: State, t: State, p: Proc, dur: int) {
    dur >= 0 && s.pc(p).HasRead? && Moves(s, t, p, HasSampled(s.pc(p).seen, s.clock(cf.nodeOf(p)), dur))
    && t.row == s.row && t.clock == s.clock && t.leases == s.leases
  }

  /** The attempt ends without a grant: denied, failed, or to be retried. */
  ghost predicate GiveUp(cf: Config, s: State, t: State, p: Proc) {
    Moves(s, t, p, Idle) && t.row == s.row && t.clock == s.clock && t.leases == s.leases
  }

  ghost predicate SkipUpdate(cf: Config, s: State, t: State, p: Proc) {
    s.pc(p).HasSampled? && s.pc(p).seen.None? && Moves(s, t, p, MustInsert(s.pc(p).now, s.pc(p).dur))
    && t.row == s.row && t.clock == s.clock && t.leases == s.leases
  }

  ghost predicate Update(cf: Config, s: State, t: State, p: Proc) {
    && s.pc(p).HasSampled? && s.pc(p).seen.Some?
    && var me, now, seen := cf.nodeOf(p), s.pc(p).now, s.pc(p).seen;
    && !HeldByOther(seen, me, now)
    && t.clock == s.clock
    && if UpdateApplies(s.row, me, now, seen.value.expiresAt) then
         Moves(s, t, p, Idle) && Grants(cf, s, t, p, now, s.pc(p).dur)
       else
         Moves(s, t, p, MustInsert(now, s.pc(p).dur)) && t.row == s.row && t.leases == s.leases
  }

  ghost predicate Insert(cf: Config, s: State, t: State, p: Proc) {
    && s.pc(p).MustInsert? && t.clock == s.clock && Moves(s, t, p, Idle)
    && if s.row.None? then Grants(cf, s, t, p, s.pc(p).now, s.pc(p).dur) else t.row == s.row && t.leases == s.leases
  }

  ghost predicate Grants(cf: Config, s: State, t: State, p: Proc, now: int, dur: int) {
    var e := now + dur;
    t.row == Some(Row(cf.nodeOf(p), e)) && t.leases == s.leases[p := e]
  }

  /** Node n gives the role up, ending the leases of all its processes. */
  ghost predicate Release(cf: Config, s: State, t: State, n: NodeId) {
    && t.row == (if s.row.Some? && s.row.value.nodeId == n then None else s.row)
    && t.clock == s.clock && (forall q :: t.pc(q) == s.pc(q))
    && t.leases == map p | p in s.leases && cf.nodeOf(p) != n :: s.leases[p]
  }

  /** Time passes: no clock goes back, and the clocks stay within the skew. */
  ghost predicate Tick(cf: Config, s: State, t: State) {
    && (forall n :: t.clock(n) >= s.clock(n)) && WithinSkew(cf, t.clock)
    && t.row == s.row && (forall q :: t.pc(q) == s.pc(q)) && t.leases == s.leases
  }

  datatype Label =
    | DoRead(p: Proc) | DoSample(p: Proc, dur: int) | DoGiveUp(p: Proc) | DoSkip(p: Proc)
    | DoUpdate(p: Proc) | DoInsert(p: Proc) | DoRelease(n: NodeId) | DoTick

  ghost predicate Step(cf: Config, s: State, t: State, l: Label) {
    match l
    case DoRead(p) => Read(cf, s, t, p)
    case DoSample(p, dur) => Sample(cf, s, t, p, dur)
    case DoGiveUp(p) => GiveUp(cf, s, t, p)
    case DoSkip(p) => SkipUpdate(cf, s, t, p)
    case DoUpdate(p) => Update(cf, s, t, p)
    case DoInsert(p) => Insert(cf, s, t, p)
    case DoRelease(n) => Release(cf, s, t, n)
    case DoTick => Tick(cf, s, t)
  }

  /** A run of the protocol: states linked by steps. */
  ghost predicate Run(cf: Config, states: seq<State>, labels: seq<Label>) {
    && |states| == |labels| + 1 && Init(cf, states[0])
    && forall i | 0 <= i < |labels| :: Step(cf, states[i], states[i + 1], labels[i])
  }

  /** Several processes run on node n. */
  ghost predicate Shared(cf: Config, n: NodeId) {
    exists p, q :: p != q && cf.nodeOf(p) == n && cf.nodeOf(q) == n
  }

  /** On a shared node every call asks for the same duration; on any other, for whatever it likes. */
  ghost predicate Steady(cf: Config, l: Label) {
    l.DoSample? && Shared(cf, cf.nodeOf(l.p)) ==> l.dur == cf.dur(cf.nodeOf(l.p))
  }

  ghost predicate SteadyRun(cf: Config, states: seq<State>, labels: seq<Label>) {
    Run(cf, states, labels) && forall i | 0 <= i < |labels| :: Steady(cf, labels[i])
  }

  // ---------- invariant ----------

  /** Process p may still rely on its lease: it has the skew to spare. */
  ghost predicate Holds(cf: Config, s: State, p: Proc) {
    p in s.leases && s.clock(cf.nodeOf(p)) + cf.skew <= s.leases[p]
  }

  ghost predicate OwnsRow(cf: Config, s: State, p: Proc)
    requires p in s.leases
  {
    s.row.Some? && s.row.value.nodeId == cf.nodeOf(p) && s.row.value.expiresAt >= s.leases[p]
  }

  ghost predicate RowBound(cf: Config, row: Option<Row>, n: NodeId, now: int) {
    row.Some? && row.value.nodeId == n && Shared(cf, n) ==> row.value.expiresAt <= now + cf.dur(n)
  }

  ghost predicate PcOk(cf: Config, s: State, p: Proc) {
    var n := cf.nodeOf(p);
    match s.pc(p)
    case Idle => true
    case HasRead(seen) => RowBound(cf, seen, n, s.clock(n))
    case HasSampled(seen, now, dur) =>
      now <= s.clock(n) && RowBound(cf, seen, n, now) && (Shared(cf, n) ==> dur == cf.dur(n))
    case MustInsert(now, dur) => now <= s.clock(n) && (Shared(cf, n) ==> dur == cf.dur(n))
  }

  ghost predicate Inv(cf: Config, s: State) {
    && WithinSkew(cf, s.clock)
    && (forall n :: RowBound(cf, s.row, n, s.clock(n)))
    && (forall p :: PcOk(cf, s, p))
    && (forall p | p in s.leases && Holds(cf, s, p) :: OwnsRow(cf, s, p))
  }

  lemma UpdateKeepsInv(cf: Config, s: State, t: State, p: Proc)
    requires ValidConfig(cf) && Inv(cf, s) && Update(cf, s, t, p)
    ensures Inv(cf, t)
  {
    var me, now, seen := cf.nodeOf(p), s.pc(p).now, s.pc(p).seen;
    assert PcOk(cf, s, p);
    forall q
      ensures PcOk(cf, t, q)
    {
      assert PcOk(cf, s, q);
    }
    if UpdateApplies(s.row, me, now, seen.value.expiresAt) {
      forall q | q in t.leases && Holds(cf, t, q)
        ensures OwnsRow(cf, t, q)
      {
        if q != p {
          assert Holds(cf, s, q) && OwnsRow(cf, s, q);
          assert s.clock(me) <= s.clock(cf.nodeOf(q)) + cf.skew;
          assert s.row.value.nodeId == me && s.row.value.expiresAt == seen.value.expiresAt;
          assert Shared(cf, me);
        }
      }
    }
  }

  lemma InsertKeepsInv(cf: Config, s: State, t: State, p: Proc)
    requires ValidConfig(cf) && Inv(cf, s) && Insert(cf, s, t, p)
    ensures Inv(cf, t)
  {
    assert PcOk(cf, s, p);
    forall q
      ensures PcOk(cf, t, q)
    {
      assert PcOk(cf, s, q);
    }
    forall q | q in t.leases && Holds(cf, t, q)
      ensures OwnsRow(cf, t, q)
    {
      if q != p || !s.row.None? {
        assert Holds(cf, s, q);
      }
    }
  }

  lemma ReleaseKeepsInv(cf: Config, s: State, t: State, n: NodeId)
    requires ValidConfig(cf) && Inv(cf, s) && Release(cf, s, t, n)
    ensures Inv(cf, t)
  {
    forall q
      ensures PcOk(cf, t, q)
    {
      assert PcOk(cf, s, q);
    }
    forall q | q in t.leases && Holds(cf, t, q)
      ensures OwnsRow(cf, t, q)
    {
      assert Holds(cf, s, q);
    }
  }

  lemma TickKeepsInv(cf: Config, s: State, t: State)
    requires ValidConfig(cf) && Inv(cf, s) && Tick(cf, s, t)
    ensures Inv(cf, t)
  {
    forall q
      ensures PcOk(cf, t, q)
    {
      assert PcOk(cf, s, q);
    }
    forall n
      ensures RowBound(cf, t.row, n, t.clock(n))
    {
      assert RowBound(cf, s.row, n, s.clock(n));
    }
    forall q | q in t.leases && Holds(cf, t, q)
      ensures OwnsRow(cf, t, q)
    {
      assert Holds(cf, s, q);
    }
  }

  lemma SampleKeepsInv(cf: Config, s: State, t: State, p: Proc, dur: int)
    requires ValidConfig(cf) && Inv(cf, s) && Sample(cf, s, t, p, dur) && Steady(cf, DoSample(p, dur))
    ensures Inv(cf, t)
  {
    forall q
      ensures PcOk(cf, t, q)
    {
      assert PcOk(cf, s, q);
    }
    forall q | q in t.leases && Holds(cf, t, q)
      ensures OwnsRow(cf, t, q)
    {
      assert Holds(cf, s, q);
    }
  }

  lemma LocalKeepsInv(cf: Config, s: State, t: State, p: Proc)
    requires ValidConfig(cf) && Inv(cf, s)
    requires Read(cf, s, t, p) || GiveUp(cf, s, t, p) || SkipUpdate(cf, s, t, p)
    ensures Inv(cf, t)
  {
    forall q
      ensures PcOk(cf, t, q)
    {
      assert PcOk(cf, s, q);
    }
    forall q | q in t.leases && Holds(cf, t, q)
      ensures OwnsRow(cf, t, q)
    {
      assert Holds(cf, s, q);
    }
  }

  lemma StepKeepsInv(cf: Config, s: State, t: State, l: Label)
    requires ValidConfig(cf) && Inv(cf, s) && Step(cf, s, t, l) && Steady(cf, l)
    ensures Inv(cf, t)
  {
    match l
    case DoRead(p) => LocalKeepsInv(cf, s, t, p);
    case DoSample(p, dur) => SampleKeepsInv(cf, s, t, p, dur);
    case DoGiveUp(p) => LocalKeepsInv(cf, s, t, p);
    case DoSkip(p) => LocalKeepsInv(cf, s, t, p);
    case DoUpdate(p) => UpdateKeepsInv(cf, s, t, p);
    case DoInsert(p) => InsertKeepsInv(cf, s, t, p);
    case DoRelease(n) => ReleaseKeepsInv(cf, s, t, n);
    case DoTick => TickKeepsInv(cf, s, t);
  }

  lemma {:induction false} RunKeepsInv(cf: Config, states: seq<State>, labels: seq<Label>, i: nat)
    requires ValidConfig(cf) && SteadyRun(cf, states, labels) && i < |states|
    ensures Inv(cf, states[i])
  {
    if i > 0 {
      RunKeepsInv(cf, states, labels, i - 1);
      StepKeepsInv(cf, states[i - 1], states[i], labels[i - 1]);
    }
  }

  /** In every run, a process that holds an unexpired lease, with the skew to spare, owns the row. */
  lemma HolderOwnsRow(cf: Config, states: seq<State>, labels: seq<Label>, i: nat, p: Proc)
    requires ValidConfig(cf) && SteadyRun(cf, states, labels) && i < |states|
    requires Holds(cf, states[i], p)
    ensures OwnsRow(cf, states[i], p)
  {
    RunKeepsInv(cf, states, labels, i);
  }

  /** In every run, no two nodes hold the role at once, whatever durations the calls of a process
      that is alone on its node ask for. */
  lemma MutualExclusion(cf: Config, states: seq<State>, labels: seq<Label>, i: nat, p: Proc, q: Proc)
    requires ValidConfig(cf) && SteadyRun(cf, states, labels) && i < |states|
    requires Holds(cf, states[i], p) && Holds(cf, states[i], q)
    ensures cf.nodeOf(p) == cf.nodeOf(q)
  {
    HolderOwnsRow(cf, states, labels, i, p);
    HolderOwnsRow(cf, states, labels, i, q);
  }

  // ---------- the margin is exact ----------

  /** Process p relies on its lease while its own clock is at least m before the expiry. */
  ghost predicate HoldsWithin(cf: Config, s: State, p: Proc, m: int) {
    p in s.leases && s.clock(cf.nodeOf(p)) + m <= s.leases[p]
  }

  function At(f: Proc -> Pc, p: Proc, pc: Pc): Proc -> Pc {
    (q: Proc) => if q == p then pc else f(q)
  }

  function AllIdle(): Proc -> Pc { (p: Proc) => Idle }

  function StoppedClock(): NodeId -> int { n => 0 }

  function SlowClock(slow: NodeId, a: int, b: int): NodeId -> int { n => if n == slow then a else b }

  /** The first grant of a run: process p inserts the row at time 0. */
  function FirstGrant(cf: Config, p: Proc): seq<State> {
    var n := cf.nodeOf(p);
    var e := cf.dur(n);
    [ State(None, StoppedClock(), AllIdle(), map[]),
      State(None, StoppedClock(), At(AllIdle(), p, HasRead(None)), map[]),
      State(None, StoppedClock(), At(AllIdle(), p, HasSampled(None, 0, e)), map[]),
      State(None, StoppedClock(), At(AllIdle(), p, MustInsert(0, e)), map[]),
      State(Some(Row(n, e)), StoppedClock(), AllIdle(), map[p := e]) ]
  }

  /** Then p's clock lags while q's clock passes the expiry, and q takes the row over. */
  function Takeover(cf: Config, p: Proc, q: Proc, m: int): seq<State> {
    var n := cf.nodeOf(p);
    var e := cf.dur(n);
    var row, clock := Some(Row(n, e)), SlowClock(n, e - m, e + 1);
    var e2 := e + 1 + cf.dur(cf.nodeOf(q));
    [ State(row, clock, AllIdle(), map[p := e]),
      State(row, clock, At(AllIdle(), q, HasRead(row)), map[p := e]),
      State(row, clock, At(AllIdle(), q, HasSampled(row, e + 1, cf.dur(cf.nodeOf(q)))), map[p := e]),
      State(Some(Row(cf.nodeOf(q), e2)), clock, AllIdle(), map[p := e][q := e2]) ]
  }

  function TakeoverLabels(cf: Config, p: Proc, q: Proc): seq<Label> {
    [ DoRead(p), DoSample(p, cf.dur(cf.nodeOf(p))), DoSkip(p), DoInsert(p), DoTick,
      DoRead(q), DoSample(q, cf.dur(cf.nodeOf(q))), DoUpdate(q) ]
  }

  lemma FirstGrantSteps(cf: Config, p: Proc)
    requires ValidConfig(cf)
    ensures var s := FirstGrant(cf, p);
            && Init(cf, s[0]) && Read(cf, s[0], s[1], p) && Sample(cf, s[1], s[2], p, cf.dur(cf.nodeOf(p)))
            && SkipUpdate(cf, s[2], s[3], p) && Insert(cf, s[3], s[4], p)
  {
  }

  lemma TakeoverSteps(cf: Config, p: Proc, q: Proc, m: int)
    requires ValidConfig(cf) && cf.nodeOf(p) != cf.nodeOf(q)
    requires 0 <= m < cf.skew && m <= cf.dur(cf.nodeOf(p)) && m <= cf.dur(cf.nodeOf(q))
    ensures var s, t := FirstGrant(cf, p), Takeover(cf, p, q, m);
            && Tick(cf, s[4], t[0]) && Read(cf, t[0], t[1], q) && Sample(cf, t[1], t[2], q, cf.dur(cf.nodeOf(q)))
            && Update(cf, t[2], t[3], q)
            && HoldsWithin(cf, t[3], p, m) && HoldsWithin(cf, t[3], q, m)
  {
  }

  /** With a smaller margin than the skew two nodes can rely on the role at once. */
  lemma TakeoverRun(cf: Config, p: Proc, q: Proc, m: int)
    requires ValidConfig(cf) && cf.nodeOf(p) != cf.nodeOf(q)
    requires 0 <= m < cf.skew && m <= cf.dur(cf.nodeOf(p)) && m <= cf.dur(cf.nodeOf(q))
    ensures var states := FirstGrant(cf, p) + Takeover(cf, p, q, m);
            && SteadyRun(cf, states, TakeoverLabels(cf, p, q))
            && HoldsWithin(cf, states[8], p, m) && HoldsWithin(cf, states[8], q, m)
  {
    FirstGrantSteps(cf, p);
    TakeoverSteps(cf, p, q, m);
    var states, labels := FirstGrant(cf, p) + Takeover(cf, p, q, m), TakeoverLabels(cf, p, q);
    forall i | 0 <= i < |labels|
      ensures Step(cf, states[i], states[i + 1], labels[i])
    {
      if i < 4 {
        assert states[i] == FirstGrant(cf, p)[i] && states[i + 1] == (FirstGrant(cf, p) + Takeover(cf, p, q, m))[i + 1];
      }
    }
  }

  /** In state i of a run both processes rely on their leases under margin m. */
  ghost predicate Clash(cf: Config, states: seq<State>, labels: seq<Label>, i: int, p: Proc, q: Proc, m: int) {
    && SteadyRun(cf, states, labels) && 0 <= i < |states|
    && HoldsWithin(cf, states[i], p, m) && HoldsWithin(cf, states[i], q, m)
  }

  /** For leases at least as long as the margin, a margin is safe in every run exactly when it
      is at least the largest clock difference. */
  lemma MarginExact(cf: Config, p: Proc, q: Proc, m: int)
    requires ValidConfig(cf) && cf.nodeOf(p) != cf.nodeOf(q)
    requires 0 <= m <= cf.dur(cf.nodeOf(p)) && m <= cf.dur(cf.nodeOf(q))
    ensures (forall states, labels, i :: !Clash(cf, states, labels, i, p, q, m)) <==> m >= cf.skew
  {
    if m >= cf.skew {
      forall states, labels, i
        ensures !Clash(cf, states, labels, i, p, q, m)
      {
        if Clash(cf, states, labels, i, p, q, m) {
          MutualExclusion(cf, states, labels, i, p, q);
        }
      }
    } else {
      TakeoverRun(cf, p, q, m);
      assert Clash(cf, FirstGrant(cf, p) + Takeover(cf, p, q, m), TakeoverLabels(cf, p, q), 8, p, q, m);
    }
  }

  // ---------- which durations are safe ----------

  /** Every call of process p asks for the duration dur(p). */
  ghost predicate FixedRun(cf: Config, dur: Proc -> int, states: seq<State>, labels: seq<Label>) {
    Run(cf, states, labels) && forall i | 0 <= i < |labels| && labels[i].DoSample? :: labels[i].dur == dur(labels[i].p)
  }

  /** In no run with these durations do two nodes hold the role at once. */
  ghost predicate Exclusive(cf: Config, dur: Proc -> int) {
    forall states, labels, i, p, q |
      FixedRun(cf, dur, states, labels) && 0 <= i < |states| && Holds(cf, states[i], p) && Holds(cf, states[i], q) ::
      cf.nodeOf(p) == cf.nodeOf(q)
  }

  /** Processes on one node ask for the same duration. */
  ghost predicate NodesAgree(cf: Config, dur: Proc -> int) {
    forall p, r | cf.nodeOf(p) == cf.nodeOf(r) :: dur(p) == dur(r)
  }

  ghost function NodeDur(cf: Config, dur: Proc -> int, n: NodeId): int {
    if p :| cf.nodeOf(p) == n then dur(p) else 0
  }

  lemma SameSteps(cf: Config, cf': Config, s: State, t: State, l: Label)
    requires cf'.nodeOf == cf.nodeOf && cf'.skew == cf.skew && Step(cf, s, t, l)
    ensures Step(cf', s, t, l)
  {
  }

  lemma AgreeingRunIsSteady(cf: Config, dur: Proc -> int, states: seq<State>, labels: seq<Label>) returns (cf': Config)
    requires NodesAgree(cf, dur) && FixedRun(cf, dur, states, labels)
    ensures cf'.nodeOf == cf.nodeOf && cf'.skew == cf.skew && SteadyRun(cf', states, labels)
    ensures forall n :: cf'.dur(n) == NodeDur(cf, dur, n)
  {
    cf' := cf.(dur := n => NodeDur(cf, dur, n));
    forall i | 0 <= i < |labels| ensures Step(cf', states[i], states[i + 1], labels[i]) && Steady(cf', labels[i]) {
      SameSteps(cf, cf', states[i], states[i + 1], labels[i]);
    }
  }

  lemma AgreeingIsExclusive(cf: Config, dur: Proc -> int)
    requires cf.skew >= 0 && (forall p :: dur(p) >= 0) && NodesAgree(cf, dur)
    ensures Exclusive(cf, dur)
  {
    forall states, labels, i, p, q |
      FixedRun(cf, dur, states, labels) && 0 <= i < |states| && Holds(cf, states[i], p) && Holds(cf, states[i], q)
      ensures cf.nodeOf(p) == cf.nodeOf(q)
    {
      var cf' := AgreeingRunIsSteady(cf, dur, states, labels);
      MutualExclusion(cf', states, labels, i, p, q);
    }
  }

  /** Process p takes the role for a longer, r on the same node renews it for a shorter time, and
      q on another node takes it over while p still relies on it. */
  function Renewal(cf: Config, dur: Proc -> int, p: Proc, r: Proc, q: Proc): seq<State> {
    var n, dp, dr := cf.nodeOf(p), dur(p), dur(r);
    var long, short := Some(Row(n, dp)), Some(Row(n, dr));
    var later := SlowClock(n, if dr + 1 <= cf.skew then 0 else dr + 1 - cf.skew, dr + 1);
    var both, e := map[p := dp][r := dr], dr + 1 + dur(q);
    [ State(None, StoppedClock(), AllIdle(), map[]),
      State(None, StoppedClock(), At(AllIdle(), p, HasRead(None)), map[]),
      State(None, StoppedClock(), At(AllIdle(), p, HasSampled(None, 0, dp)), map[]),
      State(None, StoppedClock(), At(AllIdle(), p, MustInsert(0, dp)), map[]),
      State(long, StoppedClock(), AllIdle(), map[p := dp]),
      State(long, StoppedClock(), At(AllIdle(), r, HasRead(long)), map[p := dp]),
      State(long, StoppedClock(), At(AllIdle(), r, HasSampled(long, 0, dr)), map[p := dp]),
      State(short, StoppedClock(), AllIdle(), both),
      State(short, later, AllIdle(), both),
      State(short, later, At(AllIdle(), q, HasRead(short)), both),
      State(short, later, At(AllIdle(), q, HasSampled(short, dr + 1, dur(q))), both),
      State(Some(Row(cf.nodeOf(q), e)), later, AllIdle(), both[q := e]) ]
  }

  function RenewalLabels(dur: Proc -> int, p: Proc, r: Proc, q: Proc): seq<Label> {
    [ DoRead(p), DoSample(p, dur(p)), DoSkip(p), DoInsert(p), DoRead(r), DoSample(r, dur(r)), DoUpdate(r),
      DoTick, DoRead(q), DoSample(q, dur(q)), DoUpdate(q) ]
  }

  lemma RenewalStarts(cf: Config, dur: Proc -> int, p: Proc, r: Proc, q: Proc)
    requires cf.skew >= 0 && dur(p) >= 0
    ensures var s := Renewal(cf, dur, p, r, q);
            && Init(cf, s[0]) && Read(cf, s[0], s[1], p) && Sample(cf, s[1], s[2], p, dur(p))
            && SkipUpdate(cf, s[2], s[3], p) && Insert(cf, s[3], s[4], p)
  {
  }

  lemma RenewalSteps(cf: Config, dur: Proc -> int, p: Proc, r: Proc, q: Proc)
    requires cf.skew >= 0 && dur(r) >= 0 && dur(q) >= 0 && cf.nodeOf(p) == cf.nodeOf(r) && cf.nodeOf(p) != cf.nodeOf(q)
    ensures var s := Renewal(cf, dur, p, r, q);
            && Read(cf, s[4], s[5], r) && Sample(cf, s[5], s[6], r, dur(r)) && Update(cf, s[6], s[7], r)
            && Tick(cf, s[7], s[8]) && Read(cf, s[8], s[9], q) && Sample(cf, s[9], s[10], q, dur(q))
            && Update(cf, s[10], s[11], q)
  {
  }

  /** When a node renews for a shorter time than it asked for before, two nodes can rely on the
      role at once, whatever the skew. */
  lemma ShorterRenewalClashes(cf: Config, dur: Proc -> int, p: Proc, r: Proc, q: Proc)
    requires cf.skew >= 0 && (forall x :: dur(x) >= cf.skew) && dur(r) < dur(p)
    requires cf.nodeOf(p) == cf.nodeOf(r) && cf.nodeOf(p) != cf.nodeOf(q)
    ensures var states := Renewal(cf, dur, p, r, q);
            && FixedRun(cf, dur, states, RenewalLabels(dur, p, r, q))
            && Holds(cf, states[11], p) && Holds(cf, states[11], q)
  {
    RenewalStarts(cf, dur, p, r, q);
    RenewalSteps(cf, dur, p, r, q);
  }

  /** Of leases at least as long as the skew, the role is exclusive in every run exactly if all
      processes on one node ask for the same duration. */
  lemma DurationsExact(cf: Config, dur: Proc -> int, a: Proc, b: Proc)
    requires cf.skew >= 0 && (forall p :: dur(p) >= cf.skew) && cf.nodeOf(a) != cf.nodeOf(b)
    ensures Exclusive(cf, dur) <==> NodesAgree(cf, dur)
  {
    if NodesAgree(cf, dur) {
      AgreeingIsExclusive(cf, dur);
    } else {
      var p, r :| cf.nodeOf(p) == cf.nodeOf(r) && dur(r) < dur(p);
      var q := if cf.nodeOf(a) == cf.nodeOf(p) then b else a;
      ShorterRenewalClashes(cf, dur, p, r, q);
    }
  }
}

/** What a converge plan says, in terms of the fields of containers and target alone. */
module ConvergeMeaning {
  import opened ConvergePlan
  import opened Sizes

  // ---------- which containers stay ----------

  /** The first i containers that run the wanted version and are not marked. */
  ghost function RightOnes(cs: seq<Container>, t: Target, i: int): set<int>
    requires i <= |cs|
  {
    set j: int | 0 <= j < i
      && cs[j].terminateReason == "" && cs[j].component.name == t.component.name
      && cs[j].component.version == t.component.version
  }

  /** Container i stays: it is right, and fewer right ones than wanted stand before it. */
  ghost predicate Stays(cs: seq<Container>, t: Target, i: int)
    requires 0 <= i < |cs|
  {
    i in RightOnes(cs, t, i + 1) && |RightOnes(cs, t, i)| < t.count
  }

  /** The reason container i is stopped for: there are enough before it, it is marked, or its
      version is another one, in this order. */
  ghost predicate StopsFor(cs: seq<Container>, t: Target, i: int, reason: string)
    requires 0 <= i < |cs|
  {
    if |RightOnes(cs, t, i)| >= t.count then reason == "scale down"
    else if cs[i].terminateReason != "" then reason == cs[i].terminateReason
    else reason == "component version changed"
  }

  /** The stop steps are for the containers at these places, all that do not stay, in order. */
  ghost predicate StopsAt(stops: seq<Step>, at: seq<int>, cs: seq<Container>, t: Target, n: int)
    requires n <= |cs|
  {
    && |stops| == |at| && (forall k, l | 0 <= k < l < |at| :: at[k] < at[l])
    && (forall k | 0 <= k < |at| ::
          0 <= at[k] < n && !Stays(cs, t, at[k])
          && stops[k].StopStep? && stops[k].id == cs[at[k]].id && StopsFor(cs, t, at[k], stops[k].reason))
    && (forall i | 0 <= i < n && !Stays(cs, t, i) :: i in at)
  }

  lemma RightSoFar(cs: seq<Container>, t: Target, i: nat)
    requires i < |cs|
    ensures Healthy(cs[i], t) <==> i in RightOnes(cs, t, i + 1)
    ensures RightOnes(cs, t, i + 1) == RightOnes(cs, t, i) + if Healthy(cs[i], t) then {i} else {}
    ensures |RightOnes(cs, t, i + 1)| == |RightOnes(cs, t, i)| + if Healthy(cs[i], t) then 1 else 0
  {
    assert i !in RightOnes(cs, t, i);
    assert RightOnes(cs, t, i + 1) == RightOnes(cs, t, i) + if Healthy(cs[i], t) then {i} else {};
  }

  lemma {:induction false} KeptSize(cs: seq<Container>, t: Target, i: nat)
    requires i <= |cs|
    ensures |Kept(cs[..i], t)| == if |RightOnes(cs, t, i)| < Pos(t.count) then |RightOnes(cs, t, i)| else Pos(t.count)
  {
    if i > 0 {
      KeptSize(cs, t, i - 1);
      RightSoFar(cs, t, i - 1);
      assert cs[..i] == cs[..i - 1] + [cs[i - 1]];
      OneMore(cs[..i - 1], cs[i - 1], t);
    } else {
      assert RightOnes(cs, t, 0) == {};
    }
  }

  lemma {:induction false} ToStopIs(cs: seq<Container>, t: Target, n: nat) returns (at: seq<int>)
    requires n <= |cs|
    ensures StopsAt(ToStop(cs[..n], t), at, cs, t, n)
  {
    if n == 0 {
      at := [];
    } else {
      at := ToStopIs(cs, t, n - 1);
      assert cs[..n] == cs[..n - 1] + [cs[n - 1]];
      OneMore(cs[..n - 1], cs[n - 1], t);
      StopForIs(cs, t, n - 1);
      if !Stays(cs, t, n - 1) {
        StopsAtMore(ToStop(cs[..n - 1], t), at, cs, t, n - 1, StopFor(|Kept(cs[..n - 1], t)|, cs[n - 1], t)[0]);
        at := at + [n - 1];
      }
    }
  }

  lemma StopForIs(cs: seq<Container>, t: Target, i: nat)
    requires i < |cs|
    ensures var stops := StopFor(|Kept(cs[..i], t)|, cs[i], t);
            if Stays(cs, t, i) then stops == []
            else |stops| == 1 && stops[0].StopStep? && stops[0].id == cs[i].id && StopsFor(cs, t, i, stops[0].reason)
  {
    KeptSize(cs, t, i);
    RightSoFar(cs, t, i);
  }

  lemma StopsAtMore(stops: seq<Step>, at: seq<int>, cs: seq<Container>, t: Target, i: nat, stop: Step)
    requires i < |cs| && StopsAt(stops, at, cs, t, i) && !Stays(cs, t, i)
    requires stop.StopStep? && stop.id == cs[i].id && StopsFor(cs, t, i, stop.reason)
    ensures StopsAt(stops + [stop], at + [i], cs, t, i + 1)
  {
  }

  // ---------- the alternation ----------

  /** Starts and stops take turns until one kind is used up; startFirst tells which comes first. */
  ghost predicate TakesTurns(steps: seq<Step>, startFirst: bool) {
    && (forall i, j | 0 <= i < i + 1 <= j < |steps| && steps[i].StartStep? == steps[i + 1].StartStep? ::
          steps[j].StartStep? == steps[i].StartStep?)
    && ((exists i, j :: 0 <= i < |steps| && 0 <= j < |steps| && steps[i].StartStep? && steps[j].StopStep?) ==>
          (steps[0].StartStep? <==> startFirst))
  }

  ghost function StartsAt(steps: seq<Step>): set<int> { set i | 0 <= i < |steps| && steps[i].StartStep? }

  lemma NoStarts(steps: seq<Step>)
    requires Starts(steps) == 0
    ensures forall i | 0 <= i < |steps| :: steps[i].StopStep?
  {
    forall i | 0 <= i < |steps| ensures steps[i].StopStep? {
      StepKind(steps, steps[i]);
    }
  }

  lemma NoStops(steps: seq<Step>)
    requires Stops(steps) == []
    ensures forall i | 0 <= i < |steps| :: steps[i].StartStep?
  {
    forall i | 0 <= i < |steps| ensures steps[i].StartStep? {
      StepKind(steps, steps[i]);
    }
  }

  /** If the kind whose turn it is not comes first, there is nothing of the other kind. */
  lemma OneKind(steps: seq<Step>, start: bool)
    requires TakesTurns(steps, !start) && steps != [] && steps[0].StartStep? == start
    ensures forall j | 0 <= j < |steps| :: steps[j].StartStep? == start
  {
    forall j | 0 <= j < |steps| ensures steps[j].StartStep? == start {
      assert steps[0].StartStep? || steps[0].StopStep?;
      assert steps[j].StartStep? || steps[j].StopStep?;
    }
  }

  lemma TurnInFront(step: Step, rest: seq<Step>)
    requires TakesTurns(rest, !step.StartStep?)
    ensures TakesTurns([step] + rest, step.StartStep?)
  {
    var steps := [step] + rest;
    forall i, j | 0 <= i < i + 1 <= j < |steps| && steps[i].StartStep? == steps[i + 1].StartStep?
      ensures steps[j].StartStep? == steps[i].StartStep?
    {
      if i > 0 {
        assert rest[i - 1].StartStep? == rest[i - 1 + 1].StartStep? && steps[j] == rest[j - 1];
      } else {
        OneKind(rest, step.StartStep?);
        assert steps[j] == rest[j - 1];
      }
    }
  }

  lemma {:induction false} InterleaveTurns(toStart: int, toStop: seq<Step>, addStart: bool, lock: bool, c: Component)
    requires AllStops(toStop)
    ensures TakesTurns(Interleave(toStart, toStop, addStart, lock, c), addStart)
    decreases 2 * (Pos(toStart) + |toStop|) + if addStart == (toStart > 0) then 0 else 1, addStart
  {
    var steps := Interleave(toStart, toStop, addStart, lock, c);
    InterleaveContents(toStart, toStop, addStart, lock, c);
    if toStart <= 0 {
      NoStarts(steps);
    } else if toStop == [] {
      NoStops(steps);
    } else if addStart {
      var later := lock && StartParallelism(c) != SeriesFirst;
      InterleaveTurns(toStart - 1, toStop, false, later, c);
      TurnInFront(StartStep(c, lock), Interleave(toStart - 1, toStop, false, later, c));
    } else {
      StopInFront(toStart, toStop, lock, c);
      InterleaveTurns(toStart, toStop[1..], true, lock, c);
      TurnInFront(toStop[0], Interleave(toStart, toStop[1..], true, lock, c));
    }
  }

  lemma {:induction false} StartsCounted(steps: seq<Step>, i: nat)
    requires i <= |steps|
    ensures |StartsAt(steps[..i])| == Starts(steps[..i])
  {
    if i == 0 {
      assert StartsAt(steps[..i]) == {};
    } else {
      StartsCounted(steps, i - 1);
      assert StartsAt(steps[..i]) == StartsAt(steps[..i - 1]) + if steps[i - 1].StartStep? then {i - 1} else {};
      assert steps[..i] == steps[..i - 1] + [steps[i - 1]];
      StartsAppend(steps[..i - 1], steps[i - 1]);
    }
  }

  lemma {:induction false} StartsAppend(steps: seq<Step>, step: Step)
    ensures Starts(steps + [step]) == Starts(steps) + if step.StartStep? then 1 else 0
  {
    if steps != [] {
      assert (steps + [step])[1..] == steps[1..] + [step];
      StartsAppend(steps[1..], step);
    }
  }

  // ---------- locks ----------

  lemma {:induction false} LockAt(steps: seq<Step>, first: bool, later: bool, i: nat)
    requires LocksFrom(steps, first, later) && i < |steps| && steps[i].StartStep?
    ensures steps[i].lock == if forall j | 0 <= j < i :: steps[j].StopStep? then first else later
    decreases i
  {
    if i > 0 {
      var first' := if steps[0].StartStep? then later else first;
      LockAt(steps[1..], first', later, i - 1);
      assert forall j | 0 <= j < i - 1 :: steps[1..][j] == steps[j + 1];
      if forall j | 0 <= j < i - 1 :: steps[1..][j].StopStep? {
        assert forall j | 0 < j < i :: steps[j] == steps[1..][j - 1];
      }
    }
  }

  /** No start takes the lock unless the component says so: all under "series", the first one under
      "seriesfirst". */
  ghost predicate LocksAre(steps: seq<Step>, parallelism: Parallelism) {
    forall i | 0 <= i < |steps| && steps[i].StartStep? ::
      match parallelism
      case Unspecified => !steps[i].lock
      case Parallel => !steps[i].lock
      case Series => steps[i].lock
      case SeriesFirst => steps[i].lock <==> forall j | 0 <= j < i :: steps[j].StopStep?
  }

  lemma PlanLocks(cs: seq<Container>, t: Target)
    ensures LocksAre(PlanOf(cs, t).steps, t.component.parallelism)
  {
    LockFlags(cs, t);
    var steps, para := PlanOf(cs, t).steps, StartParallelism(t.component);
    forall i | 0 <= i < |steps| && steps[i].StartStep?
      ensures steps[i].lock == if forall j | 0 <= j < i :: steps[j].StopStep? then para != Parallel else para == Series
    {
      LockAt(steps, para != Parallel, para == Series, i);
    }
  }

  // ---------- the whole plan ----------

  /** The plan starts what is missing of the wanted component and stops what does not stay, with
      the locks and in the order the component asks for. */
  ghost predicate IsPlan(cs: seq<Container>, t: Target, plan: Plan) {
    var missing := t.count - |RightOnes(cs, t, |cs|)|;
    && (plan.pull <==> missing > 0)
    && |StartsAt(plan.steps)| == (if missing > 0 then missing else 0)
    && (forall i | i in StartsAt(plan.steps) :: plan.steps[i].component == t.component)
    && (exists at :: StopsAt(Stops(plan.steps), at, cs, t, |cs|))
    && LocksAre(plan.steps, t.component.parallelism)
    && TakesTurns(plan.steps, t.component.restartOrder == StartStop)
  }

  lemma PlanStarts(cs: seq<Container>, t: Target)
    ensures var plan, missing := PlanOf(cs, t), t.count - |RightOnes(cs, t, |cs|)|;
            && (plan.pull <==> missing > 0) && |StartsAt(plan.steps)| == (if missing > 0 then missing else 0)
            && (forall i | i in StartsAt(plan.steps) :: plan.steps[i].component == t.component)
  {
    var steps := PlanOf(cs, t).steps;
    PlanContents(cs, t);
    assert cs[..|cs|] == cs && steps[..|steps|] == steps;
    KeptSize(cs, t, |cs|);
    StartsCounted(steps, |steps|);
    forall i | i in StartsAt(steps) ensures steps[i].component == t.component {
      assert steps[i] in steps;
    }
  }

  lemma PlanStops(cs: seq<Container>, t: Target)
    ensures exists at :: StopsAt(Stops(PlanOf(cs, t).steps), at, cs, t, |cs|)
  {
    PlanContents(cs, t);
    assert cs[..|cs|] == cs;
    var at := ToStopIs(cs, t, |cs|);
  }

  lemma PlanIs(cs: seq<Container>, t: Target)
    ensures IsPlan(cs, t, PlanOf(cs, t))
  {
    PlanStarts(cs, t);
    PlanStops(cs, t);
    PlanLocks(cs, t);
    StopsAreStops(cs, t);
    InterleaveTurns(t.count - |Kept(cs, t)|, ToStop(cs, t), t.component.restartOrder == StartStop,
                    StartParallelism(t.component) != Parallel, t.component);
  }
}

/** Plans that turn the containers a node runs into the containers it should run. */
module ConvergePlan {
  datatype Parallelism = Unspecified | Parallel | Series | SeriesFirst

  datatype RestartOrder = Default | StartStop | StopStart

  datatype Component = Component(name: string, version: int, parallelism: Parallelism, restartOrder: RestartOrder)

  datatype Target = Target(component: Component, count: int)

  datatype Container = Container(id: nat, containerId: string, component: Component, terminateReason: string)

  datatype Step =
    | StartStep(component: Component, lock: bool)
    | StopStep(id: nat, reason: string)

  datatype Plan = Plan(pull: bool, steps: seq<Step>)

  const ReasonScaleDown := "scale down"
  const ReasonVersionChanged := "component version changed"

  predicate Healthy(cn: Container, t: Target) {
    && cn.terminateReason == ""
    && cn.component.name == t.component.name && cn.component.version == t.component.version
  }

  /** The containers that stay: the first t.count healthy ones. */
  function Kept(cs: seq<Container>, t: Target): seq<Container> {
    if cs == [] then []
    else
      var pre, cn := Kept(cs[..|cs| - 1], t), cs[|cs| - 1];
      if |pre| < t.count && Healthy(cn, t) then pre + [cn] else pre
  }

  /** The stop steps for all others, oldest first. */
  function ToStop(cs: seq<Container>, t: Target): seq<Step> {
    if cs == [] then []
    else
      var active, cn := |Kept(cs[..|cs| - 1], t)|, cs[|cs| - 1];
      ToStop(cs[..|cs| - 1], t) + StopFor(active, cn, t)
  }

  function StopFor(active: int, cn: Container, t: Target): seq<Step> {
    if active >= t.count then [StopStep(cn.id, ReasonScaleDown)]
    else if cn.terminateReason != "" then [StopStep(cn.id, cn.terminateReason)]
    else if Healthy(cn, t) then []
    else [StopStep(cn.id, ReasonVersionChanged)]
  }

  function StartParallelism(c: Component): Parallelism {
    if c.parallelism == Unspecified then Parallel else c.parallelism
  }

  function Pos(n: int): nat { if n > 0 then n else 0 }

  /** Alternates starts and stops until both are used up. */
  function Interleave(toStart: int, toStop: seq<Step>, addStart: bool, lock: bool, c: Component): seq<Step>
    decreases 2 * (Pos(toStart) + |toStop|) + if addStart == (toStart > 0) then 0 else 1, addStart
  {
    if toStart <= 0 && toStop == [] then []
    else if addStart then
      if toStart > 0 then
        [StartStep(c, lock)]
        + Interleave(toStart - 1, toStop, false, lock && StartParallelism(c) != SeriesFirst, c)
      else Interleave(toStart, toStop, false, lock, c)
    else if toStop != [] then
      [toStop[0]] + Interleave(toStart, toStop[1..], true, lock, c)
    else Interleave(toStart, toStop, true, lock, c)
  }

  function PlanOf(cs: seq<Container>, t: Target): Plan {
    var toStart := t.count - |Kept(cs, t)|;
    Plan(toStart > 0,
         Interleave(toStart, ToStop(cs, t), t.component.restartOrder == StartStop,
                    StartParallelism(t.component) != Parallel, t.component))
  }

  function StartsLeft(cs: seq<Container>, t: Target): nat { Pos(t.count - |Kept(cs, t)|) }

  ghost predicate DistinctIds(cs: seq<Container>) {
    forall i, j | 0 <= i < j < |cs| :: cs[i].id != cs[j].id
  }

  function HealthyCount(cs: seq<Container>, t: Target): nat {
    if cs == [] then 0
    else HealthyCount(cs[..|cs| - 1], t) + if Healthy(cs[|cs| - 1], t) then 1 else 0
  }

  // ---------- what is kept and what is stopped ----------

  /** As many healthy containers stay as there are, up to the wanted count. */
  lemma {:induction false} KeptMeaning(cs: seq<Container>, t: Target)
    ensures |Kept(cs, t)| == if HealthyCount(cs, t) < Pos(t.count) then HealthyCount(cs, t) else Pos(t.count)
    ensures |Kept(cs, t)| + |ToStop(cs, t)| == |cs|
    ensures forall cn | cn in Kept(cs, t) :: Healthy(cn, t) && cn in cs
  {
    if cs != [] {
      KeptMeaning(cs[..|cs| - 1], t);
    }
  }

  /** How one more container at the end changes what stays and what stops. */
  lemma OneMore(pre: seq<Container>, cn: Container, t: Target)
    ensures ToStop(pre + [cn], t) == ToStop(pre, t) + StopFor(|Kept(pre, t)|, cn, t)
    ensures Kept(pre + [cn], t) == if |Kept(pre, t)| < t.count && Healthy(cn, t) then Kept(pre, t) + [cn]
        else Kept(pre, t)
  {
    assert (pre + [cn])[..|pre|] == pre;
  }

  lemma {:induction false} NothingToStop(cs: seq<Container>, t: Target)
    requires ToStop(cs, t) == []
    ensures Kept(cs, t) == cs
  {
    if cs != [] {
      var pre, cn := cs[..|cs| - 1], cs[|cs| - 1];
      assert pre + [cn] == cs;
      OneMore(pre, cn, t);
      assert |ToStop(pre, t)| == 0;
      NothingToStop(pre, t);
    }
  }

  lemma {:induction false} ToStopIds(cs: seq<Container>, t: Target)
    ensures forall s | s in ToStop(cs, t) :: s.StopStep? && exists i :: 0 <= i < |cs| && cs[i].id == s.id
  {
    if cs != [] {
      ToStopIds(cs[..|cs| - 1], t);
    }
  }

  lemma StopsAreStops(cs: seq<Container>, t: Target)
    ensures AllStops(ToStop(cs, t))
  {
    ToStopIds(cs, t);
  }

  lemma KeptCount(cs: seq<Container>, t: Target)
    ensures |Kept(cs, t)| <= Pos(t.count) && |Kept(cs, t)| + |ToStop(cs, t)| == |cs|
  {
    KeptMeaning(cs, t);
  }

  lemma {:induction false} NoneHealthy(cs: seq<Container>, t: Target)
    requires forall i | 0 <= i < |cs| :: !Healthy(cs[i], t)
    ensures Kept(cs, t) == []
  {
    if cs != [] {
      NoneHealthy(cs[..|cs| - 1], t);
    }
  }

  function Starts(steps: seq<Step>): nat {
    if steps == [] then 0 else (if steps[0].StartStep? then 1 else 0) + Starts(steps[1..])
  }

  function Stops(steps: seq<Step>): seq<Step> {
    if steps == [] then [] else (if steps[0].StopStep? then [steps[0]] else []) + Stops(steps[1..])
  }

  /** Starts take place for the wanted component only. */
  ghost predicate StartsOnly(steps: seq<Step>, c: Component) {
    forall s | s in steps && s.StartStep? :: s.component == c
  }

  ghost predicate AllStops(steps: seq<Step>) { forall s | s in steps :: s.StopStep? }

  /** What one stop adds to the front of the alternation. */
  lemma StopInFront(toStart: int, toStop: seq<Step>, lock: bool, c: Component)
    requires toStop != [] && AllStops(toStop)
    ensures toStop[0].StopStep? && AllStops(toStop[1..])
    ensures var steps, rest := Interleave(toStart, toStop, false, lock, c),
        Interleave(toStart, toStop[1..], true, lock, c);
            |steps| == |rest| + 1 && steps[0] == toStop[0] && steps[1..] == rest
            && forall k | 0 < k <= |steps| :: steps[..k][0] == toStop[0] && steps[..k][1..] == rest[..k - 1]
  {
    assert toStop[0] in toStop;
    assert forall s | s in toStop[1..] :: s in toStop;
    var steps, rest := Interleave(toStart, toStop, false, lock, c), Interleave(toStart, toStop[1..], true, lock, c);
    assert steps == [toStop[0]] + rest;
  }

  /** The alternation neither loses nor adds a step and keeps the order of the stops. */
  lemma {:induction false} InterleaveContents(toStart: int, toStop: seq<Step>, addStart: bool, lock: bool, c: Component)
    requires AllStops(toStop)
    ensures var steps := Interleave(toStart, toStop, addStart, lock, c);
            && Starts(steps) == Pos(toStart) && Stops(steps) == toStop
            && |steps| == Pos(toStart) + |toStop| && StartsOnly(steps, c)
    decreases 2 * (Pos(toStart) + |toStop|) + if addStart == (toStart > 0) then 0 else 1, addStart
  {
    if toStart <= 0 && toStop == [] {
    } else if addStart {
      InterleaveContents(if toStart > 0 then toStart - 1 else toStart, toStop, false,
                         if toStart > 0 then lock && StartParallelism(c) != SeriesFirst else lock, c);
    } else if toStop != [] {
      StopInFront(toStart, toStop, lock, c);
      InterleaveContents(toStart, toStop[1..], true, lock, c);
    } else {
      InterleaveContents(toStart, toStop, true, lock, c);
    }
  }

  lemma PlanContents(cs: seq<Container>, t: Target)
    ensures var plan := PlanOf(cs, t);
            && Starts(plan.steps) == StartsLeft(cs, t) && Stops(plan.steps) == ToStop(cs, t)
            && |plan.steps| == StartsLeft(cs, t) + |ToStop(cs, t)| && StartsOnly(plan.steps, t.component)
            && (plan.pull <==> StartsLeft(cs, t) > 0)
  {
    StopsAreStops(cs, t);
    InterleaveContents(t.count - |Kept(cs, t)|, ToStop(cs, t), t.component.restartOrder == StartStop,
                       StartParallelism(t.component) != Parallel, t.component);
  }

  lemma PlanSize(cs: seq<Container>, t: Target)
    ensures |PlanOf(cs, t).steps| == StartsLeft(cs, t) + |ToStop(cs, t)|
  {
    PlanContents(cs, t);
  }

  // ---------- rolling deploy bounds ----------

  function Net(steps: seq<Step>): int {
    if steps == [] then 0 else (if steps[0].StartStep? then 1 else -1) + Net(steps[1..])
  }

  function Min(a: int, b: int): int { if a < b then a else b }

  function Max(a: int, b: int): int { if a > b then a else b }

  lemma {:induction false} InterleaveBounds(toStart: int, toStop: seq<Step>, addStart: bool, lock: bool,
                                            c: Component, k: nat)
    requires AllStops(toStop) && k <= |Interleave(toStart, toStop, addStart, lock, c)|
    ensures var d := Net(Interleave(toStart, toStop, addStart, lock, c)[..k]);
            var s, p := Pos(toStart), |toStop|;
            if addStart then Min(0, s - p) <= d <= (if s > 0 then Max(1, s - p) else 0)
            else (if p > 0 then Min(-1, s - p) else 0) <= d <= Max(0, s - p)
    decreases 2 * (Pos(toStart) + |toStop|) + if addStart == (toStart > 0) then 0 else 1, addStart
  {
    var steps := Interleave(toStart, toStop, addStart, lock, c);
    if k == 0 {
    } else if addStart && toStart > 0 {
      var l := lock && StartParallelism(c) != SeriesFirst;
      assert steps[..k][1..] == Interleave(toStart - 1, toStop, false, l, c)[..k - 1];
      InterleaveBounds(toStart - 1, toStop, false, l, c, k - 1);
    } else if addStart {
      InterleaveBounds(toStart, toStop, false, lock, c, k);
    } else if toStop != [] {
      StopInFront(toStart, toStop, lock, c);
      InterleaveBounds(toStart, toStop[1..], true, lock, c, k - 1);
    } else {
      InterleaveBounds(toStart, toStop, true, lock, c, k);
    }
  }

  /** On every prefix of a plan, "startstop" never runs fewer containers than now or than wanted,
      whichever is less, and at most one more than the larger; any other order never runs more
      than the larger of the two, and at most one fewer than the smaller. */
  lemma RollingBounds(cs: seq<Container>, t: Target, k: nat)
    requires t.count >= 0 && k <= |PlanOf(cs, t).steps|
    ensures var n := |cs| + Net(PlanOf(cs, t).steps[..k]);
            if t.component.restartOrder == StartStop
            then Min(|cs|, t.count) <= n <= Max(|cs| + 1, t.count)
            else Min(|cs| - 1, t.count) <= n <= Max(|cs|, t.count)
  {
    StopsAreStops(cs, t);
    KeptCount(cs, t);
    InterleaveBounds(t.count - |Kept(cs, t)|, ToStop(cs, t), t.component.restartOrder == StartStop,
                     StartParallelism(t.component) != Parallel, t.component, k);
  }

  // ---------- lock flags ----------

  /** The i-th start of the steps takes the lock if lock says so for the first, later for the rest. */
  ghost predicate LocksFrom(steps: seq<Step>, first: bool, later: bool)
    decreases steps
  {
    steps != [] ==>
      if steps[0].StartStep? then steps[0].lock == first && LocksFrom(steps[1..], later, later)
      else LocksFrom(steps[1..], first, later)
  }

  lemma {:induction false} InterleaveLocks(toStart: int, toStop: seq<Step>, addStart: bool, lock: bool, c: Component)
    requires AllStops(toStop)
    ensures LocksFrom(Interleave(toStart, toStop, addStart, lock, c), lock, lock && StartParallelism(c) != SeriesFirst)
    decreases 2 * (Pos(toStart) + |toStop|) + if addStart == (toStart > 0) then 0 else 1, addStart
  {
    if toStart <= 0 && toStop == [] {
    } else if addStart {
      InterleaveLocks(if toStart > 0 then toStart - 1 else toStart, toStop, false,
                      if toStart > 0 then lock && StartParallelism(c) != SeriesFirst else lock, c);
    } else if toStop != [] {
      StopInFront(toStart, toStop, lock, c);
      InterleaveLocks(toStart, toStop[1..], true, lock, c);
    } else {
      InterleaveLocks(toStart, toStop, true, lock, c);
    }
  }

  /** No start is locked under "parallel", which is the default, every start under "series", and
      exactly the first under "seriesfirst". */
  lemma LockFlags(cs: seq<Container>, t: Target)
    ensures match t.component.parallelism
            case Unspecified => LocksFrom(PlanOf(cs, t).steps, false, false)
            case Parallel => LocksFrom(PlanOf(cs, t).steps, false, false)
            case Series => LocksFrom(PlanOf(cs, t).steps, true, true)
            case SeriesFirst => LocksFrom(PlanOf(cs, t).steps, true, false)
  {
    StopsAreStops(cs, t);
    InterleaveLocks(t.count - |Kept(cs, t)|, ToStop(cs, t), t.component.restartOrder == StartStop,
                    StartParallelism(t.component) != Parallel, t.component);
  }

  // ---------- applying steps ----------

  function RemoveId(cs: seq<Container>, id: nat): seq<Container> {
    if cs == [] then []
    else RemoveId(cs[..|cs| - 1], id) + if cs[|cs| - 1].id == id then [] else [cs[|cs| - 1]]
  }

  /** cs' is cs after the step succeeded. */
  ghost predicate Applied(cs: seq<Container>, step: Step, cs': seq<Container>) {
    match step
    case StopStep(id, _) => cs' == RemoveId(cs, id)
    case StartStep(c, _) =>
      && |cs'| == |cs| + 1 && cs'[..|cs|] == cs
      && cs'[|cs|].component == c && cs'[|cs|].terminateReason == ""
      && forall cn | cn in cs :: cn.id != cs'[|cs|].id
  }

  lemma {:induction false} RemoveAbsent(cs: seq<Container>, id: nat)
    requires forall i | 0 <= i < |cs| :: cs[i].id != id
    ensures RemoveId(cs, id) == cs
  {
    if cs != [] {
      RemoveAbsent(cs[..|cs| - 1], id);
    }
  }

  lemma {:induction false} RemoveKeeps(cs: seq<Container>, id: nat)
    ensures forall cn :: cn in RemoveId(cs, id) <==> cn in cs && cn.id != id
    ensures DistinctIds(cs) ==> DistinctIds(RemoveId(cs, id))
  {
    if cs != [] {
      var n := |cs| - 1;
      RemoveKeeps(cs[..n], id);
      assert cs == cs[..n] + [cs[n]];
    }
  }

  function RemoveAt(s: seq<Step>, j: nat): seq<Step>
    requires j < |s|
  {
    s[..j] + s[j + 1..]
  }

  /** Stopping a container that is to be stopped keeps the rest of the picture unchanged. */
  lemma {:induction false} StopApplied(cs: seq<Container>, t: Target, j: nat)
    requires DistinctIds(cs) && j < |ToStop(cs, t)| && ToStop(cs, t)[j].StopStep?
    ensures var cs' := RemoveId(cs, ToStop(cs, t)[j].id);
            Kept(cs', t) == Kept(cs, t) && ToStop(cs', t) == RemoveAt(ToStop(cs, t), j)
  {
    var n := |cs| - 1;
    var pre, cn := cs[..n], cs[n];
    assert pre + [cn] == cs;
    OneMore(pre, cn, t);
    if j < |ToStop(pre, t)| {
      StopApplied(pre, t, j);
      ToStopIdAt(pre, t, j, cn);
      assert RemoveId(cs, ToStop(cs, t)[j].id) == RemoveId(pre, ToStop(pre, t)[j].id) + [cn];
      LastStays(RemoveId(pre, ToStop(pre, t)[j].id), pre, cn, t, j);
    } else {
      assert forall i | 0 <= i < |pre| :: pre[i].id == cs[i].id;
      LastStopped(pre, cn, t);
    }
  }

  lemma ToStopIdAt(pre: seq<Container>, t: Target, j: nat, cn: Container)
    requires j < |ToStop(pre, t)| && ToStop(pre, t)[j].StopStep? && DistinctIds(pre + [cn])
    ensures ToStop(pre, t)[j].id != cn.id
  {
    ToStopIds(pre, t);
    assert ToStop(pre, t)[j] in ToStop(pre, t);
    var i :| 0 <= i < |pre| && pre[i].id == ToStop(pre, t)[j].id;
    assert (pre + [cn])[i] == pre[i] && (pre + [cn])[|pre|] == cn;
  }

  lemma RemoveAtAppend(s: seq<Step>, x: seq<Step>, j: nat)
    requires j < |s|
    ensures RemoveAt(s + x, j) == RemoveAt(s, j) + x
  {
  }

  lemma RemoveLast(s: seq<Step>, x: Step)
    ensures RemoveAt(s + [x], |s|) == s
  {
  }

  lemma LastStays(r: seq<Container>, pre: seq<Container>, cn: Container, t: Target, j: nat)
    requires Kept(r, t) == Kept(pre, t) && j < |ToStop(pre, t)| && ToStop(r, t) == RemoveAt(ToStop(pre, t), j)
    ensures Kept(r + [cn], t) == Kept(pre + [cn], t)
    ensures j < |ToStop(pre + [cn], t)| && ToStop(r + [cn], t) == RemoveAt(ToStop(pre + [cn], t), j)
  {
    OneMore(r, cn, t);
    OneMore(pre, cn, t);
    RemoveAtAppend(ToStop(pre, t), StopFor(|Kept(pre, t)|, cn, t), j);
  }

  lemma LastStopped(pre: seq<Container>, cn: Container, t: Target)
    requires StopFor(|Kept(pre, t)|, cn, t) != []
    requires forall i | 0 <= i < |pre| :: pre[i].id != cn.id
    ensures var j := |ToStop(pre, t)|;
            j < |ToStop(pre + [cn], t)| && ToStop(pre + [cn], t)[j].StopStep? && ToStop(pre + [cn], t)[j].id == cn.id
            && ToStop(pre, t) == RemoveAt(ToStop(pre + [cn], t), j)
    ensures Kept(pre, t) == Kept(pre + [cn], t) && RemoveId(pre + [cn], cn.id) == pre
  {
    OneMore(pre, cn, t);
    RemoveLast(ToStop(pre, t), StopFor(|Kept(pre, t)|, cn, t)[0]);
    RemoveAbsent(pre, cn.id);
    assert (pre + [cn])[..|pre|] == pre;
  }

  lemma StartApplied(cs: seq<Container>, t: Target, cs': seq<Container>, lock: bool)
    requires |Kept(cs, t)| < t.count && Applied(cs, StartStep(t.component, lock), cs')
    ensures Kept(cs', t) == Kept(cs, t) + [cs'[|cs|]] && ToStop(cs', t) == ToStop(cs, t)
  {
    assert cs'[..|cs'| - 1] == cs;
  }

  /** A step of the plan, successfully applied, makes the plan for the same target exactly one
      step shorter. */
  lemma OneStepShorter(cs: seq<Container>, t: Target, step: Step, cs': seq<Container>)
    requires DistinctIds(cs) && step in PlanOf(cs, t).steps && Applied(cs, step, cs')
    ensures DistinctIds(cs')
    ensures |PlanOf(cs', t).steps| == |PlanOf(cs, t).steps| - 1
  {
    PlanSize(cs, t);
    PlanSize(cs', t);
    PlanStepKind(cs, t, step);
    if step.StartStep? {
      StartApplied(cs, t, cs', step.lock);
      StartKeepsDistinct(cs, cs');
    } else {
      var j :| 0 <= j < |ToStop(cs, t)| && ToStop(cs, t)[j] == step;
      StopApplied(cs, t, j);
      RemoveKeeps(cs, step.id);
    }
  }

  lemma StartKeepsDistinct(cs: seq<Container>, cs': seq<Container>)
    requires DistinctIds(cs) && |cs'| == |cs| + 1 && cs'[..|cs|] == cs
    requires forall cn | cn in cs :: cn.id != cs'[|cs|].id
    ensures DistinctIds(cs')
  {
    assert forall i | 0 <= i < |cs| :: cs'[i] == cs[i] && cs[i] in cs;
  }

  lemma PlanStepKind(cs: seq<Container>, t: Target, step: Step)
    requires step in PlanOf(cs, t).steps
    ensures step.StartStep? ==> |Kept(cs, t)| < t.count && step.component == t.component
    ensures step.StopStep? ==> step in ToStop(cs, t)
  {
    PlanContents(cs, t);
    StepKind(PlanOf(cs, t).steps, step);
  }

  lemma {:induction false} StepKind(steps: seq<Step>, step: Step)
    requires step in steps
    ensures step.StartStep? ==> Starts(steps) > 0
    ensures step.StopStep? ==> step in Stops(steps)
  {
    if steps[0] != step {
      StepKind(steps[1..], step);
    }
  }

  // ---------- executing a plan ----------

  /** The steps are what is left to do for cs: the missing starts, and the stops in order. */
  ghost predicate Remaining(steps: seq<Step>, cs: seq<Container>, t: Target) {
    && Starts(steps) == StartsLeft(cs, t) && Stops(steps) == ToStop(cs, t)
    && StartsOnly(steps, t.component)
  }

  /** Executing the steps one by one keeps them in line with the containers. */
  lemma RemainingStep(steps: seq<Step>, cs: seq<Container>, t: Target, cs': seq<Container>)
    requires steps != [] && DistinctIds(cs) && Remaining(steps, cs, t) && Applied(cs, steps[0], cs')
    ensures DistinctIds(cs') && Remaining(steps[1..], cs', t)
    ensures Kept(cs', t) == Kept(cs, t) + if steps[0].StartStep? then [cs'[|cs|]] else []
  {
    assert forall s | s in steps[1..] :: s in steps;
    assert steps[0] in steps;
    if steps[0].StartStep? {
      StartApplied(cs, t, cs', steps[0].lock);
      StartKeepsDistinct(cs, cs');
    } else {
      assert Stops(steps)[0] == steps[0];
      StopApplied(cs, t, 0);
      RemoveKeeps(cs, steps[0].id);
      assert RemoveAt(ToStop(cs, t), 0) == ToStop(cs, t)[1..];
    }
  }

  lemma {:induction false} StepsLeft(steps: seq<Step>)
    ensures |steps| == Starts(steps) + |Stops(steps)|
  {
    if steps != [] {
      StepsLeft(steps[1..]);
    }
  }

  /** Nothing left to do: exactly the wanted number of containers, all healthy, and planning
      again gives no steps and no pull. */
  lemma Converged(cs: seq<Container>, t: Target)
    requires Remaining([], cs, t)
    ensures |cs| == Pos(t.count) && cs == Kept(cs, t) && forall cn | cn in cs :: Healthy(cn, t)
    ensures PlanOf(cs, t) == Plan(false, [])
  {
    KeptMeaning(cs, t);
    NothingToStop(cs, t);
    PlanContents(cs, t);
  }
}

/** The converger of one component and the registry that numbers the containers. */
module ConvergeRun {
  import opened ConvergePlan
  import opened ConvergeMeaning

  const NoDockerId := ""
  const UnusedDockerId := "unused"

  /** What the world outside answers while one step is applied. */
  datatype Outcome = Outcome(lockAcquired: bool, healthy: bool, dockerId: string)

  class Registry {
    var containerCounterId: nat

    constructor ()
      ensures containerCounterId == 0
    {
      containerCounterId := 0;
    }

    method IncrContainerIdCounter() returns (c: nat)
      modifies this
      ensures c == containerCounterId == old(containerCounterId) + 1
    {
      containerCounterId := containerCounterId + 1;
      c := containerCounterId;
    }

    /** Every change of a container draws a number from the same counter. */
    method OnContainersChanged()
      modifies this
      ensures containerCounterId == old(containerCounterId) + 1
    {
      var _ := IncrContainerIdCounter();
    }

    method CreateContainer(component: Component) returns (cn: Container)
      modifies this
      ensures old(containerCounterId) < containerCounterId
      ensures cn == Container(containerCounterId, NoDockerId, component, "")
    {
      var id := IncrContainerIdCounter();
      cn := Container(id, NoDockerId, component, "");
    }
  }

  /** Ids come from the counter, no two are equal, and docker ids tell containers apart too. */
  ghost predicate WellNumbered(cs: seq<Container>, counter: nat) {
    && DistinctIds(cs)
    && (forall i | 0 <= i < |cs| :: 1 <= cs[i].id <= counter && cs[i].containerId != UnusedDockerId)
    && forall i, j | 0 <= i < j < |cs| && cs[i].containerId != NoDockerId :: cs[i].containerId != cs[j].containerId
  }

  predicate Matches(cn: Container, id: nat, dockerId: string) { id == cn.id || dockerId == cn.containerId }

  predicate SameContainer(a: Container, b: Container) {
    || (a.id != 0 && b.id == a.id)
    || (a.containerId != NoDockerId && b.containerId == a.containerId)
  }

  ghost predicate FreshDockerId(cs: seq<Container>, dockerId: string) {
    dockerId != UnusedDockerId && forall i | 0 <= i < |cs| && dockerId != NoDockerId :: cs[i].containerId != dockerId
  }

  lemma AppendNumbered(cs: seq<Container>, counter: nat, cn: Container)
    requires WellNumbered(cs, counter) && counter < cn.id && FreshDockerId(cs, cn.containerId)
    ensures WellNumbered(cs + [cn], cn.id)
  {
  }

  lemma RaiseCounter(cs: seq<Container>, counter: nat, counter': nat)
    requires WellNumbered(cs, counter) && counter <= counter'
    ensures WellNumbered(cs, counter')
  {
  }

  lemma {:induction false} RemoveShape(cs: seq<Container>, id: nat, i: nat)
    requires DistinctIds(cs) && i < |cs| && cs[i].id == id
    ensures RemoveId(cs, id) == cs[..i] + cs[i + 1..]
  {
    var n := |cs| - 1;
    var pre := cs[..n];
    if i == n {
      assert forall j | 0 <= j < n :: pre[j].id == cs[j].id;
      RemoveAbsent(pre, id);
    } else {
      RemoveShape(pre, id, i);
      assert pre[..i] + pre[i + 1..] + [cs[n]] == cs[..i] + cs[i + 1..];
    }
  }

  lemma RemoveNumbered(cs: seq<Container>, counter: nat, i: nat)
    requires WellNumbered(cs, counter) && i < |cs|
    ensures WellNumbered(cs[..i] + cs[i + 1..], counter)
  {
    var r := cs[..i] + cs[i + 1..];
    assert forall j | 0 <= j < |r| :: r[j] == cs[if j < i then j else j + 1];
  }

  /** A stop step finds exactly the container it names. */
  lemma StopFindsOne(cs: seq<Container>, counter: nat, id: nat, i: nat)
    requires WellNumbered(cs, counter) && i < |cs| && cs[i].id == id
    ensures forall j | 0 <= j < |cs| :: Matches(cs[j], id, UnusedDockerId) <==> j == i
  {
  }

  class Converger {
    var containers: seq<Container>
    const registry: Registry

    ghost predicate Valid()
      reads this, registry
    {
      WellNumbered(containers, registry.containerCounterId)
    }

    constructor (registry: Registry)
      ensures Valid() && containers == [] && this.registry == registry
    {
      this.registry := registry;
      containers := [];
    }

    method Plan(target: Target) returns (plan: Plan)
      ensures plan == PlanOf(containers, target) && IsPlan(containers, target, plan)
    {
      var activeCount, toStop := Classify(target);
      var toStart := target.count - activeCount;
      var para := StartParallelism(target.component);
      var steps := Alternate(toStart, toStop, target.component.restartOrder == StartStop, para != Parallel,
                             target.component);
      plan := ConvergePlan.Plan(toStart > 0, steps);
      PlanIs(containers, target);
    }

    /** How many containers stay, and the stop steps for the others. */
    method Classify(target: Target) returns (activeCount: int, toStop: seq<Step>)
      ensures activeCount == |Kept(containers, target)| && toStop == ToStop(containers, target)
    {
      activeCount, toStop := 0, [];
      for i := 0 to |containers|
        invariant activeCount == |Kept(containers[..i], target)| && toStop == ToStop(containers[..i], target)
      {
        var cn := containers[i];
        assert containers[..i + 1] == containers[..i] + [cn];
        OneMore(containers[..i], cn, target);
        if activeCount >= target.count {
          toStop := toStop + [StopStep(cn.id, ReasonScaleDown)];
        } else if cn.terminateReason != "" {
          toStop := toStop + [StopStep(cn.id, cn.terminateReason)];
        } else if cn.component.name == target.component.name && cn.component.version == target.component.version {
          activeCount := activeCount + 1;
        } else {
          toStop := toStop + [StopStep(cn.id, ReasonVersionChanged)];
        }
      }
      assert containers[..|containers|] == containers;
    }

    /** The alternating loop: every second round may be idle, yet it ends. */
    static method Alternate(starts: int, stops: seq<Step>, startFirst: bool, lockFirst: bool, c: Component)
      returns (steps: seq<Step>)
      ensures steps == Interleave(starts, stops, startFirst, lockFirst, c)
    {
      var toStart, toStop, addStart, lock := starts, stops, startFirst, lockFirst;
      steps := [];
      while toStart > 0 || |toStop| > 0
        invariant steps + Interleave(toStart, toStop, addStart, lock, c)
               == Interleave(starts, stops, startFirst, lockFirst, c)
        decreases Pos(toStart) + |toStop|, if addStart == (toStart > 0) then 0 else 1
      {
        ghost var left := Interleave(toStart, toStop, addStart, lock, c);
        if addStart {
          addStart := false;
          if toStart > 0 {
            assert steps + left == steps + [left[0]] + left[1..];
            steps := steps + [StartStep(c, lock)];
            if StartParallelism(c) == SeriesFirst {
              lock := false;
            }
            toStart := toStart - 1;
          }
        } else {
          addStart := true;
          if |toStop| > 0 {
            assert steps + left == steps + [left[0]] + left[1..];
            steps := steps + [toStop[0]];
            toStop := toStop[1..];
          }
        }
      }
    }

    method AddContainer(cn: Container)
      modifies this
      ensures containers == old(containers) + [cn]
    {
      containers := containers + [cn];
    }

    /** Removes the first entry that is the same container, and nothing else. */
    method RemoveContainer(cn: Container) returns (removed: bool)
      modifies this
      ensures removed <==> exists i :: 0 <= i < |old(containers)| && SameContainer(cn, old(containers)[i])
      ensures removed <==> exists i | 0 <= i < |old(containers)| ::
                (cn.id != 0 && old(containers)[i].id == cn.id)
                || (cn.containerId != "" && old(containers)[i].containerId == cn.containerId)
      ensures !removed ==> containers == old(containers)
      ensures removed ==> exists i ::
          && 0 <= i < |old(containers)| && SameContainer(cn, old(containers)[i])
          && (forall j | 0 <= j < i :: !SameContainer(cn, old(containers)[j]))
          && containers == old(containers)[..i] + old(containers)[i + 1..]
    {
      removed := false;
      for i := 0 to |containers|
        invariant containers == old(containers) && !removed
        invariant forall j | 0 <= j < i :: !SameContainer(cn, containers[j])
      {
        if SameContainer(cn, containers[i]) {
          containers := containers[..i] + containers[i + 1..];
          removed := true;
          return;
        }
      }
    }

    /** Starts one container. A refused lock or a failed health check leaves the containers as
        they were; otherwise one new container with a number never used before stands last. */
    method Start(component: Component, lock: bool, outcome: Outcome) returns (ok: bool)
      requires Valid() && FreshDockerId(containers, outcome.dockerId)
      modifies this, registry
      ensures Valid() && old(registry.containerCounterId) <= registry.containerCounterId
      ensures ok <==> (lock ==> outcome.lockAcquired) && outcome.healthy
      ensures !ok ==> containers == old(containers)
      ensures ok ==> exists id ::
          && old(registry.containerCounterId) < id <= registry.containerCounterId
          && containers == old(containers) + [Container(id, outcome.dockerId, component, "")]
    {
      if lock && !outcome.lockAcquired {
        return false;
      }
      ghost var was, counter := containers, registry.containerCounterId;
      var cn := registry.CreateContainer(component);
      AddContainer(cn);
      registry.OnContainersChanged();
      cn := cn.(containerId := outcome.dockerId);
      containers := containers[|containers| - 1 := cn];
      assert containers == was + [cn];
      if !outcome.healthy {
        var removed := RemoveContainer(cn);
        assert SameContainer(cn, (was + [cn])[|was|]);
        assert forall i | 0 <= i < |was| :: (was + [cn])[i] == was[i] && !SameContainer(cn, was[i]);
        registry.OnContainersChanged();
        assert containers == was;
        RaiseCounter(was, counter, registry.containerCounterId);
        return false;
      }
      registry.OnContainersChanged();
      AppendNumbered(was, counter, cn);
      RaiseCounter(containers, cn.id, registry.containerCounterId);
      ok := true;
    }

    /** Stops every container the ids match and drops the last of them. */
    method StopAndRemoveContainer(id: nat, dockerId: string, reason: string)
      returns (stopped: seq<(Container, string)>)
      requires Valid()
      modifies this, registry
      ensures Valid() && old(registry.containerCounterId) <= registry.containerCounterId
      ensures forall cn, r :: (cn, r) in stopped <==>
          r == reason && cn in old(containers) && (cn.id == id || cn.containerId == dockerId)
      ensures stopped == [] ==> containers == old(containers)
      ensures stopped != [] ==> containers == RemoveId(old(containers), stopped[|stopped| - 1].0.id)
    {
      stopped := [];
      for i := 0 to |containers|
        invariant containers == old(containers) && Valid()
        invariant old(registry.containerCounterId) <= registry.containerCounterId
        invariant forall cn, r ::
            (cn, r) in stopped <==> r == reason && cn in containers[..i] && Matches(cn, id, dockerId)
      {
        var cn := containers[i];
        assert containers[..i + 1] == containers[..i] + [cn];
        if Matches(cn, id, dockerId) {
          ghost var counter := registry.containerCounterId;
          registry.OnContainersChanged();
          RaiseCounter(containers, counter, registry.containerCounterId);
          stopped := stopped + [(cn, reason)];
        }
      }
      assert containers[..|containers|] == containers;
      if stopped != [] {
        var found := stopped[|stopped| - 1].0;
        assert (found, stopped[|stopped| - 1].1) in stopped;
        ghost var counter := registry.containerCounterId;
        Drop(found);
        registry.OnContainersChanged();
        RaiseCounter(containers, counter, registry.containerCounterId);
      }
    }

    method Drop(found: Container)
      requires Valid() && found in containers
      modifies this
      ensures containers == RemoveId(old(containers), found.id)
      ensures Valid()
    {
      var keep: seq<Container> := [];
      for i := 0 to |containers|
        invariant containers == old(containers)
        invariant keep == RemoveId(containers[..i], found.id)
      {
        assert containers[..i + 1][..i] == containers[..i];
        if found.id != containers[i].id || found.containerId != containers[i].containerId {
          keep := keep + [containers[i]];
        }
      }
      assert containers[..|containers|] == containers;
      ghost var at :| 0 <= at < |containers| && containers[at] == found;
      RemoveShape(containers, found.id, at);
      RemoveNumbered(containers, registry.containerCounterId, at);
      containers := keep;
    }

    /** A stop step removes the container it names and no other. */
    method Stop(id: nat, reason: string)
      requires Valid() && exists i :: 0 <= i < |containers| && containers[i].id == id
      modifies this, registry
      ensures Valid() && old(registry.containerCounterId) <= registry.containerCounterId
      ensures containers == RemoveId(old(containers), id)
    {
      ghost var i :| 0 <= i < |containers| && containers[i].id == id;
      StopFindsOne(containers, registry.containerCounterId, id, i);
      var stopped := StopAndRemoveContainer(id, UnusedDockerId, reason);
      assert (old(containers)[i], reason) in stopped;
      assert (stopped[|stopped| - 1].0, stopped[|stopped| - 1].1) in stopped;
    }

    /** Applies one step of what remains; only a start can fail, and then nothing changes. */
    method ApplyStep(step: Step, outcome: Outcome) returns (ok: bool)
      requires Valid() && FreshDockerId(containers, outcome.dockerId)
      requires step.StopStep? ==> exists i :: 0 <= i < |containers| && containers[i].id == step.id
      modifies this, registry
      ensures Valid() && old(registry.containerCounterId) <= registry.containerCounterId
      ensures ok <==> Succeeds(step, outcome)
      ensures !ok ==> containers == old(containers)
      ensures ok ==> Applied(old(containers), step, containers)
      ensures forall d | d != outcome.dockerId && FreshDockerId(old(containers), d) :: FreshDockerId(containers, d)
    {
      match step
      case StartStep(component, lock) =>
        ok := Start(component, lock, outcome);
      case StopStep(id, reason) =>
        ghost var was := containers;
        Stop(id, reason);
        ghost var i :| 0 <= i < |was| && was[i].id == id;
        RemoveShape(was, id, i);
        ok := true;
    }

    /** Marks every container, in place, so that the next plan replaces all of them. */
    method MarkContainersForTermination(reason: string)
      requires Valid() && reason != ""
      modifies this
      ensures Valid() && |containers| == |old(containers)|
      ensures forall i | 0 <= i < |containers| :: containers[i] == old(containers)[i].(terminateReason := reason)
      ensures forall t: Target :: Kept(containers, t) == []
    {
      for i := 0 to |containers|
        invariant |containers| == |old(containers)|
        invariant forall j | 0 <= j < i :: containers[j] == old(containers)[j].(terminateReason := reason)
        invariant forall j | i <= j < |containers| :: containers[j] == old(containers)[j]
      {
        containers := containers[i := containers[i].(terminateReason := reason)];
      }
      forall t: Target ensures Kept(containers, t) == [] {
        NoneHealthy(containers, t);
      }
    }

    /** One round: plan, pull, then apply step after step until one fails. */
    method Converge(target: Target, pullOk: bool, outcomes: nat -> Outcome) returns (completed: bool, done: nat)
      requires Valid() && FreshOutcomes(containers, outcomes)
      modifies this, registry
      ensures Valid()
      ensures done <= |PlanOf(old(containers), target).steps|
      ensures |PlanOf(containers, target).steps| == |PlanOf(old(containers), target).steps| - done
      ensures Kept(old(containers), target) <= Kept(containers, target)
      ensures exists plan | IsPlan(old(containers), target, plan) && done <= |plan.steps| ::
                Stopped(plan, pullOk, outcomes, completed, done)
      ensures completed ==>
          && |containers| == (if target.count > 0 then target.count else 0)
          && (forall cn | cn in containers ::
                cn.terminateReason == "" && cn.component.name == target.component.name
                && cn.component.version == target.component.version)
          && PlanOf(containers, target) == ConvergePlan.Plan(false, []) && Kept(old(containers), target) <= containers
    {
      var plan := Plan(target);
      PlanContents(containers, target);
      if plan.pull && !pullOk {
        return false, 0;
      }
      completed, done := Execute(plan.steps, target, outcomes);
      RemainingSize(plan.steps[done..], containers, target);
      if completed {
        assert plan.steps[done..] == [];
        Converged(containers, target);
      }
    }

    /** Applies the first of the remaining steps. */
    method ExecuteFirst(steps: seq<Step>, ghost target: Target, outcome: Outcome) returns (ok: bool)
      requires Valid() && FreshDockerId(containers, outcome.dockerId)
      requires steps != [] && Remaining(steps, containers, target)
      modifies this, registry
      ensures Valid() && (ok <==> Succeeds(steps[0], outcome))
      ensures !ok ==> containers == old(containers)
      ensures ok ==>
          Remaining(steps[1..], containers, target) && Kept(old(containers), target) <= Kept(containers, target)
      ensures forall d | d != outcome.dockerId && FreshDockerId(old(containers), d) :: FreshDockerId(containers, d)
    {
      ghost var was := containers;
      if steps[0].StopStep? { RemainingStops(steps, containers, target); }
      ok := ApplyStep(steps[0], outcome);
      if ok {
        RemainingStep(steps, was, target, containers);
      }
    }

    /** Applies step after step until one fails. */
    method Execute(steps: seq<Step>, ghost target: Target, outcomes: nat -> Outcome)
      returns (completed: bool, done: nat)
      requires Valid() && FreshOutcomes(containers, outcomes) && Remaining(steps, containers, target)
      modifies this, registry
      ensures Valid() && done <= |steps| && Remaining(steps[done..], containers, target)
      ensures Kept(old(containers), target) <= Kept(containers, target)
      ensures forall k | 0 <= k < done :: Succeeds(steps[k], outcomes(k))
      ensures if completed then done == |steps| else done < |steps| && !Succeeds(steps[done], outcomes(done))
    {
      done := 0;
      while done < |steps|
        invariant Valid() && done <= |steps|
        invariant Remaining(steps[done..], containers, target)
        invariant Kept(old(containers), target) <= Kept(containers, target)
        invariant forall k | k >= done :: FreshDockerId(containers, outcomes(k).dockerId)
        invariant forall k | 0 <= k < done :: Succeeds(steps[k], outcomes(k))
      {
        assert steps[done..][0] == steps[done] && steps[done..][1..] == steps[done + 1..];
        completed := ExecuteFirst(steps[done..], target, outcomes(done));
        if !completed {
          return;
        }
        done := done + 1;
      }
      completed := true;
    }
  }

  predicate Succeeds(step: Step, outcome: Outcome) {
    step.StartStep? ==> (step.lock ==> outcome.lockAcquired) && outcome.healthy
  }

  /** Docker ids are never handed out twice. */
  ghost predicate FreshOutcomes(cs: seq<Container>, outcomes: nat -> Outcome) {
    && (forall k :: FreshDockerId(cs, outcomes(k).dockerId))
    && forall j, k | j != k :: outcomes(j).dockerId != outcomes(k).dockerId
  }

  /** How a round ends: at once when the pull fails, else at the first step that fails. */
  ghost predicate Stopped(plan: Plan, pullOk: bool, outcomes: nat -> Outcome, completed: bool, done: nat)
    requires done <= |plan.steps|
  {
    if plan.pull && !pullOk then !completed && done == 0
    else
      && (forall k | 0 <= k < done && plan.steps[k].StartStep? ::
            (plan.steps[k].lock ==> outcomes(k).lockAcquired) && outcomes(k).healthy)
      && if completed then done == |plan.steps|
         else done < |plan.steps| && plan.steps[done].StartStep?
              && ((plan.steps[done].lock && !outcomes(done).lockAcquired) || !outcomes(done).healthy)
  }

  lemma RemainingStops(steps: seq<Step>, cs: seq<Container>, t: Target)
    requires steps != [] && Remaining(steps, cs, t) && steps[0].StopStep?
    ensures exists i :: 0 <= i < |cs| && cs[i].id == steps[0].id
  {
    ToStopIds(cs, t);
    assert Stops(steps)[0] == steps[0];
    assert ToStop(cs, t)[0] in ToStop(cs, t);
  }

  lemma RemainingSize(steps: seq<Step>, cs: seq<Container>, t: Target)
    requires Remaining(steps, cs, t)
    ensures |PlanOf(cs, t).steps| == |steps|
  {
    StepsLeft(steps);
    PlanSize(cs, t);
  }
}

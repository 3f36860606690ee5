# A verified model of maelstrom

Maelstrom runs containers for components on a cluster of nodes. This project models how it
decides what runs where, how a node gets there, and how requests find their way, and proves
what these parts are for. Like the Go code, the model works step by step: classes whose methods
change fields, loops over slices and maps, and, where several nodes or goroutines act at once,
state machines over their atomic steps.

`dafny verify dfyconfig.toml` checks the whole project.

| file | about | models |
|---|---|---|
| `Foundations.dfy` | sums over maps, sizes of sets; sorting whose contract fixes no order among equal elements | |
| `Placement.dfy`, `PlacementOps.dfy`, `Displace.dfy`, `BestOption.dfy` | options for one node, and choosing one | `placement.go`, `sort.go` |
| `Planner.dfy`, `PlanRuns.dfy`, `StopRuns.dfy`, `PlanPhases.dfy`, `Autoscale.dfy`, `AutoscaleRun.dfy`, `Scale.dfy` | the autoscaler | `scale.go` |
| `Lease.dfy`, `StartLock.dfy` | role leases and the start lock between nodes | `sql_db.go`, `complock.go` |
| `Converger.dfy`, `ConvergeMeaning.dfy` | planning and applying start and stop steps | `converger.go`, `registry.go` |
| `Router.dfy`, `RemoteHandlers.dfy`, `Dispenser.dfy` | routing one component's requests | `router.go`, `dispenser.go` |
| `ClusterRouting.dfy`, `PlaceQueue.dfy` | routing and placement across nodes | `node_svc.go` |
| `VersionedTable.dfy`, `Project.dfy`, `ProjectApply.dfy`, `ProjectDiff.dfy`, `ProjectPages.dfy`, `MaelService.dfy` | putting whole projects | `project.go`, `mael_svc.go`, `sql_db.go` |
| `Resolver.dfy` | HTTP rules | `resolver.go`, `sort.go` |

Go visits maps in no fixed order and `sort.Sort` is not stable. The model picks an arbitrary
element wherever Go ranges over a map, and sorting promises a sorted permutation only, so every
result holds for all orders.

## Where the code does less than one might expect

- A second planner step for the same component on the same node is absorbed, because the
  earlier target wins the merge (`PlanTable.SecondStepAbsorbed`). Totals therefore move toward
  their target and never past it, but need not reach it: stopping 2 of 3 and 1 instances ends at
  3 (`StopRuns.ShortStop`). Stopping k always reaches the target exactly if at least k nodes have
  the most instances, and can reach it exactly if at least k have the most or one less
  (`StopRuns.TargetReached`).
- The scaling decision repeats itself under every load exactly if the scale-down percentage
  does not exceed the scale-up percentage, or the bounds are in force and allow at most two
  instances or one fixed number (`Scale.StableIff`); nothing enforces that.
- A lease is exclusive exactly with a safety margin of the largest clock difference
  (`LeaseProtocol.MarginExact`). When every process sticks to a duration, the processes on a node
  must moreover ask for the same one, and that is enough (`LeaseProtocol.DurationsExact`); a
  process that is alone on its node, such as the autoscaler with its one and three minutes, may
  change its mind (`LeaseProtocol.MutualExclusion`).
- A container start that fails keeps the start lock until the lease runs out or the node tries
  again (`StartLock.FailedStartKeepsLock`). Starts without the lock are starts of a deployed
  version exactly if every increment of the deploy count that fails does so at a positive count
  (`StartLock.DeployedIffFailuresHarmless`); otherwise two nodes can be starting a version that
  counts as not deployed (`StartLock.FailedCountBreaks`).
- A changed concurrency limit does not reach the remote handlers until instance counts change
  (`ClusterRouting.StaleExactly`).
- Moving an event source to a new component while its old one stays makes the project put fail,
  after its removals have been made (`ProjectApply.MoveToNewComponentConflicts`).
- Only the first 1000 components of a stored project, and the first 1000 event sources of each,
  are read. Over a project with more components no put that succeeds leaves what was submitted
  (`ProjectApply.UnlistedNotReadBack`), and neither does one that keeps a component with more
  event sources (`MaelService.MaelServiceImpl.PutProject`).
- Two enabled rules for one host and prefix that name different components leave it to the sort,
  which is not stable, who answers; nothing else does (`HttpRules.DuplicateRulesAmbiguous`).
- Displacement orders instances by last request time only: the instance counts that its comment
  and comparator speak of are never filled. The model follows the code.

## Notions the contracts use

- `Uniform`: every instance of a component reserves the same positive memory. `Safe`: on each
  node memory stays within the node's total or its initial use, and each limited component
  within its limit or its initial count. `Towards`: a total lies between its old value and its
  target, and scale-down makes progress whenever there is something to stop. `Stops`, `Starts`:
  runs of steps for one component, each on a node with the most instances, respectively with
  room and the fewest. `Falls`: of k wanted stops at least those on nodes with the most instances
  take effect, and at most those on nodes with the most or one less. `Full`: no node has room for
  an instance. `Progress`: every component to be scaled up has grown, or the table is full for
  it. `Turn`: a complete run of stops or starts for one delta; `Trace`: the tables around every
  turn of a planner call; `Filled`: the table between scaling and rebalancing. `OnlyGives`,
  `GaveAway`: what rebalancing takes from a node. `Served`, `Grows`: every component to be scaled
  up has grown, or only nodes that gave an instance away have room for it. `RisesFar`: how much
  each component grows at least, measured when its turn comes. `Blocked`: what runs on any other node with more than one container needs more
  memory than the node has.
- `IsTarget`: the number of instances that settings and reports call for. `LeastCovering`: the
  fewest instances that serve a load. `IsIdle`: no minimum, not seen within the timeout, no load.
- `StopsInOrder`, `Displaced`, `RoomMade`: the fewest stops, most recently requested first, that
  free enough memory. `CanFree`: stopping all that may be stopped frees enough.
- `Narrow`: the maximum is in force, and is at most two or equal to the minimum.
- `Holds`: a process has a lease that, by its own clock and with the skew to spare, has not
  expired. `History` and `Run`: any interleaving of atomic steps from the initial state.
  `SteadyRun`: processes that share a node ask for leases of that node's duration.
  `FailuresHarmless`: every increment of the deploy count that fails finds it positive.
- `Healthy`: right name and version and not marked. `IsPlan`: the whole plan in terms of the fields
  of containers and target. `Remaining`: a list of steps is exactly what
  is left to do.
- `Fits` (projects): every component name is free or the project's own, and every event source
  name is free or the project's own with its former component kept exactly if its new one is
  not new and the event source was listed. `ReadsBack`: the stored project equals the submitted one up to version, modification
  time and enabled flags. `WithinPage`: the stored components, and the event sources of each,
  are at most 1000; `OnPages`: at most 1000 event sources of each component were read, and all if
  there are no more.
- `IsComponentChange`, `IsSourceChange`: what has to be put for something submitted.
- `Best`: a rule that fits a request such that no rule that fits is more specific. `Determined`:
  all sorted orders of the rules give the same answer.

## Model

| member | source | states |
|---|---|---|
| `Placement.WeightedIsSum` | pkg/maelstrom/placement.go:67-92 | a node total that replaces running instances by targets where there are any is the sum over components of planned count times weight, for every weight |
| `Placement.TotalIsSum` | pkg/maelstrom/placement.go:67-92 | the container total of an option is the sum of its per-component counts |
| `Placement.RamIsWeightedCount` | pkg/maelstrom/placement.go:47-65 | with one positive reserve per component and distinct target names, memory used is the sum of count times reserve |
| `Placement.NoRamIffEmpty` | pkg/maelstrom/placement.go:47-65 | with positive reserves an option uses no memory exactly if it plans no container, so "RAM used is 0" does mean "idle" |
| `Placement.TargetMapPermuted` | pkg/maelstrom/placement.go:47-65 | with distinct names, reordering the targets changes neither counts nor memory |
| `PlacementOps.ContainerCountByComponent` | pkg/maelstrom/placement.go:67-92 | the loop over running containers and targets yields the planned count of every component and their total |
| `PlacementOps.CountMapIs` | pkg/maelstrom/placement.go:67-92 | the planned count of a component is its target if it has one, else the number of instances that run |
| `PlacementOps.RamUsed` | pkg/maelstrom/placement.go:47-65 | the loop yields targets times reserve plus the reserves of running containers without a target |
| `PlacementOps.RamForComponent` | pkg/maelstrom/placement.go:94-114 | the reserve taken for a component: the largest one seen on the node or its targets, 128 if none is positive |
| `PlacementOps.RamForIs` | pkg/maelstrom/placement.go:94-114 | the reserve taken is reserved by some instance or target and none reserves more; 128 if none reserves a positive amount |
| `PlacementOps.RamForUniform` | pkg/maelstrom/placement.go:94-114 | with one reserve per component that reserve is what is found, for every component the option mentions |
| `PlacementOps.CloneWithTargetDelta` | pkg/maelstrom/placement.go:13-45 | the clone keeps every other target, keeps names distinct and plans the old count plus delta for the one component |
| `PlacementOps.AdjustedEffect` | pkg/maelstrom/placement.go:13-45 | changing one target changes that count and the container total by exactly delta and no other count |
| `PlacementOps.AdjustedRam` | pkg/maelstrom/placement.go:13-65 | and it changes memory by exactly delta reserves |
| `PlacementOps.MergeTargetCounts` | pkg/maelstrom/scale.go:304-323 | every target of the second list survives and targets of the first only where the second has none |
| `PlacementOps.MergeOption` | pkg/maelstrom/scale.go:325-332 | merging a step into the table keeps the earlier target of a component over the new one |
| `PlacementOps.MergeAbsorbs` | pkg/maelstrom/scale.go:304-332 | merging a one-component step plans the step if the component had no target on the node, and is absorbed otherwise |
| `BestOption.ScaleUpDownCounts` | pkg/maelstrom/placement.go:121-136 | how many components the option scales above and below what runs |
| `BestOption.CostIsLexicographic` | pkg/maelstrom/placement.go:157-185 | fewest instances of the component, then fewest components displaced, then nodes with at most one container, then the lowest load |
| `BestOption.CostOrder` | pkg/maelstrom/placement.go:157-185 | the comparator is a strict weak order, so sorting with it is meaningful |
| `Sorting.StringLessIs` | pkg/maelstrom/sort.go:64-70 | names are compared by the first character in which they differ, a proper prefix coming first |
| `BestOption.SortTargets` | pkg/maelstrom/sort.go:64-70 | sorting the targets of an option by name is a permutation and changes no target |
| `BestOption.BestStopComponentOption` | pkg/maelstrom/placement.go:251-269 | none exactly if no node plans an instance; otherwise one instance less on some node, and no other candidate costs more; for every map order and unstable sort |
| `Displacing.ListDisplaceable` | pkg/maelstrom/placement.go:211-219 | in node order exactly the instances of other components fewer of which stand before them than are planned to stay |
| `Displacing.SortByRequestTime` | pkg/maelstrom/sort.go:51-62 | displacement order, most recent request first (the instance counts the comparator also looks at are never filled) |
| `Displacing.Displace` | pkg/maelstrom/placement.go:207-233 | stops the fewest instances, in order of most recent requests among all that may be stopped, that free enough memory; fails to free enough only if stopping all of them would not |
| `Displacing.LatestStopped` | pkg/maelstrom/placement.go:221-232 | no displaceable instance that stays was requested later than one that is stopped |
| `Displacing.FreshCanFree` | pkg/maelstrom/placement.go:207-233 | a fresh node that does not run the component can free all its memory |
| `BestOption.StartOption` | pkg/maelstrom/placement.go:195-241 | what one node contributes: the plain start whenever it fits; a start after displacement in that order otherwise, whenever displacement can free enough |
| `BestOption.StartEffect` | pkg/maelstrom/placement.go:227-239 | after displacement one instance more of the component, no more of any other, no negative count, and memory within the node |
| `BestOption.BestStartComponentOption` | pkg/maelstrom/placement.go:187-249 | the option returned is acceptable, stopping in displacement order only what is needed, and no considered option is cheaper; without displacement there is one exactly if some node has room, with it whenever some node has room or can free enough; it stops nothing if the component runs nowhere and some node has room |
| `BestOption.PlacementComplete` | pkg/maelstrom/placement.go:187-249 | with displacement, if some node is large enough and does not run the component, an option is found |
| `BestOption.PlacementFrugal` | pkg/maelstrom/placement.go:157-249 | if the component runs nowhere and some node has room, the chosen option stops nothing |
| `PlanTable.SecondStepAbsorbed` | pkg/maelstrom/scale.go:325-332 | a second step for the same component on the same node changes no count on any node |
| `PlanRuns.StepsChange` | pkg/maelstrom/scale.go:353-387 | after any run of steps for one component, each node chosen has changed by exactly one step, however often it was chosen |
| `PlanRuns.StopsFall` | pkg/maelstrom/scale.go:353-367 | out of k wanted stops at least min(k, nodes with the most instances) and at most min(k, nodes with the most or one less, but at least one) take effect |
| `PlanRuns.FallsMeaning` | pkg/maelstrom/scale.go:353-367 | so scale-down reaches its target when at least k nodes have the most instances, and misses it when fewer than k have the most or one less |
| `StopRuns.FallsExactly` | pkg/maelstrom/scale.go:353-367 | both bounds are exact: a number of stops is the number that takes effect in some run exactly if it lies between them |
| `StopRuns.TargetReached` | pkg/maelstrom/scale.go:353-367 | every run reaches the target exactly if at least k nodes have the most instances, some run does exactly if at least k have the most or one less |
| `StopRuns.ShortStop` | pkg/maelstrom/scale.go:353-367 | with 3 and 1 instances and 2 to stop every run ends at 3 instead of 2, and there is such a run |
| `PlanRuns.StartsRise` | pkg/maelstrom/scale.go:369-387 | out of k wanted starts at least min(k, nodes with room and the fewest instances among those) take effect |
| `PlanRuns.FullStays` | pkg/maelstrom/scale.go:369-387 | starts of other components never make room for a component no node had room for |
| `PlanTable.StopIsSafe` | pkg/maelstrom/scale.go:353-367 | a stop keeps memory and per-node limits |
| `PlanTable.StartIsSafe` | pkg/maelstrom/scale.go:369-387 | a start that fits keeps memory and per-node limits |
| `PlanTable.MoveConserves` | pkg/maelstrom/scale.go:389-406 | a move conserves the cluster-wide total of every component and empties no node |
| `PlanTable.MoveIsSafe` | pkg/maelstrom/scale.go:389-406 | a move to an idle node keeps memory and per-node limits of all nodes |
| `PlanTable.BlockedStays` | pkg/maelstrom/scale.go:389-406 | a later move cannot make an instance movable to a node for which none was |
| `Autoscale.FindCompToMove` | pkg/maelstrom/scale.go:420-444 | an instance on another node with more than one container that fits; none only if there is no such instance |
| `Autoscale.IdleIsSettled` | pkg/maelstrom/scale.go:389-444 | if nothing is found for an idle node, every instance on every other node with more than one container needs more memory than the idle node has |
| `Autoscale.SortDeltas` | pkg/maelstrom/scale.go:351-351 | deltas in ascending order, so all scale-down comes first |
| `PlanPhases.MostChosen` | pkg/maelstrom/placement.go:251-269 | the stop option chosen is on a node with the most planned instances |
| `PlanPhases.LeastChosen` | pkg/maelstrom/placement.go:187-249 | the start option chosen is on a node with the fewest planned instances among those with room |
| `PlanPhases.StopsScale` | pkg/maelstrom/scale.go:353-367 | a complete run of stops is a turn of the phase and moves the total toward its target by as much as the counts on the nodes allow |
| `PlanPhases.StartsScale` | pkg/maelstrom/scale.go:369-387 | a complete run of starts is a turn of the phase and makes the total grow, without passing the target, or ends with no node having room |
| `PlanPhases.PhasesScale` | pkg/maelstrom/scale.go:353-406 | the three phases together bring every total between where it was and its target, let scale-down fall as far as the counts on the nodes allow, and leave components without a delta alone |
| `PlanPhases.PhasesProgress` | pkg/maelstrom/scale.go:353-387 | after both scaling phases every component to be scaled up has grown or no node has room for it |
| `PlanPhases.PhasesRise` | pkg/maelstrom/scale.go:353-387 | each grows at least by the nodes that have room and the fewest instances when its turn comes, up to its delta |
| `PlanPhases.TurnsKeep` | pkg/maelstrom/scale.go:353-387 | no turn of another component changes the total of a component |
| `Autoscale.MoveGives` | pkg/maelstrom/scale.go:389-406 | while rebalancing a node that had something only gives instances away, and any other takes one at most |
| `Autoscale.RoomWasGiven` | pkg/maelstrom/scale.go:389-406 | a node that had no room for a component before rebalancing and has room afterwards gave an instance away |
| `Autoscale.ProgressServes` | pkg/maelstrom/scale.go:353-406 | hence at the end every component to be scaled up has grown, or only nodes that gave an instance away have room for it |
| `Autoscale.Planner.StopOnce` | pkg/maelstrom/scale.go:357-364 | one stop: fails only if the component is planned nowhere, else takes effect or is absorbed |
| `Autoscale.Planner.StartOnce` | pkg/maelstrom/scale.go:372-384 | one start: fails only if no node has room, else takes effect or is absorbed |
| `Autoscale.Planner.StopNext` | pkg/maelstrom/scale.go:357-364 | one more stop extends the run of stops, always on a node with the most instances, or nothing is left to stop |
| `Autoscale.Planner.ScaleDownComponent` | pkg/maelstrom/scale.go:354-367 | the total falls by at most the delta and as far as the counts on the nodes allow, strictly if any instance was planned; no other component changes |
| `Autoscale.Planner.StartNext` | pkg/maelstrom/scale.go:372-384 | one more start extends the run of starts, always on a node with room and the fewest instances, or no node has room |
| `Autoscale.Planner.ScaleUpComponent` | pkg/maelstrom/scale.go:370-387 | the total grows by at most the delta and at least by the nodes with room and the fewest instances, or no node has room at the end; no other component changes |
| `Autoscale.Planner.ScaleDown` | pkg/maelstrom/scale.go:353-367 | the whole scale-down phase: a turn, that is a complete run of stops, for every negative delta in order; totals fall by as much as the counts on the nodes allow, nothing else changes |
| `Autoscale.Planner.ScaleUp` | pkg/maelstrom/scale.go:369-387 | the whole scale-up phase: a turn, that is a complete run of starts, for every positive delta in order; each component has grown, without passing its target, or no node has room for it at the end of the phase |
| `Autoscale.Planner.RebalanceNode` | pkg/maelstrom/scale.go:390-405 | one turn of the rebalance loop: moves one instance to an idle node, or nothing can be moved to it |
| `Autoscale.Planner.Rebalance` | pkg/maelstrom/scale.go:389-406 | a turn for every node in order: conserves all totals, empties no node, keeps memory and limits, takes from nodes that had something only, and leaves no node idle to which some instance could be moved |
| `Autoscale.Planner.Collect` | pkg/maelstrom/scale.go:408-417 | the result lists exactly the changed nodes, in node order, with unchanged counts |
| `Autoscale.Planner.ComputeScaleStartStopInputs` | pkg/maelstrom/scale.go:334-418 | the turns of all three phases lead from what runs to the plan: no overshoot, scale-down as far as the counts on the nodes allow, each scale-up at least by the nodes with room and the fewest instances, and at the end grown or with room only where an instance was given away; no change without a delta, memory and per-node limits kept, every idle node blocked; for every order of nodes, map entries and equal elements |
| `AutoscaleRun.RemoveStopping` | pkg/maelstrom/scale.go:81-98 | exactly the containers that are not stopping remain, on every node |
| `AutoscaleRun.LiveIs` | pkg/maelstrom/scale.go:88-98 | the stopping containers are gone and all others are there as often as before |
| `AutoscaleRun.MatchingIs` | pkg/maelstrom/scale.go:157-163 | the instances of a component are exactly those reported under its name |
| `AutoscaleRun.LastSeenIs` | pkg/maelstrom/scale.go:164-165 | the time last seen is the latest request or start of any instance, or 0 |
| `AutoscaleRun.GroupInfos` | pkg/maelstrom/scale.go:157-166 | all containers by component, and the latest request or start of each component |
| `AutoscaleRun.TargetIs` | pkg/maelstrom/scale.go:170-287 | the target from settings and reports: above the scale-up percentage the fewest instances that serve the average load at it, else below the scale-down percentage the fewest that serve the maximum, else as many as there are; nearest to that within the bounds; 1, 0.75, 0.25 and 300 seconds stand in for settings not made |
| `AutoscaleRun.TargetIsUnique` | pkg/maelstrom/scale.go:170-287 | no other number meets this description |
| `AutoscaleRun.IdleGoesToZero` | pkg/maelstrom/scale.go:170-182 | a component without a minimum, not seen for longer than its idle timeout and without load is wanted nowhere |
| `AutoscaleRun.ToComponentConcurrency` | pkg/maelstrom/scale.go:156-195 | one record per defined component with its current count and the target so described |
| `AutoscaleRun.ToComponentDeltas` | pkg/maelstrom/scale.go:289-302 | one delta for exactly the components whose target differs from the current count |
| `AutoscaleRun.FreshClusterCount` | pkg/maelstrom/scale.go:334-349 | what a fresh table plans for a component is the number of its running containers |
| `AutoscaleRun.DeltasHaveTurns` | pkg/maelstrom/scale.go:156-195 | the planner has one turn for exactly the defined components whose target differs from what runs, by that difference |
| `AutoscaleRun.CalcAutoscalePlacement` | pkg/maelstrom/scale.go:70-79 | end to end: totals move toward the targets that settings and reports call for, without passing them; those above fall as far as the counts on the nodes allow; those below have grown, or only nodes that gave an instance away have room for them; undefined components stay, memory and limits hold, idle nodes are blocked |
| `AutoscaleRun.NeverToZero` | pkg/maelstrom/scale.go:156-195 | a running component with MinInstances at least 1 or within its idle timeout keeps at least one planned instance |
| `AutoscaleRun.RecentIsKeptAlive` | pkg/maelstrom/scale.go:161-179 | a request or start within the idle timeout keeps the component alive |
| `Scale.SumMaxConcurrency` | pkg/maelstrom/scale.go:221-253 | the loops yield the three sums, and the summed averages never exceed the summed maxima |
| `Scale.MaxActivityIs` | pkg/maelstrom/scale.go:237-242 | the maximum is 0 or one of the values, and no value exceeds it |
| `Scale.AverageIs` | pkg/maelstrom/scale.go:243-246 | the average times the number of values is their sum |
| `Scale.LoadsAddUp` | pkg/maelstrom/scale.go:232-247 | the loads of a component add up over its instances |
| `Scale.AverageAtMostMax` | pkg/maelstrom/scale.go:239-246 | summed averages are at most summed maxima |
| `Scale.CalcScaleTarget` | pkg/maelstrom/scale.go:255-287 | the target is the clamped decision, never negative, and at least 1 under a minimum of 1 |
| `Scale.UnclampedCovers` | pkg/maelstrom/scale.go:261-276 | before clamping the number is the least one that serves the load in question at the scale-up percentage, or the current count |
| `Scale.BranchDirection` | pkg/maelstrom/scale.go:261-276 | before clamping, exactly the scale-up branch exceeds the current count |
| `Scale.DecisionStable` | pkg/maelstrom/scale.go:255-287 | with scale-down percentage at most scale-up percentage, deciding again under the same load changes nothing, through every branch and both clamps |
| `Scale.InvertedUnstable` | pkg/maelstrom/scale.go:255-287 | with inverted percentages and m instances within the bounds but not the most allowed, loads for which the decision goes from 1 to m and then above m |
| `Scale.NarrowStable` | pkg/maelstrom/scale.go:255-287 | when the bounds allow at most two instances, or one fixed number, the decision is stable under every load whatever the percentages |
| `Scale.StableIff` | pkg/maelstrom/scale.go:255-287 | for all settings: the decision is stable under every load exactly if the scale-down percentage is at most the scale-up percentage or the bounds are that narrow |
| `RoleLock.RoleTable.Update` | pkg/db/sql_db.go:121-146 | the conditional update applies to an expired row or to the node's own row unchanged since it was read |
| `RoleLock.RoleTable.AcquireOrRenewRoleOnce` | pkg/db/sql_db.go:90-162 | one attempt running alone: granted, denied with the holder, or to be retried in the instant of expiry; the row changes only when granted |
| `RoleLock.RoleTable.AcquireOrRenewRole` | pkg/db/sql_db.go:77-88 | five attempts running alone fail only if the clock stands at the expiry of another node's row all the time |
| `RoleLock.RoleTable.ReleaseRole` | pkg/db/sql_db.go:164-171 | removes the row if and only if the node holds it |
| `LeaseProtocol.SampleKeepsInv` | pkg/db/sql_db.go:112-114 | taking the time, with a duration chosen by the call, keeps the invariant if processes that share a node agree on the duration |
| `LeaseProtocol.UpdateKeepsInv` | pkg/db/sql_db.go:110-148 | a conditional update that interleaves with anything keeps the invariant |
| `LeaseProtocol.InsertKeepsInv` | pkg/db/sql_db.go:151-161 | so does the insert |
| `LeaseProtocol.RunKeepsInv` | pkg/db/sql_db.go:77-171 | every interleaving of read, clock sample, update, insert, release and time keeps the invariant |
| `LeaseProtocol.HolderOwnsRow` | pkg/db/sql_db.go:77-171 | a process with an unexpired, unreleased lease owns the row |
| `LeaseProtocol.MutualExclusion` | pkg/db/sql_db.go:77-171 | no two nodes hold a role at once when each keeps the clock skew as a margin; a process alone on its node may ask for another duration in every call |
| `LeaseProtocol.ShorterRenewalClashes` | pkg/db/sql_db.go:121-148 | whenever two processes on one node ask for different durations, both at least the skew, there is a history in which two nodes hold the role at once |
| `LeaseProtocol.TakeoverRun` | pkg/db/sql_db.go:102-148 | with a smaller margin there is a history in which two nodes rely on the role at once |
| `LeaseProtocol.MarginExact` | pkg/db/sql_db.go:77-171 | a margin is safe in all histories exactly if it is at least the largest clock difference |
| `LeaseProtocol.DurationsExact` | pkg/db/sql_db.go:77-171 | with one duration per process, each at least the skew, the role is exclusive in all histories exactly if processes on one node ask for the same |
| `StartLock.AtMostOneStarter` | pkg/converge/complock.go:23-79 | at most one node is between acquiring the start lock and counting its start, under series and seriesfirst |
| `StartLock.SeriesStartsAlone` | pkg/converge/converger.go:437-455 | under series at most one node is starting a container at any time, whatever the deploy count |
| `StartLock.UnlockedStartsAreDeployed` | pkg/converge/converger.go:432-455 | if no increment fails at count 0, whoever starts without the lock, also in later steps of the same plan, starts a version already deployed |
| `StartLock.DeployedIffFailuresHarmless` | pkg/converge/converger.go:371-378 | and exactly then: a history keeps this throughout exactly if every increment that fails, after a first or a later start, does so at a positive count |
| `StartLock.FirstStartIsAlone` | pkg/converge/complock.go:33-52 | if no increment fails at count 0: while the deploy count is 0, all convergers that are starting a container are one and it holds the lock |
| `StartLock.FirstCountHoldsLock` | pkg/converge/complock.go:65-71 | if no increment fails at count 0: the first increment of the deploy count is made under the lock |
| `StartLock.FailedCountBreaks` | pkg/converge/converger.go:371-378 | a history in which the first increment fails, the lease runs out, and two nodes are starting containers while the deploy count is still 0 |
| `StartLock.LeaseStays` | pkg/converge/converger.go:362-367 | after a failed start the lease stays exactly as it was until the node acquires the role again |
| `StartLock.FailedStartKeepsLock` | pkg/converge/converger.go:362-367 | until that lease runs out, less the skew, the node still owns the row and no node is starting under the lock |
| `ConvergePlan.KeptMeaning` | pkg/converge/converger.go:399-418 | the plan keeps min(count, healthy) containers, all healthy, and stops all others |
| `ConvergePlan.PlanContents` | pkg/converge/converger.go:424-465 | the steps are exactly the missing starts of the target component and one stop per container not kept, in order; pull is set exactly if something starts |
| `ConvergePlan.RollingBounds` | pkg/converge/converger.go:437-465 | on every prefix, startstop never runs fewer than min(current, target), any other order never more than max(current, target), and either misses the other bound by at most one |
| `ConvergePlan.LockFlags` | pkg/converge/converger.go:432-453 | no start is locked under parallel or no setting, every start under series, exactly the first under seriesfirst |
| `ConvergeMeaning.ToStopIs` | pkg/converge/converger.go:399-418 | the stop steps are for exactly the containers that do not stay, in order, each for the first reason that applies: enough before it, marked, another version |
| `ConvergeMeaning.InterleaveTurns` | pkg/converge/converger.go:435-465 | starts and stops take turns until one kind is used up, a start first exactly under startstop |
| `ConvergeMeaning.PlanLocks` | pkg/converge/converger.go:432-453 | the locks step by step, from the startParallelism setting alone |
| `ConvergeMeaning.PlanIs` | pkg/converge/converger.go:387-477 | all of this of the whole plan, in terms of the fields of containers and target |
| `ConvergePlan.StopApplied` | pkg/converge/converger.go:235-244 | stopping one container that is to be stopped leaves what is kept unchanged and removes just that stop |
| `ConvergePlan.OneStepShorter` | pkg/converge/converger.go:387-465 | a step of the plan, applied, makes the plan for the same target exactly one step shorter |
| `ConvergePlan.Converged` | pkg/converge/converger.go:387-465 | when nothing is left there are exactly count containers, all healthy, and planning again gives no step and no pull |
| `ConvergeRun.Registry.CreateContainer` | pkg/converge/registry.go:181-198 | every container gets a number larger than any before |
| `ConvergeRun.Converger.Plan` | pkg/converge/converger.go:387-477 | the two loops compute the specified plan, with its starts, stops, reasons, locks and order |
| `ConvergeRun.Converger.Alternate` | pkg/converge/converger.go:439-465 | the alternating loop ends and consumes starts and stops as specified |
| `ConvergeRun.Converger.RemoveContainer` | pkg/converge/converger.go:323-340 | removes the first entry that is the same container, and nothing else |
| `ConvergeRun.Converger.Start` | pkg/converge/converger.go:342-379 | a refused lock or failed health check leaves the containers as they were; a success appends one container with a new number |
| `ConvergeRun.Converger.StopAndRemoveContainer` | pkg/converge/converger.go:221-254 | stops exactly the containers that match either id and drops the last of them |
| `ConvergeRun.Converger.Stop` | pkg/converge/converger.go:381-385 | a stop step removes the container it names and no other |
| `ConvergeRun.Converger.MarkContainersForTermination` | pkg/converge/converger.go:208-215 | all containers are marked and no plan keeps any of them |
| `ConvergeRun.Converger.Execute` | pkg/converge/converger.go:289-305 | steps are applied until the first that fails; what remains of the plan stays exactly what is left to do |
| `ConvergeRun.Converger.Converge` | pkg/converge/converger.go:275-313 | one round: the new plan is shorter by the number of steps done, kept containers stay, and a round without failure leaves exactly the target and nothing to do |
| `RouterState.TransitionsKeepConsistent` | pkg/router/router.go:186-318 | every critical section keeps: On, Pending and Off follow from the counts, Pending has a loop, channels are open while in use |
| `RouterState.Router.HandlerStart` | pkg/router/router.go:186-201 | one handler more, state On, and an open channel that is the current one |
| `RouterState.Router.HandlerStop` | pkg/router/router.go:203-220 | panics exactly if no handler is active; otherwise one less, and entering Pending starts one loop |
| `RouterState.Router.RouteStart` | pkg/router/router.go:281-289 | one request more, never Off afterwards, and entering Pending starts one loop |
| `RouterState.Router.RouteDone` | pkg/router/router.go:291-298 | one request less |
| `RouterState.Router.DestroyIfIdle` | pkg/router/router.go:222-237 | closes the channels exactly when no handler and no request can be using them |
| `RouterState.Router.PendingLoopStep` | pkg/router/router.go:320-325 | check, ask, sleep; a check that does not see Pending ends the loop |
| `RouterRuns.HistoryKeepsInv` | pkg/router/router.go:186-325 | in every reachable state the counts are those of running handlers and requests, the states mean what they say, and every handler listens on the current channels |
| `RouterRuns.ChannelsStayOpen` | pkg/router/router.go:222-237 | while a handler or request is there no step closes or replaces the channels |
| `RouterRuns.PendingAsks` | pkg/router/router.go:309-325 | while requests wait without handlers a loop runs and every running loop is at most three statements from asking for a placement |
| `RouterRuns.LoopEnds` | pkg/router/router.go:320-325 | a loop ends at its check exactly if requests no longer wait |
| `RouterRuns.AskedBecausePending` | pkg/router/router.go:320-325 | a loop asks for a placement only when the check just before saw Pending; between two asks of one loop there is such a check |
| `RouterRuns.LoopsWindDown` | pkg/router/router.go:320-325 | while the router is not Pending every loop asks at most once more and is gone after three statements of its own |
| `RemoteHandlers.EveryHandlerAccounted` | pkg/router/router.go:100-152 | whatever the calls, every handler ever started is listed once, under one URL, or was cancelled exactly once |
| `RemoteHandlers.RemovedAreCancelled` | pkg/router/router.go:130-151 | a handler no longer listed was cancelled in between, once |
| `RemoteHandlers.Remotes.SetCount` | pkg/router/router.go:104-141 | one URL: the oldest handlers are cancelled down to the count, new ones appended up to it if the URL parses |
| `RemoteHandlers.Remotes.SetRemoteHandlerCounts` | pkg/router/router.go:100-152 | all URLs are resized and those not given lose all handlers, for every map order |
| `Dispensing.NextKeepsInv` | pkg/revproxy/dispenser.go:53-88 | the counter is running proxies plus reports under way plus the one being handed over |
| `Dispensing.HardLimit` | pkg/revproxy/dispenser.go:26-45 | a limit of at least 1 bounds the proxies in use at any moment, and a finished proxy can always report at once |
| `Dispensing.ServesUnderLimit` | pkg/revproxy/dispenser.go:61-70 | a serving dispenser takes a request exactly if it has no limit or fewer proxies are out than it allows |
| `Dispensing.ReturnsWhenAllDone` | pkg/revproxy/dispenser.go:83-88 | Run returns only after every proxy it handed out has reported back |
| `Dispensing.NeverStuck` | pkg/revproxy/dispenser.go:83-88 | draining can always go on |
| `Dispensing.DrainShrinks` | pkg/revproxy/dispenser.go:83-88 | every event while draining brings the return closer |
| `Dispensing.Dispenser.Select` | pkg/revproxy/dispenser.go:61-80 | the select takes a request only under the limit |
| `Dispensing.Dispenser.DoneFx` | pkg/revproxy/dispenser.go:26-36 | the done message is sent at once under a hard limit |
| `Dispensing.Dispenser.Drain` | pkg/revproxy/dispenser.go:83-87 | waits for reports, and returns exactly at count 0 |
| `RemoteCounts.InstancesAreActive` | pkg/maelstrom/node_svc.go:1081-1098 | what is counted for a component and URL is the number of active containers on other nodes reached there |
| `RemoteCounts.ToRemoteCountsByComponent` | pkg/maelstrom/node_svc.go:1081-1098 | the nested loops compute these numbers and mention nothing else |
| `ClusterRouting.StaleExactly` | pkg/maelstrom/node_svc.go:164-176 | after an update the handlers reflect the present concurrency limit exactly if the counts changed, the limit did not, or no URL parses |
| `ClusterRouting.StaleExample` | pkg/maelstrom/node_svc.go:164-164 | raising the limit from 1 to 2 with unchanged counts is missed |
| `ClusterRouting.NodeRouting.SetHandlers` | pkg/maelstrom/node_svc.go:175-175 | sets the handlers of one component and of no other |
| `ClusterRouting.NodeRouting.UpdateComponent` | pkg/maelstrom/node_svc.go:164-181 | a component is refreshed if its counts changed and its definition is found, and otherwise keeps its handlers |
| `ClusterRouting.NodeRouting.OnClusterUpdated` | pkg/maelstrom/node_svc.go:149-189 | the cache and all handlers after one update, also when definitions cannot be read |
| `ClusterRouting.NodeRouting.ProcessUpdates` | pkg/maelstrom/node_svc.go:149-189 | with constant limits and readable definitions, after any sequence of updates the handlers for every component and URL are instances times limit for the latest nodes |
| `PlaceQueue.SingleFlight` | pkg/maelstrom/node_svc.go:329-361 | no component is being placed twice at the same moment on a node |
| `PlaceQueue.WaiterServed` | pkg/maelstrom/node_svc.go:334-355 | a caller that waits gets the result of the placement in progress when it came |
| `PlaceQueue.PlaceCompWaiters.Leave` | pkg/maelstrom/node_svc.go:350-355 | the result goes to every queued caller and the queue is closed |
| `VersionedTable.PutsSucceedIff` | pkg/db/sql_db.go:500-538 | version-checked writes to different rows all succeed exactly if each would alone, and write just those rows |
| `ProjectStore.Db.PutComponent` | pkg/db/sql_db.go:181-207 | version 0 inserts, other versions update the row that has them; the error of each failure |
| `ProjectStore.Db.PutEventSource` | pkg/db/sql_db.go:346-377 | the same for event sources; the enabled flag of a row survives updates |
| `ProjectStore.Db.RemoveComponent` | pkg/db/sql_db.go:337-344 | removes the component and its event sources |
| `ProjectDiffing.DiffSources` | pkg/maelstrom/project.go:61-78 | which event sources of a component are put, and with which version |
| `ProjectDiffing.AllListedAre` | pkg/maelstrom/project.go:41-46 | the event sources looked at are those of the components, each under its component |
| `ProjectDiffing.ComponentsPutAre` | pkg/maelstrom/project.go:51-60 | a submitted component is put exactly if it is new, or differs from the old one in more than version and time, whose version it then carries |
| `ProjectDiffing.SourcesPutAre` | pkg/maelstrom/project.go:61-78 | an event source is put exactly if its component or name is new, or it differs in owner, settings or enabled flag |
| `ProjectDiffing.NothingToPut` | pkg/maelstrom/project.go:51-78 | nothing is put for what is there already |
| `ProjectDiffing.Missing` | pkg/maelstrom/project.go:81-98 | exactly the names found before and not after, strictly sorted, for every map order |
| `ProjectDiffing.DiffProject` | pkg/maelstrom/project.go:27-106 | the whole diff: what is put and removed, and that it puts nothing for a project that is there already |
| `ProjectStore.Db.ListComponents` | pkg/db/sql_db.go:261-335 | the first 1000 components of the project, each once |
| `ProjectPages.AllReadIffWithin` | pkg/db/sql_db.go:301-335 | the event sources of all components that stay were read exactly if each of these components has at most 1000 |
| `ProjectPages.PagesStored` | pkg/db/sql_db.go:301-335 | what is read are stored event sources of the project, and all of them if they fit on their pages |
| `MaelService.MaelServiceImpl.GetProjectInternal` | pkg/maelstrom/mael_svc.go:209-232 | only components of the project, as many as there are up to the page limit, and of each of them only its event sources, as many as there are up to the page limit; everything when it fits |
| `ProjectApply.CompPutAccepted` | pkg/maelstrom/project.go:51-76 | a component put passes the version check exactly if the name is free or in the project |
| `ProjectApply.SrcPutAccepted` | pkg/maelstrom/project.go:61-78 | an event source put passes exactly if the name is free, or it is in the project and its old component stays exactly if its new one is old and it was listed |
| `ProjectApply.NoConflictIffFits` | pkg/maelstrom/mael_svc.go:142-190 | all writes pass their version checks exactly if every name fits |
| `ProjectApply.AppliedReadsBack` | pkg/maelstrom/mael_svc.go:142-190 | then no other project changed, and the store reads back as the submitted project up to versions, times and enabled flags exactly if all event sources of the components that stay were listed |
| `ProjectApply.MoveToNewComponentConflicts` | pkg/maelstrom/project.go:71-78 | moving an event source from a component that stays to a new one is refused |
| `ProjectApply.UnlistedNotReadBack` | pkg/maelstrom/mael_svc.go:126-193 | when not all components of the project were listed, no put that passes the version checks leaves a store that reads back as submitted |
| `MaelService.UnchangedComponentsStay` | pkg/maelstrom/mael_svc.go:155-167 | a component submitted as it is stored keeps its row, version included |
| `MaelService.UnchangedSourcesStay` | pkg/maelstrom/mael_svc.go:168-188 | and so does an event source with the same owner, settings and enabled flag |
| `MaelService.MaelServiceImpl.PutProject` | pkg/maelstrom/mael_svc.go:126-193 | goes through exactly if every name fits, and then reads back as submitted exactly if every component that stays has at most 1000 event sources; what is submitted unchanged keeps its row and version; even on a conflict the components no longer wanted are gone; no successful put over a stored project of more than 1000 components reads back; a diff-only call writes nothing |
| `HttpRules.RuleOrder` | pkg/maelstrom/sort.go:82-101 | on HTTP event sources the comparator is a strict weak order |
| `HttpRules.LessNeedsHttp` | pkg/maelstrom/sort.go:82-101 | with rows without an HTTP part it runs in circles |
| `HttpRules.MatchesMeansFits` | pkg/maelstrom/resolver.go:138-147 | a rule matches exactly if it names a host or a prefix and all it names fits |
| `HttpRules.FirstIsBest` | pkg/maelstrom/resolver.go:124-132 | in sorted order the first match is a most specific match |
| `HttpRules.BestIsLongest` | pkg/maelstrom/sort.go:82-101 | the best rule names a host if any rule that fits does, and has the longest prefix among those |
| `HttpRules.BestIsUnique` | pkg/maelstrom/resolver.go:117-147 | host and prefix of the answer are the same for every input order and unstable sort |
| `HttpRules.AnswerIsBest` | pkg/maelstrom/resolver.go:117-136 | however the rules are sorted, a best rule answers if any rule fits, and none otherwise |
| `HttpRules.BestCanAnswer` | pkg/maelstrom/sort.go:82-101 | every best rule answers under some sorted order |
| `HttpRules.DeterminedIff` | pkg/maelstrom/resolver.go:117-136 | the component that answers a request is the same for every sorted order exactly if all best rules name the same component |
| `HttpRules.DuplicateRulesAmbiguous` | pkg/maelstrom/sort.go:82-101 | it is the same for every request and every order exactly if no two rules that can answer share host and prefix and name different components |
| `Resolver.HostnameOf` | pkg/maelstrom/resolver.go:117-121 | the part of the host before the first colon |
| `Resolver.HostIsPrefix` | pkg/maelstrom/resolver.go:117-121 | which is the host up to the first colon, or all of it |
| `Resolver.EnabledMembers` | pkg/maelstrom/resolver.go:159-166 | exactly the enabled rules are in force |
| `Resolver.BestIsAnswer` | pkg/maelstrom/resolver.go:117-147 | in terms of the fields: rules for the host before rules for any host, then longer prefixes before shorter ones |
| `Resolver.DbComponentResolver.ByName` | pkg/maelstrom/resolver.go:59-79 | a cached component until the cache expires, else what the database says; the expiry moves only when it has passed |
| `Resolver.DbComponentResolver.OnComponentNotification` | pkg/maelstrom/resolver.go:42-57 | the changed component and all rules are read again |
| `Resolver.DbComponentResolver.AllEnabledHttpEventSources` | pkg/maelstrom/resolver.go:81-100 | the sorted enabled rules, read again when expired or dropped |
| `Resolver.DbComponentResolver.ByHTTPRequest` | pkg/maelstrom/resolver.go:102-136 | the component of a most specific enabled rule, with the prefix stripped where asked; no rule answers only if no enabled rule fits |

## Left out

- Docker, cloud providers, certificates, HTTP proxying, log streaming, the command line, YAML, name validation and RPC stubs.
- Placement options are values stored in a map, so an in-place write to an option is a map update; options shared by two pointers are not modelled, and the code creates none that outlive a write.
- The planner's memory results assume one positive reserve per component; mixed reserves, and reserve 0 (which counts as 128 MiB when an instance is moved), are modelled in the operations but not covered by the safety results.
- 64-bit overflow and rounding of floating point; sums, percentages and loads are exact reals.
- Distinct node ids, and distinct delta names, are assumed by the planner; component definitions come from a map, so their names are distinct.
- Clocks are parameters of the call that samples them; one project put uses one time for all its writes.
- Database errors other than version conflicts are modelled only in the resolver and in reading component definitions; partial failure of a statement is not.
- The order of listings, which the database sorts by name; the model takes any order, so the first page holds any 1000 rows.
- The lease and start-lock protocols assume atomic SQL statements; the retry on a locked SQLite table is a step without effect.
- The start-lock results assume one converger per node for the component and that no lease expires while its holder starts a container; those about the deploy count also assume `FailuresHarmless`, without which they are false, see `StartLock.DeployedIffFailuresHarmless`.
- The periodic ticker and run channel of the converger; its rounds are calls of `Converge`.
- Contexts that are cancelled are the failure outcome of the step they interrupt.
- Container ids never wrap around, and Docker never hands out the same container id twice.
- Exclusive placement across nodes: the placement role is released as soon as it is acquired, because the deferred call evaluates its argument at once; only the queue on one node is modelled.
- Which components the autoscaler loads, and the order in which its options are sent to the nodes (starts before stops).
- Placement calls to peers, waiting times and the three-minute timeout of a queued caller.
- `LeaseProtocol.MutualExclusion`: covers leases used with the clock skew as margin and one duration among processes that share a node, because without either the statement is false, see `LeaseProtocol.MarginExact` and `LeaseProtocol.DurationsExact`.
- `ConvergeRun.Converger.Converge`: start and stop steps are applied one after another; notifications to other parts only draw a number from the registry's counter.
- `RemoteHandlers.Remotes.SetRemoteHandlerCounts`: counts are non-negative, as the only caller passes; a negative count makes the code index an empty slice.
- `MaelService.MaelServiceImpl.PutProject`: the project comes with lower-case prefixed names, owners, its own project name and version 0 filled in, and without duplicate names.
- `ProjectApply.AppliedReadsBack`: up to the enabled flags, which project puts never write.
- `BestOption.PlacementComplete`: for nodes that do not run the component and have no targets yet, since displacement never stops the component itself.
- `Dispensing.HardLimit`: without a hard limit (maximum below 1) the done channel holds one message and a report may wait for the loop; `Dispensing.NeverStuck` covers that case.
- Which handler takes a routed request, local first and with time-outs, and the request itself.
- Notification of subscribers, node termination, cluster membership, event pollers, and the cron and SQS sources.

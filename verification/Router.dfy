/** The router of one component: a lock-protected state machine fed by requests, handlers and
    the loops that ask for a placement while requests wait. */
module RouterState {
  import opened ClusterTypes

  datatype State = Off | Pending | On

  /** Where a placement-requesting goroutine is; one that has left its loop is gone. */
  datatype Loop = AtCheck | AboutToAsk | Asleep

  /** The fields under the lock, the request channels numbered in the order they are made, and
      the goroutines that still run, numbered in the order they were started. */
  datatype View = View(state: State, inflightReqs: int, activeHandlers: int,
                       channels: Option<nat>, made: nat, loops: map<nat, Loop>, started: nat)

  const Fresh := View(Off, 0, 0, None, 0, map[], 0)

  function EnsureReqChan(v: View): View {
    if v.channels == None then v.(channels := Some(v.made), made := v.made + 1) else v
  }

  function SetPending(v: View): View {
    if v.state == Pending then v
    else v.(state := Pending, loops := v.loops[v.started := AtCheck], started := v.started + 1)
  }

  function HandlerStarted(v: View): View {
    EnsureReqChan(v.(activeHandlers := v.activeHandlers + 1, state := On))
  }

  function HandlerStopped(v: View): View {
    var u := v.(activeHandlers := v.activeHandlers - 1);
    if u.activeHandlers == 0 then if u.inflightReqs > 0 then SetPending(u) else u.(state := Off)
    else u
  }

  function RouteStarted(v: View): View {
    var u := EnsureReqChan(v.(inflightReqs := v.inflightReqs + 1));
    if u.state == Off then SetPending(u) else u
  }

  function RouteEnded(v: View): View {
    var u := v.(inflightReqs := v.inflightReqs - 1);
    if u.inflightReqs == 0 && u.activeHandlers == 0 then u.(state := Off) else u
  }

  function DestroyedIfIdle(v: View): View {
    if v.state != Off || v.inflightReqs != 0 then v else v.(channels := None)
  }

  /** The next statement of loop i; a check that does not see Pending ends the loop. */
  function LoopStepped(v: View, i: nat): View
    requires i in v.loops
  {
    match v.loops[i]
    case AtCheck =>
      if v.state == Pending then v.(loops := v.loops[i := AboutToAsk])
      else v.(loops := v.loops - {i})
    case AboutToAsk => v.(loops := v.loops[i := Asleep])
    case Asleep => v.(loops := v.loops[i := AtCheck])
  }

  /** What the three states mean, that somebody asks for a placement while requests wait, and
      that the channels are open while anybody may use them. */
  ghost predicate Consistent(v: View) {
    && v.inflightReqs >= 0 && v.activeHandlers >= 0
    && (v.state == On <==> v.activeHandlers > 0)
    && (v.state == Pending <==> v.activeHandlers == 0 && v.inflightReqs > 0)
    && (v.state == Pending ==> exists i :: i in v.loops) && (forall i | i in v.loops :: i < v.started)
    && (v.activeHandlers + v.inflightReqs > 0 ==> v.channels.Some?)
    && (v.channels.Some? ==> v.channels.value < v.made)
  }

  /** v turned into u by dh more handlers and dr more requests: the state follows from the new
      counts, open channels stay the same, and entering Pending starts one loop. */
  ghost predicate Became(v: View, u: View, dh: int, dr: int) {
    && Consistent(u)
    && u.activeHandlers == v.activeHandlers + dh && u.inflightReqs == v.inflightReqs + dr
    && (v.channels.Some? ==> u.channels == v.channels && u.made == v.made)
    && (v.channels == None && u.channels.Some? ==> u.channels.value == v.made && u.made == v.made + 1)
    && (if v.state != Pending && u.state == Pending
        then u.loops == v.loops[v.started := AtCheck] && u.started == v.started + 1
        else u.loops == v.loops && u.started == v.started)
  }

  lemma TransitionsKeepConsistent(v: View)
    requires Consistent(v)
    ensures Became(v, HandlerStarted(v), 1, 0) && Became(v, RouteStarted(v), 0, 1)
    ensures v.activeHandlers > 0 ==> Became(v, HandlerStopped(v), -1, 0)
    ensures v.inflightReqs > 0 ==> Became(v, RouteEnded(v), 0, -1)
    ensures Consistent(DestroyedIfIdle(v))
    ensures DestroyedIfIdle(v) == v || (v.activeHandlers == 0 && v.inflightReqs == 0)
    ensures forall i | i in v.loops :: Consistent(LoopStepped(v, i))
  {
    assert v.started in v.loops[v.started := AtCheck];
    forall i | i in v.loops ensures Consistent(LoopStepped(v, i)) {
      assert i in LoopStepped(v, i).loops || v.state != Pending;
    }
  }

  class Router {
    var state: State
    var inflightReqs: int
    var activeHandlers: int
    var channels: Option<nat>
    var made: nat
    var loops: map<nat, Loop>
    var started: nat

    ghost function Fields(): View
      reads this
    {
      View(state, inflightReqs, activeHandlers, channels, made, loops, started)
    }

    ghost predicate Valid()
      reads this
    {
      Consistent(Fields())
    }

    constructor ()
      ensures Valid() && Fields() == Fresh
    {
      state, inflightReqs, activeHandlers := Off, 0, 0;
      channels, made := None, 0;
      loops, started := map[], 0;
    }

    method EnsureReqChannel()
      modifies this`channels, this`made
      ensures Fields() == EnsureReqChan(old(Fields()))
    {
      if channels == None {
        channels, made := Some(made), made + 1;
      }
    }

    method SetPendingState()
      modifies this`state, this`loops, this`started
      ensures Fields() == SetPending(old(Fields()))
    {
      if state != Pending {
        state := Pending;
        loops, started := loops[started := AtCheck], started + 1;
      }
    }

    /** The handler gets a channel that is open and stays open until it stops. */
    method HandlerStart() returns (ch: nat)
      requires Valid()
      modifies this
      ensures Fields() == HandlerStarted(old(Fields())) && Became(old(Fields()), Fields(), 1, 0)
      ensures state == On && channels == Some(ch)
    {
      TransitionsKeepConsistent(Fields());
      activeHandlers := activeHandlers + 1;
      if state != On {
        state := On;
      }
      EnsureReqChannel();
      ch := channels.value;
    }

    /** Stopping more handlers than were started is a programming error that panics. */
    method HandlerStop() returns (panics: bool)
      requires Valid()
      modifies this
      ensures panics <==> old(activeHandlers) == 0
      ensures panics ==> Fields() == old(Fields())
      ensures !panics ==> Fields() == HandlerStopped(old(Fields())) && Became(old(Fields()), Fields(), -1, 0)
    {
      TransitionsKeepConsistent(Fields());
      if activeHandlers <= 0 {
        return true;
      }
      activeHandlers := activeHandlers - 1;
      if activeHandlers == 0 {
        if inflightReqs > 0 {
          SetPendingState();
        } else {
          state := Off;
        }
      }
      panics := false;
    }

    method RouteStart()
      requires Valid()
      modifies this
      ensures Fields() == RouteStarted(old(Fields())) && Became(old(Fields()), Fields(), 0, 1)
      ensures state != Off
    {
      TransitionsKeepConsistent(Fields());
      inflightReqs := inflightReqs + 1;
      EnsureReqChannel();
      if state == Off {
        SetPendingState();
      }
    }

    method RouteDone()
      requires Valid() && inflightReqs > 0
      modifies this
      ensures Fields() == RouteEnded(old(Fields())) && Became(old(Fields()), Fields(), 0, -1)
    {
      TransitionsKeepConsistent(Fields());
      inflightReqs := inflightReqs - 1;
      if inflightReqs == 0 && activeHandlers == 0 {
        state := Off;
      }
    }

    /** One statement of a pending loop: check the state, ask for a placement, or sleep. */
    method PendingLoopStep(i: nat) returns (asks: bool)
      requires Valid() && i in loops
      modifies this`loops
      ensures Valid() && Fields() == LoopStepped(old(Fields()), i)
      ensures match old(loops[i])
              case AtCheck => loops == if state == Pending then old(loops)[i := AboutToAsk] else old(loops) - {i}
              case AboutToAsk => loops == old(loops)[i := Asleep]
              case Asleep => loops == old(loops)[i := AtCheck]
      ensures asks <==> old(loops[i]) == AboutToAsk
    {
      TransitionsKeepConsistent(Fields());
      asks := loops[i] == AboutToAsk;
      match loops[i]
      case AtCheck =>
        if state == Pending {
          loops := loops[i := AboutToAsk];
        } else {
          loops := loops - {i};
        }
      case AboutToAsk => loops := loops[i := Asleep];
      case Asleep => loops := loops[i := AtCheck];
    }

    /** Closes the channels exactly when no handler and no request can be using them. */
    method DestroyIfIdle() returns (destroyed: bool)
      requires Valid()
      modifies this
      ensures Valid() && Fields() == DestroyedIfIdle(old(Fields()))
      ensures destroyed <==> old(activeHandlers) == 0 && old(inflightReqs) == 0
      ensures Fields() == old(Fields()).(channels := if destroyed then None else old(channels))
    {
      TransitionsKeepConsistent(Fields());
      if state != Off || inflightReqs != 0 {
        return false;
      }
      if channels != None {
        channels := None;
      }
      destroyed := true;
    }
  }
}

/** One router under any interleaving of requests, handlers, idle checks and pending loops. */
module RouterRuns {
  import opened ClusterTypes
  import opened RouterState

  type Id = nat

  /** handlers maps each running handler to the channels it listens on. */
  datatype World = World(r: View, handlers: map<Id, nat>, requests: set<Id>, asked: nat)

  datatype Action =
    | StartHandler(h: Id)
    | StopHandler(h: Id)
    | BeginRoute(q: Id)
    | EndRoute(q: Id)
    | Destroy
    | LoopStep(i: nat)

  const Start := World(Fresh, map[], {}, 0)

  /** A handler stops once, and only after it started; likewise a request. */
  predicate Enabled(w: World, a: Action) {
    match a
    case StartHandler(h) => h !in w.handlers
    case StopHandler(h) => h in w.handlers
    case BeginRoute(q) => q !in w.requests
    case EndRoute(q) => q in w.requests
    case Destroy => true
    case LoopStep(i) => i in w.r.loops
  }

  function Act(w: World, a: Action): World
    requires Enabled(w, a)
  {
    match a
    case StartHandler(h) =>
      var r := HandlerStarted(w.r);
      w.(r := r, handlers := w.handlers[h := if r.channels.Some? then r.channels.value else 0])
    case StopHandler(h) => w.(r := HandlerStopped(w.r), handlers := w.handlers - {h})
    case BeginRoute(q) => w.(r := RouteStarted(w.r), requests := w.requests + {q})
    case EndRoute(q) => w.(r := RouteEnded(w.r), requests := w.requests - {q})
    case Destroy => w.(r := DestroyedIfIdle(w.r))
    case LoopStep(i) =>
      w.(r := LoopStepped(w.r, i), asked := w.asked + if w.r.loops[i] == AboutToAsk then 1 else 0)
  }

  ghost predicate History(worlds: seq<World>, actions: seq<Action>) {
    && |worlds| == |actions| + 1 && worlds[0] == Start
    && forall i | 0 <= i < |actions| :: Enabled(worlds[i], actions[i]) && worlds[i + 1] == Act(worlds[i], actions[i])
  }

  /** The counters count, and every running handler listens where requests are sent. */
  ghost predicate Inv(w: World) {
    && Consistent(w.r)
    && w.r.activeHandlers == |w.handlers| && w.r.inflightReqs == |w.requests|
    && forall h | h in w.handlers :: w.r.channels == Some(w.handlers[h])
  }

  /** Handlers keep listening on the channels when these do not change. */
  lemma StillListening(w: World, v: World)
    requires Inv(w) && v.handlers.Keys <= w.handlers.Keys
    requires forall h | h in v.handlers :: v.handlers[h] == w.handlers[h]
    requires w.r.channels.Some? ==> v.r.channels == w.r.channels
    ensures forall h | h in v.handlers :: v.r.channels == Some(v.handlers[h])
  {
    forall h | h in v.handlers ensures v.r.channels == Some(v.handlers[h]) {
      assert h in w.handlers;
    }
  }

  lemma StartHandlerKeepsInv(w: World, h: Id)
    requires Inv(w) && h !in w.handlers
    ensures Inv(Act(w, StartHandler(h)))
  {
    TransitionsKeepConsistent(w.r);
    var v := Act(w, StartHandler(h));
    StillListening(w, v.(handlers := w.handlers));
    assert v.handlers.Keys == w.handlers.Keys + {h};
  }

  lemma StopHandlerKeepsInv(w: World, h: Id)
    requires Inv(w) && h in w.handlers
    ensures Inv(Act(w, StopHandler(h)))
  {
    TransitionsKeepConsistent(w.r);
    var v := Act(w, StopHandler(h));
    assert |w.handlers.Keys| > 0;
    assert v.handlers.Keys == w.handlers.Keys - {h};
    StillListening(w, v);
  }

  lemma RoutesKeepInv(w: World, a: Action)
    requires Inv(w) && Enabled(w, a) && (a.BeginRoute? || a.EndRoute?)
    ensures Inv(Act(w, a))
  {
    TransitionsKeepConsistent(w.r);
    if a.EndRoute? {
      assert w.requests - {a.q} < w.requests;
    }
    StillListening(w, Act(w, a));
  }

  lemma DestroyKeepsInv(w: World)
    requires Inv(w)
    ensures Inv(Act(w, Destroy))
  {
    TransitionsKeepConsistent(w.r);
    assert w.r.activeHandlers == 0 ==> w.handlers.Keys == {};
  }

  lemma ActKeepsInv(w: World, a: Action)
    requires Inv(w) && Enabled(w, a)
    ensures Inv(Act(w, a))
  {
    match a
    case StartHandler(h) => StartHandlerKeepsInv(w, h);
    case StopHandler(h) => StopHandlerKeepsInv(w, h);
    case Destroy => DestroyKeepsInv(w);
    case LoopStep(i) =>
      TransitionsKeepConsistent(w.r);
      StillListening(w, Act(w, a));
    case _ => RoutesKeepInv(w, a);
  }

  /** In every reachable state: On, Pending and Off mean what they say, Pending has a loop
      asking for a placement, and a handler never listens on closed or replaced channels. */
  lemma {:induction false} HistoryKeepsInv(worlds: seq<World>, actions: seq<Action>, i: nat)
    requires History(worlds, actions) && i < |worlds|
    ensures Inv(worlds[i])
    decreases i
  {
    if i > 0 {
      HistoryKeepsInv(worlds, actions, i - 1);
      ActKeepsInv(worlds[i - 1], actions[i - 1]);
    }
  }

  /** While a request or a handler is there, no step closes or replaces the channels. */
  lemma ChannelsStayOpen(worlds: seq<World>, actions: seq<Action>, i: nat)
    requires History(worlds, actions) && i < |actions|
    requires worlds[i].requests != {} || worlds[i].handlers != map[]
    ensures worlds[i].r.channels.Some? && worlds[i + 1].r.channels == worlds[i].r.channels
  {
    HistoryKeepsInv(worlds, actions, i);
    var w := worlds[i];
    TransitionsKeepConsistent(w.r);
    if w.handlers != map[] {
      var h :| h in w.handlers;
    } else {
      assert |w.requests| > 0;
    }
  }

  // ---------- asking while requests wait ----------

  /** The k next statements of loop i while nothing else happens. */
  function LoopSteps(w: World, i: nat, k: nat): World
    requires i in w.r.loops && w.r.state == Pending
    decreases k
  {
    if k == 0 then w else LoopSteps(Act(w, LoopStep(i)), i, k - 1)
  }

  /** At most three statements of loop i away from asking for a placement. */
  ghost predicate AsksSoon(w: World, i: nat)
    requires i in w.r.loops && w.r.state == Pending
  {
    exists k :: 1 <= k <= 3 && LoopSteps(w, i, k).asked == w.asked + 1
  }

  /** Whenever requests wait without a handler, some loop runs, and every running loop soon
      asks for a placement. */
  lemma PendingAsks(worlds: seq<World>, actions: seq<Action>, n: nat)
    requires History(worlds, actions) && n < |worlds|
    requires worlds[n].handlers == map[] && worlds[n].requests != {}
    ensures worlds[n].r.state == Pending && worlds[n].r.loops != map[]
    ensures forall i | i in worlds[n].r.loops :: AsksSoon(worlds[n], i)
  {
    HistoryKeepsInv(worlds, actions, n);
    assert |worlds[n].requests| > 0;
    forall i | i in worlds[n].r.loops ensures AsksSoon(worlds[n], i) {
      LoopAsks(worlds[n], i);
    }
  }

  lemma LoopAsks(w: World, i: nat)
    requires i in w.r.loops && w.r.state == Pending
    ensures AsksSoon(w, i)
  {
    var w1 := Act(w, LoopStep(i));
    var w2 := Act(w1, LoopStep(i));
    var w3 := Act(w2, LoopStep(i));
    assert LoopSteps(w, i, 1) == LoopSteps(w1, i, 0) == w1;
    assert LoopSteps(w, i, 2) == LoopSteps(w1, i, 1) == LoopSteps(w2, i, 0) == w2;
    assert LoopSteps(w, i, 3) == LoopSteps(w1, i, 2) == LoopSteps(w2, i, 1) == LoopSteps(w3, i, 0) == w3;
  }

  /** A loop that checks when requests no longer wait ends, so a router at rest keeps none. */
  lemma LoopEnds(w: World, i: nat)
    requires Inv(w) && i in w.r.loops && w.r.loops[i] == AtCheck
    ensures i !in Act(w, LoopStep(i)).r.loops <==> w.handlers != map[] || w.requests == {}
  {
    assert w.handlers != map[] <==> |w.handlers| > 0;
  }

  // ---------- winding down when none wait ----------

  /** Loop i asks for a placement in step n. */
  ghost predicate Asks(worlds: seq<World>, actions: seq<Action>, i: nat, n: nat)
    requires |worlds| == |actions| + 1 && n < |actions|
  {
    actions[n] == LoopStep(i) && i in worlds[n].r.loops && worlds[n].r.loops[i] == AboutToAsk
  }

  /** Step m of loop i is a check that sees Pending, and its last statement before step n. */
  ghost predicate CheckedAt(worlds: seq<World>, actions: seq<Action>, i: nat, m: nat, n: nat)
    requires |worlds| == |actions| + 1 && n < |worlds|
  {
    && m < n && actions[m] == LoopStep(i)
    && i in worlds[m].r.loops && worlds[m].r.loops[i] == AtCheck && worlds[m].r.state == Pending
    && forall k | m < k < n :: actions[k] != LoopStep(i)
  }

  /** Steps other than its own leave a running loop where it is. */
  lemma OthersLeaveLoop(w: World, a: Action, i: nat)
    requires Inv(w) && Enabled(w, a) && a != LoopStep(i)
    ensures i in w.r.loops ==> i in Act(w, a).r.loops && Act(w, a).r.loops[i] == w.r.loops[i]
    ensures i in Act(w, a).r.loops && i !in w.r.loops ==> i == w.r.started && Act(w, a).r.loops[i] == AtCheck
    ensures Act(w, a).r.started >= w.r.started
  {
  }

  /** A loop about to ask has just checked, or was about to ask before. */
  lemma BeforeAsking(worlds: seq<World>, actions: seq<Action>, i: nat, n: nat)
    requires History(worlds, actions) && n < |actions|
    requires i in worlds[n + 1].r.loops && worlds[n + 1].r.loops[i] == AboutToAsk
    ensures i in worlds[n].r.loops
    ensures if actions[n] == LoopStep(i) then worlds[n].r.loops[i] == AtCheck && worlds[n].r.state == Pending
            else worlds[n].r.loops[i] == AboutToAsk
  {
    HistoryKeepsInv(worlds, actions, n);
    if actions[n] != LoopStep(i) {
      OthersLeaveLoop(worlds[n], actions[n], i);
    }
  }

  lemma {:induction false} AboutToAskChecked(worlds: seq<World>, actions: seq<Action>, i: nat, n: nat)
    requires History(worlds, actions) && n < |worlds|
    requires i in worlds[n].r.loops && worlds[n].r.loops[i] == AboutToAsk
    ensures exists m: nat :: CheckedAt(worlds, actions, i, m, n)
    decreases n
  {
    assert n > 0;
    BeforeAsking(worlds, actions, i, n - 1);
    if actions[n - 1] == LoopStep(i) {
      assert CheckedAt(worlds, actions, i, n - 1, n);
    } else {
      AboutToAskChecked(worlds, actions, i, n - 1);
      var m: nat :| CheckedAt(worlds, actions, i, m, n - 1);
      CheckedLater(worlds, actions, i, m, n - 1);
    }
  }

  lemma CheckedLater(worlds: seq<World>, actions: seq<Action>, i: nat, m: nat, n: nat)
    requires |worlds| == |actions| + 1 && n < |actions| && CheckedAt(worlds, actions, i, m, n)
    requires actions[n] != LoopStep(i)
    ensures CheckedAt(worlds, actions, i, m, n + 1)
  {
  }

  /** A loop asks only when the check it made just before saw Pending; so between two asks of one
      loop there is such a check. */
  lemma AskedBecausePending(worlds: seq<World>, actions: seq<Action>, i: nat, n: nat)
    requires History(worlds, actions) && n < |actions| && Asks(worlds, actions, i, n)
    ensures exists m: nat :: CheckedAt(worlds, actions, i, m, n)
    ensures forall l | 0 <= l < n && Asks(worlds, actions, i, l) ::
              exists m: nat | l < m :: CheckedAt(worlds, actions, i, m, n)
  {
    AboutToAskChecked(worlds, actions, i, n);
    var m: nat :| CheckedAt(worlds, actions, i, m, n);
    forall l | 0 <= l < n && Asks(worlds, actions, i, l) ensures l < m {
      assert actions[l] == LoopStep(i);
    }
  }

  /** The own statements of loop i between two moments, and those that ask for a placement. */
  ghost function OwnSteps(actions: seq<Action>, i: nat, a: nat, b: nat): nat
    requires a <= b <= |actions|
  {
    if a == b then 0 else OwnSteps(actions, i, a, b - 1) + if actions[b - 1] == LoopStep(i) then 1 else 0
  }

  ghost function AsksOf(worlds: seq<World>, actions: seq<Action>, i: nat, a: nat, b: nat): nat
    requires |worlds| == |actions| + 1 && a <= b <= |actions|
  {
    if a == b then 0
    else AsksOf(worlds, actions, i, a, b - 1) + if Asks(worlds, actions, i, b - 1) then 1 else 0
  }

  /** How many statements of its own a loop takes to end when requests do not wait. */
  ghost function ToGo(v: View, i: nat): nat {
    if i !in v.loops then 0
    else match v.loops[i] case AboutToAsk => 3 case Asleep => 2 case AtCheck => 1
  }

  /** While the router is not Pending each statement of a loop brings its end closer. */
  lemma StepDown(w: World, a: Action, i: nat)
    requires Inv(w) && Enabled(w, a) && w.r.state != Pending && i < w.r.started
    ensures i < Act(w, a).r.started
    ensures ToGo(w.r, i) == ToGo(Act(w, a).r, i) + if a == LoopStep(i) then 1 else 0
  {
    if a != LoopStep(i) {
      OthersLeaveLoop(w, a, i);
    }
  }

  /** From a to b every own statement of loop i brings its end closer, and nothing else moves it. */
  ghost predicate CountsDown(worlds: seq<World>, actions: seq<Action>, i: nat, a: nat, b: nat)
    requires |worlds| == |actions| + 1 && b < |worlds|
  {
    forall k | a <= k < b ::
      ToGo(worlds[k].r, i) == ToGo(worlds[k + 1].r, i) + if actions[k] == LoopStep(i) then 1 else 0
  }

  lemma StepDownAt(worlds: seq<World>, actions: seq<Action>, i: nat, k: nat)
    requires History(worlds, actions) && k < |actions| && worlds[k].r.state != Pending && i < worlds[k].r.started
    ensures i < worlds[k + 1].r.started
    ensures ToGo(worlds[k].r, i) == ToGo(worlds[k + 1].r, i) + if actions[k] == LoopStep(i) then 1 else 0
  {
    HistoryKeepsInv(worlds, actions, k);
    StepDown(worlds[k], actions[k], i);
  }

  lemma {:induction false} DescendsFrom(worlds: seq<World>, actions: seq<Action>, i: nat, a: nat, b: nat)
    requires History(worlds, actions) && a <= b < |worlds| && i < worlds[a].r.started
    requires forall k | a <= k < b :: worlds[k].r.state != Pending
    ensures CountsDown(worlds, actions, i, a, b)
    decreases b - a
  {
    if a < b {
      StepDownAt(worlds, actions, i, a);
      DescendsFrom(worlds, actions, i, a + 1, b);
    }
  }

  lemma {:induction false} StepsCounted(worlds: seq<World>, actions: seq<Action>, i: nat, a: nat, b: nat)
    requires |worlds| == |actions| + 1 && a <= b < |worlds| && CountsDown(worlds, actions, i, a, b)
    ensures OwnSteps(actions, i, a, b) + ToGo(worlds[b].r, i) == ToGo(worlds[a].r, i)
    ensures AsksOf(worlds, actions, i, a, b) <= 1
    ensures AsksOf(worlds, actions, i, a, b) == 1 ==> ToGo(worlds[b].r, i) < 3
    decreases b
  {
    if a < b {
      StepsCounted(worlds, actions, i, a, b - 1);
      assert ToGo(worlds[b - 1].r, i) ==
             ToGo(worlds[b - 1 + 1].r, i) + if actions[b - 1] == LoopStep(i) then 1 else 0;
    }
  }

  /** While the router is not Pending, every loop asks once more at most and is gone after three
      statements of its own. */
  lemma LoopsWindDown(worlds: seq<World>, actions: seq<Action>, i: nat, a: nat, b: nat)
    requires History(worlds, actions) && a <= b < |worlds| && i in worlds[a].r.loops
    requires forall k | a <= k < b :: worlds[k].r.state != Pending
    ensures AsksOf(worlds, actions, i, a, b) <= 1
    ensures OwnSteps(actions, i, a, b) <= 3 && (OwnSteps(actions, i, a, b) == 3 ==> i !in worlds[b].r.loops)
  {
    HistoryKeepsInv(worlds, actions, a);
    DescendsFrom(worlds, actions, i, a, b);
    StepsCounted(worlds, actions, i, a, b);
  }
}

/** One placement at a time per component on a node: later callers wait for its result. */
module PlaceQueue {
  import opened ClusterTypes

  /** Calls of PlaceComponent, numbered. */
  type Caller = nat

  /** Placements, numbered as they begin. */
  type Flight = nat

  /** running are the placements in progress; joined and results say, for every caller that
      had to wait, which placement was in progress when it came and whose result it got. */
  datatype World = World(waiters: map<Name, seq<Caller>>, running: map<Flight, Name>, current: map<Name, Flight>,
                         next: Flight, joined: map<Caller, Flight>, results: map<Caller, Flight>)

  datatype Action = Call(component: Name, caller: Caller) | Finish(flight: Flight)

  const Start := World(map[], map[], map[], 0, map[], map[])

  predicate Enabled(w: World, a: Action) {
    match a
    case Call(_, caller) => caller !in w.joined
    case Finish(flight) => flight in w.running
  }

  function QueueOf(waiters: map<Name, seq<Caller>>, c: Name): seq<Caller> { if c in waiters then waiters[c] else [] }

  function Entered(waiters: map<Name, seq<Caller>>, c: Name, caller: Caller): map<Name, seq<Caller>> {
    waiters[c := if c in waiters then waiters[c] + [caller] else []]
  }

  function Handed(results: map<Caller, Flight>, queue: seq<Caller>, flight: Flight): map<Caller, Flight> {
    results + map caller | caller in queue :: flight
  }

  /** The first caller places; others queue. The one who placed hands the result to all queued. */
  function Act(w: World, a: Action): World
    requires Enabled(w, a)
  {
    match a
    case Call(c, caller) =>
      if c !in w.waiters then
        w.(waiters := Entered(w.waiters, c, caller), running := w.running[w.next := c],
            current := w.current[c := w.next], next := w.next + 1)
      else
        w.(waiters := Entered(w.waiters, c, caller),
           joined := w.joined[caller := if c in w.current then w.current[c] else 0])
    case Finish(flight) =>
      var c := w.running[flight];
      w.(results := Handed(w.results, QueueOf(w.waiters, c), flight),
         waiters := w.waiters - {c}, running := w.running - {flight}, current := w.current - {c})
  }

  ghost predicate History(worlds: seq<World>, actions: seq<Action>) {
    && |worlds| == |actions| + 1 && worlds[0] == Start
    && forall i | 0 <= i < |actions| :: Enabled(worlds[i], actions[i]) && worlds[i + 1] == Act(worlds[i], actions[i])
  }

  ghost predicate Queued(w: World, caller: Caller) { exists c :: c in w.waiters && caller in w.waiters[c] }

  /** The queue of a component exists exactly while it is being placed, by one placement. */
  ghost predicate OneEach(w: World) {
    && w.waiters.Keys == w.current.Keys
    && (forall c | c in w.current :: w.current[c] in w.running && w.running[w.current[c]] == c)
    && (forall f | f in w.running :: f < w.next && w.running[f] in w.current && w.current[w.running[f]] == f)
  }

  ghost predicate Waiting(w: World) {
    && (forall c, i | c in w.waiters && 0 <= i < |w.waiters[c]| ::
          w.waiters[c][i] in w.joined && w.waiters[c][i] !in w.results
          && c in w.current && w.joined[w.waiters[c][i]] == w.current[c])
    && (forall r | r in w.results :: r in w.joined && w.results[r] == w.joined[r])
    && (forall r | r in w.joined :: r in w.results || Queued(w, r))
  }

  lemma ActKeepsOneEach(w: World, a: Action)
    requires OneEach(w) && Enabled(w, a)
    ensures OneEach(Act(w, a))
  {
  }

  lemma CallKeepsWaiting(w: World, c: Name, caller: Caller)
    requires OneEach(w) && Waiting(w) && caller !in w.joined
    ensures Waiting(Act(w, Call(c, caller)))
  {
    var v := Act(w, Call(c, caller));
    forall r | r in v.joined ensures r in v.results || Queued(v, r) {
      if r in w.joined && r !in w.results {
        var d :| d in w.waiters && r in w.waiters[d];
        assert d in v.waiters && r in v.waiters[d];
      } else if r == caller {
        assert c in v.waiters && r in v.waiters[c];
      }
    }
  }

  lemma FinishKeepsWaiting(w: World, f: Flight)
    requires OneEach(w) && Waiting(w) && f in w.running
    ensures Waiting(Act(w, Finish(f)))
  {
    var v, c := Act(w, Finish(f)), w.running[f];
    forall r | r in v.joined ensures r in v.results || Queued(v, r) {
      if r !in w.results {
        var d :| d in w.waiters && r in w.waiters[d];
        if d != c {
          assert d in v.waiters && r in v.waiters[d];
        }
      }
    }
    FinishOthersWait(w, f);
  }

  lemma FinishOthersWait(w: World, f: Flight)
    requires OneEach(w) && Waiting(w) && f in w.running
    ensures var v := Act(w, Finish(f));
            forall d, i | d in v.waiters && 0 <= i < |v.waiters[d]| :: v.waiters[d][i] !in v.results
  {
    var v, c := Act(w, Finish(f)), w.running[f];
    forall d, i | d in v.waiters && 0 <= i < |v.waiters[d]| ensures v.waiters[d][i] !in v.results {
      var r := w.waiters[d][i];
      assert w.joined[r] == w.current[d] && w.current[d] != f;
      assert r !in w.waiters[c];
    }
  }

  lemma {:induction false} HistoryKeeps(worlds: seq<World>, actions: seq<Action>, i: nat)
    requires History(worlds, actions) && i < |worlds|
    ensures OneEach(worlds[i]) && Waiting(worlds[i])
    decreases i
  {
    if i > 0 {
      HistoryKeeps(worlds, actions, i - 1);
      ActKeepsOneEach(worlds[i - 1], actions[i - 1]);
      match actions[i - 1]
      case Call(c, caller) => CallKeepsWaiting(worlds[i - 1], c, caller);
      case Finish(f) => FinishKeepsWaiting(worlds[i - 1], f);
    }
  }

  /** Two placements in progress at the same moment are for different components. */
  lemma SingleFlight(worlds: seq<World>, actions: seq<Action>, i: nat, f: Flight, g: Flight)
    requires History(worlds, actions) && i < |worlds| && f in worlds[i].running && g in worlds[i].running
    ensures worlds[i].running[f] == worlds[i].running[g] ==> f == g
  {
    HistoryKeeps(worlds, actions, i);
  }

  /** A caller that had to wait either still waits for a placement in progress or got the
      result of the one in progress when it came. */
  lemma WaiterServed(worlds: seq<World>, actions: seq<Action>, i: nat, r: Caller)
    requires History(worlds, actions) && i < |worlds| && r in worlds[i].joined
    ensures var w := worlds[i];
            if r in w.results then w.results[r] == w.joined[r] else w.joined[r] in w.running
  {
    HistoryKeeps(worlds, actions, i);
    var w := worlds[i];
    if r !in w.results {
      var c :| c in w.waiters && r in w.waiters[c];
      var k :| 0 <= k < |w.waiters[c]| && w.waiters[c][k] == r;
    }
  }

  class PlaceCompWaiters {
    var placeCompWaiters: map<Name, seq<Caller>>

    constructor ()
      ensures placeCompWaiters == map[]
    {
      placeCompWaiters := map[];
    }

    /** A caller that finds no queue opens one and places the component itself. */
    method Enter(c: Name, caller: Caller) returns (places: bool)
      modifies this
      ensures places <==> c !in old(placeCompWaiters)
      ensures placeCompWaiters == Entered(old(placeCompWaiters), c, caller)
      ensures placeCompWaiters == old(placeCompWaiters)[c := if places then [] else old(placeCompWaiters)[c] + [caller]]
    {
      places := c !in placeCompWaiters;
      if places {
        placeCompWaiters := placeCompWaiters[c := []];
      } else {
        placeCompWaiters := placeCompWaiters[c := placeCompWaiters[c] + [caller]];
      }
    }

    /** Sends the result to each queued caller in turn and closes the queue. */
    method Leave(c: Name, result: Flight, results: map<Caller, Flight>) returns (results': map<Caller, Flight>)
      modifies this
      ensures results' == Handed(results, QueueOf(old(placeCompWaiters), c), result)
      ensures placeCompWaiters == old(placeCompWaiters) - {c}
      ensures c in old(placeCompWaiters) ==>
          forall caller | caller in old(placeCompWaiters)[c] :: caller in results' && results'[caller] == result
      ensures forall caller | c !in old(placeCompWaiters) || caller !in old(placeCompWaiters)[c] ::
          (caller in results' <==> caller in results) && (caller in results ==> results'[caller] == results[caller])
    {
      results' := results;
      var queue := QueueOf(placeCompWaiters, c);
      for i := 0 to |queue|
        invariant results' == Handed(results, queue[..i], result)
      {
        results' := results'[queue[i] := result];
        assert queue[..i + 1] == queue[..i] + [queue[i]];
      }
      assert queue[..|queue|] == queue;
      placeCompWaiters := placeCompWaiters - {c};
    }
  }
}

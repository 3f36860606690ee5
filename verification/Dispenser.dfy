/** Hands out one proxy per request while a limit allows, and waits for all of them in the end. */
module Dispensing {
  type Id = nat

  /** Where the Run loop is: at its select, handing a proxy to a requester, waiting for the
      proxies still out after the context ended, or returned. */
  datatype Phase = Serving | Handing | Draining | Returned

  /** running and sending are the proxies handed out that handle a request, or are done with
      it and report so; buffered counts the reports in the done channel. */
  datatype World = World(max: int, phase: Phase, concur: int, running: set<Id>, sending: set<Id>,
                         buffered: nat, handedOut: nat, received: nat)

  datatype Event =
    | Accept            // a request is received
    | HandOver(id: Id)  // the requester takes the proxy and starts to use it
    | ReceiveDone       // a report is received
    | ContextDone       // the context ended
    | Return            // the drain loop ends
    | Handled(id: Id)   // a proxy has handled its request
    | Send(id: Id)      // and puts its report into the done channel

  function Capacity(max: int): nat { if max < 1 then 1 else max }

  function Fresh(max: int): World { World(max, Serving, 0, {}, {}, 0, 0, 0) }

  predicate UnderLimit(w: World) { w.max < 1 || w.concur < w.max }

  predicate Enabled(w: World, e: Event) {
    match e
    case Accept => w.phase == Serving && UnderLimit(w)
    case HandOver(id) => w.phase == Handing && id !in w.running && id !in w.sending
    case ReceiveDone => (w.phase == Serving || (w.phase == Draining && w.concur > 0)) && w.buffered > 0
    case ContextDone => w.phase == Serving
    case Return => w.phase == Draining && w.concur <= 0
    case Handled(id) => id in w.running
    case Send(id) => id in w.sending && w.buffered < Capacity(w.max)
  }

  function Next(w: World, e: Event): World
    requires Enabled(w, e)
  {
    match e
    case Accept => w.(phase := Handing, concur := w.concur + 1)
    case HandOver(id) => w.(phase := Serving, running := w.running + {id}, handedOut := w.handedOut + 1)
    case ReceiveDone => w.(concur := w.concur - 1, buffered := w.buffered - 1, received := w.received + 1)
    case ContextDone => w.(phase := Draining)
    case Return => w.(phase := Returned)
    case Handled(id) => w.(running := w.running - {id}, sending := w.sending + {id})
    case Send(id) => w.(sending := w.sending - {id}, buffered := w.buffered + 1)
  }

  /** The count is exact: proxies out, reports under way, and the one being handed over. */
  ghost predicate Inv(w: World) {
    && w.running !! w.sending
    && w.concur == |w.running| + |w.sending| + w.buffered + (if w.phase == Handing then 1 else 0)
    && w.handedOut == w.received + |w.running| + |w.sending| + w.buffered
    && (w.max >= 1 ==> w.concur <= w.max)
    && (w.phase == Returned ==> w.concur <= 0)
  }

  lemma NextKeepsInv(w: World, e: Event)
    requires Inv(w) && Enabled(w, e)
    ensures Inv(Next(w, e)) && Next(w, e).max == w.max
  {
    match e
    case Handled(id) =>
      assert |w.running - {id}| == |w.running| - 1;
      assert |w.sending + {id}| == |w.sending| + 1;
    case Send(id) => assert |w.sending - {id}| == |w.sending| - 1;
    case HandOver(id) => assert |w.running + {id}| == |w.running| + 1;
    case _ =>
  }

  ghost predicate History(max: int, worlds: seq<World>, events: seq<Event>) {
    && |worlds| == |events| + 1 && worlds[0] == Fresh(max)
    && forall i | 0 <= i < |events| :: Enabled(worlds[i], events[i]) && worlds[i + 1] == Next(worlds[i], events[i])
  }

  lemma {:induction false} HistoryKeepsInv(max: int, worlds: seq<World>, events: seq<Event>, i: nat)
    requires History(max, worlds, events) && i < |worlds|
    ensures Inv(worlds[i]) && worlds[i].max == max
    decreases i
  {
    if i > 0 {
      HistoryKeepsInv(max, worlds, events, i - 1);
      NextKeepsInv(worlds[i - 1], events[i - 1]);
    }
  }

  /** A hard limit bounds the proxies in use at any moment of any run, and a finished proxy
      never waits to report. */
  lemma HardLimit(max: int, worlds: seq<World>, events: seq<Event>, i: nat)
    requires max >= 1 && History(max, worlds, events) && i < |worlds|
    ensures |worlds[i].running| + |worlds[i].sending| <= max
    ensures forall id | id in worlds[i].sending :: Enabled(worlds[i], Send(id))
  {
    HistoryKeepsInv(max, worlds, events, i);
    forall id | id in worlds[i].sending ensures Enabled(worlds[i], Send(id)) {
      assert |worlds[i].sending| > 0;
    }
  }

  /** Run returns only after every proxy it handed out has reported back. */
  lemma ReturnsWhenAllDone(max: int, worlds: seq<World>, events: seq<Event>, i: nat)
    requires History(max, worlds, events) && i < |worlds| && worlds[i].phase == Returned
    ensures worlds[i].running == {} && worlds[i].sending == {} && worlds[i].buffered == 0
    ensures worlds[i].handedOut == worlds[i].received
  {
    HistoryKeepsInv(max, worlds, events, i);
  }

  /** A serving dispenser takes a request exactly if it has no limit or fewer proxies are out, or
      reporting, than the limit allows; so an idle one always does. */
  lemma ServesUnderLimit(max: int, worlds: seq<World>, events: seq<Event>, i: nat)
    requires History(max, worlds, events) && i < |worlds| && worlds[i].phase == Serving
    ensures var w := worlds[i];
            Enabled(w, Accept) <==> max < 1 || |w.running| + |w.sending| + w.buffered < max
  {
    HistoryKeepsInv(max, worlds, events, i);
  }

  /** Draining never gets stuck: the loop can go on, or a proxy that is still out can. */
  lemma NeverStuck(max: int, worlds: seq<World>, events: seq<Event>, i: nat)
    requires History(max, worlds, events) && i < |worlds| && worlds[i].phase == Draining
    ensures Enabled(worlds[i], Return) || Enabled(worlds[i], ReceiveDone)
         || exists id :: Enabled(worlds[i], Handled(id)) || Enabled(worlds[i], Send(id))
  {
    HistoryKeepsInv(max, worlds, events, i);
    var w := worlds[i];
    if w.concur > 0 && w.buffered == 0 {
      if w.running != {} {
        var id :| id in w.running;
        assert Enabled(w, Handled(id));
      } else {
        assert |w.sending| > 0;
        var id :| id in w.sending;
        assert Enabled(w, Send(id));
      }
    }
  }

  /** What is left to do before the loop can return. */
  function Work(w: World): nat
  {
    3 * |w.running| + 2 * |w.sending| + w.buffered + if w.phase == Returned then 0 else 1
  }

  /** While draining every event brings the return closer, so the drain ends. */
  lemma DrainShrinks(w: World, e: Event)
    requires Inv(w) && w.phase == Draining && Enabled(w, e)
    ensures Work(Next(w, e)) < Work(w)
  {
    match e
    case Handled(id) =>
      assert |w.running - {id}| == |w.running| - 1;
      assert |w.sending + {id}| == |w.sending| + 1;
    case Send(id) => assert |w.sending - {id}| == |w.sending| - 1;
    case _ =>
  }

  class Dispenser {
    const maxConcurrency: int
    const doneChSize: nat
    var concur: int
    var active: bool
    var handing: bool
    var returned: bool
    var doneCh: nat
    var running: set<Id>
    var sending: set<Id>
    ghost var handedOut: nat
    ghost var received: nat

    ghost function Fields(): World
      reads this
    {
      World(maxConcurrency,
            if returned then Returned else if !active then Draining else if handing then Handing else Serving,
            concur, running, sending, doneCh, handedOut, received)
    }

    ghost predicate Valid()
      reads this
    {
      && Inv(Fields()) && doneChSize == Capacity(maxConcurrency)
      && (returned ==> !active) && (handing ==> active)
    }

    constructor (maxConcurrency: int)
      ensures Valid() && Fields() == Fresh(maxConcurrency)
      ensures doneChSize == (if maxConcurrency < 1 then 1 else maxConcurrency) && concur == 0 && active
    {
      var size := maxConcurrency;
      if size < 1 {
        size := 1;
      }
      this.maxConcurrency, doneChSize := maxConcurrency, size;
      concur, active, handing, returned, doneCh := 0, true, false, false, 0;
      running, sending, handedOut, received := {}, {}, 0, 0;
    }

    /** The select of the Run loop; what it does not listen to, such as a request at the limit,
        stays where it is. */
    method Select(e: Event) returns (taken: bool)
      requires Valid() && active && !handing && (e.Accept? || e.ReceiveDone? || e.ContextDone?)
      modifies this
      ensures Valid()
      ensures taken <==> Enabled(old(Fields()), e)
      ensures taken <==> match e
                         case Accept => maxConcurrency < 1 || old(concur) < maxConcurrency
                         case ReceiveDone => old(doneCh) > 0
                         case _ => true
      ensures Fields() == if taken then Next(old(Fields()), e) else old(Fields())
      ensures taken ==> concur == old(concur) + match e case Accept => 1 case ReceiveDone => -1 case _ => 0
      ensures active == (e != ContextDone) && handing == (taken && e == Accept)
    {
      ghost var w := Fields();
      if Enabled(w, e) { NextKeepsInv(w, e); }
      taken := true;
      if maxConcurrency < 1 || concur < maxConcurrency {
        match e
        case ContextDone => active := false;
        case Accept =>
          concur := concur + 1;
          handing := true;
        case ReceiveDone => taken := TakeDone();
      } else {
        match e
        case ContextDone => active := false;
        case ReceiveDone => taken := TakeDone();
        case Accept => taken := false;
      }
    }

    method TakeDone() returns (taken: bool)
      modifies this`doneCh, this`concur, this`received
      ensures taken <==> old(doneCh) > 0
      ensures if taken then doneCh == old(doneCh) - 1 && concur == old(concur) - 1 && received == old(received) + 1
              else doneCh == old(doneCh) && concur == old(concur) && received == old(received)
    {
      taken := doneCh > 0;
      if taken {
        doneCh := doneCh - 1;
        concur := concur - 1;
        received := received + 1;
      }
    }

    /** The requester takes the proxy. */
    method HandProxy(id: Id)
      requires Valid() && handing && id !in running && id !in sending
      modifies this
      ensures Valid() && Fields() == Next(old(Fields()), HandOver(id))
    {
      NextKeepsInv(Fields(), HandOver(id));
      handing := false;
      running := running + {id};
      handedOut := handedOut + 1;
    }

    /** One pass through the loop that waits for the proxies still out. */
    method Drain() returns (taken: bool)
      requires Valid() && !active && !returned
      modifies this
      ensures Valid() && (returned <==> old(concur) <= 0)
      ensures taken <==> returned || old(doneCh) > 0
      ensures Fields() == if returned then Next(old(Fields()), Return)
                          else if taken then Next(old(Fields()), ReceiveDone) else old(Fields())
    {
      ghost var w := Fields();
      if concur > 0 {
        if Enabled(w, ReceiveDone) { NextKeepsInv(w, ReceiveDone); }
        taken := TakeDone();
      } else {
        NextKeepsInv(w, Return);
        returned := true;
        taken := true;
      }
    }

    /** A proxy is done with its request; it now has to report. */
    method HandleReq(id: Id)
      requires Valid() && id in running
      modifies this
      ensures Valid() && Fields() == Next(old(Fields()), Handled(id))
    {
      NextKeepsInv(Fields(), Handled(id));
      running, sending := running - {id}, sending + {id};
    }

    /** The report goes into the done channel unless that is full. */
    method DoneFx(id: Id) returns (sent: bool)
      requires Valid() && id in sending
      modifies this
      ensures Valid() && (maxConcurrency >= 1 ==> sent)
      ensures sent <==> Enabled(old(Fields()), Send(id))
      ensures sent <==> old(doneCh) < doneChSize
      ensures doneCh == old(doneCh) + (if sent then 1 else 0) && concur == old(concur)
      ensures Fields() == if sent then Next(old(Fields()), Send(id)) else old(Fields())
    {
      assert |sending| > 0;
      if doneCh < doneChSize {
        NextKeepsInv(Fields(), Send(id));
        sending, doneCh := sending - {id}, doneCh + 1;
        return true;
      }
      sent := false;
    }
  }
}

/** The remote handlers of one router: per peer URL, the cancel functions of its running handlers. */
module RemoteHandlers {
  type Url = string

  /** Cancel functions are numbered in the order their handlers are started. */
  type Cancel = nat

  type Table = map<Url, seq<Cancel>>

  function At(m: Table, u: Url): seq<Cancel> { if u in m then m[u] else [] }

  /** The remote handlers of a router, all numbers used so far, and the calls of cancel functions. */
  datatype Ledger = Ledger(table: Table, started: nat, cancelled: seq<Cancel>)

  datatype Event = Begin(u: Url) | CancelOldest(u: Url) | Forget(u: Url)

  /** What one event does; an event that cannot take place changes nothing. */
  function After(l: Ledger, e: Event): Ledger {
    var cancels := At(l.table, e.u);
    match e
    case Begin(u) => Ledger(l.table[u := cancels + [l.started]], l.started + 1, l.cancelled)
    case CancelOldest(u) =>
      if cancels == [] then l else Ledger(l.table[u := cancels[1..]], l.started, l.cancelled + [cancels[0]])
    case Forget(u) => if cancels == [] then l.(table := l.table - {u}) else l
  }

  function Replay(events: seq<Event>): Ledger {
    if events == [] then Ledger(map[], 0, [])
    else After(Replay(events[..|events| - 1]), events[|events| - 1])
  }

  ghost predicate Somewhere(m: Table, h: Cancel) { exists u :: h in At(m, u) }

  /** Every handler started so far is listed or was cancelled. */
  ghost predicate Complete(l: Ledger) {
    forall h: Cancel | h < l.started :: h in l.cancelled || Somewhere(l.table, h)
  }

  /** No handler is listed twice, or listed although cancelled. */
  ghost predicate Listed(l: Ledger) {
    && (forall u, i | 0 <= i < |At(l.table, u)| :: At(l.table, u)[i] < l.started && At(l.table, u)[i] !in l.cancelled)
    && (forall u, v, i, j | 0 <= i < |At(l.table, u)| && 0 <= j < |At(l.table, v)|
          && At(l.table, u)[i] == At(l.table, v)[j] :: u == v && i == j)
  }

  /** No handler was cancelled twice. */
  ghost predicate CancelledOnce(l: Ledger) {
    && (forall i, j | 0 <= i < j < |l.cancelled| :: l.cancelled[i] != l.cancelled[j])
    && (forall i | 0 <= i < |l.cancelled| :: l.cancelled[i] < l.started)
  }

  lemma AfterOthers(l: Ledger, e: Event)
    ensures forall v | v != e.u :: At(After(l, e).table, v) == At(l.table, v)
    ensures e.Forget? ==> At(After(l, e).table, e.u) == At(l.table, e.u)
  {
  }

  lemma AfterComplete(l: Ledger, e: Event)
    requires Complete(l)
    ensures Complete(After(l, e))
  {
    var l' := After(l, e);
    AfterOthers(l, e);
    forall h: Cancel | h < l'.started ensures h in l'.cancelled || Somewhere(l'.table, h) {
      if h == l.started {
        assert h in At(l'.table, e.u);
      } else if h in l.cancelled {
        assert h in l'.cancelled;
      } else {
        var v :| h in At(l.table, v);
        StaysSomewhere(l, e, v, h);
      }
    }
  }

  lemma StaysSomewhere(l: Ledger, e: Event, v: Url, h: Cancel)
    requires h in At(l.table, v)
    ensures h in After(l, e).cancelled || Somewhere(After(l, e).table, h)
  {
    var l' := After(l, e);
    AfterOthers(l, e);
    var cancels := At(l.table, v);
    if v == e.u && e.CancelOldest? {
      assert cancels == [cancels[0]] + cancels[1..];
      assert h == cancels[0] || h in At(l'.table, v);
    } else {
      assert h in At(l'.table, v);
    }
  }

  lemma AfterListed(l: Ledger, e: Event)
    requires Listed(l) && CancelledOnce(l)
    ensures Listed(After(l, e))
  {
    AfterOthers(l, e);
    match e
    case Begin(u) => BeginListed(l, u);
    case CancelOldest(u) => CancelListed(l, u);
    case Forget(u) =>
  }

  lemma BeginListed(l: Ledger, u: Url)
    requires Listed(l) && CancelledOnce(l)
    ensures Listed(After(l, Begin(u)))
  {
    AfterOthers(l, Begin(u));
    assert At(After(l, Begin(u)).table, u) == At(l.table, u) + [l.started];
  }

  lemma CancelListed(l: Ledger, u: Url)
    requires Listed(l)
    ensures Listed(After(l, CancelOldest(u)))
  {
    if At(l.table, u) != [] {
      var l' := After(l, CancelOldest(u));
      AfterOthers(l, CancelOldest(u));
      assert forall i | 0 <= i < |At(l'.table, u)| :: At(l'.table, u)[i] == At(l.table, u)[i + 1];
    }
  }

  lemma AfterCancelledOnce(l: Ledger, e: Event)
    requires Listed(l) && CancelledOnce(l)
    ensures CancelledOnce(After(l, e))
  {
    if e.CancelOldest? && At(l.table, e.u) != [] {
      assert At(l.table, e.u)[0] !in l.cancelled;
    }
  }

  /** Whatever happened to the counts: every handler ever started is either listed exactly once,
      under one URL, or was cancelled exactly once. */
  lemma {:induction false} EveryHandlerAccounted(events: seq<Event>)
    ensures var l := Replay(events); Complete(l) && Listed(l) && CancelledOnce(l)
  {
    if events != [] {
      var l, e := Replay(events[..|events| - 1]), events[|events| - 1];
      EveryHandlerAccounted(events[..|events| - 1]);
      AfterComplete(l, e);
      AfterListed(l, e);
      AfterCancelledOnce(l, e);
    }
  }

  lemma {:induction false} ReplayGrows(before: seq<Event>, events: seq<Event>)
    requires before <= events
    ensures Replay(before).started <= Replay(events).started
    ensures Replay(before).cancelled <= Replay(events).cancelled
    decreases |events|
  {
    if before == events {
    } else {
      var init := events[..|events| - 1];
      assert before <= init;
      ReplayGrows(before, init);
      assert Replay(init).cancelled <= After(Replay(init), events[|events| - 1]).cancelled;
    }
  }

  /** A handler that is no longer listed was cancelled in between, and exactly once. */
  lemma RemovedAreCancelled(before: seq<Event>, events: seq<Event>, u: Url, h: Cancel)
    requires before <= events
    requires h in At(Replay(before).table, u) && !Somewhere(Replay(events).table, h)
    ensures Replay(before).cancelled <= Replay(events).cancelled
    ensures h in Replay(events).cancelled[|Replay(before).cancelled|..]
    ensures multiset(Replay(events).cancelled)[h] == 1
  {
    ReplayGrows(before, events);
    EveryHandlerAccounted(before);
    EveryHandlerAccounted(events);
    var k :| 0 <= k < |At(Replay(before).table, u)| && At(Replay(before).table, u)[k] == h;
    NewlyIn(Replay(before).cancelled, Replay(events).cancelled, h);
  }

  lemma NewlyIn(was: seq<Cancel>, now: seq<Cancel>, h: Cancel)
    requires was <= now && h in now && h !in was
    requires forall i, j | 0 <= i < j < |now| :: now[i] != now[j]
    ensures h in now[|was|..] && multiset(now)[h] == 1
  {
    var i :| 0 <= i < |now| && now[i] == h;
    assert i >= |was| by { assert was == now[..|was|]; }
    assert now[|was|..][i - |was|] == h;
    OccursOnce(now, i);
  }

  lemma OccursOnce(s: seq<Cancel>, i: nat)
    requires i < |s| && forall j, k | 0 <= j < k < |s| :: s[j] != s[k]
    ensures multiset(s)[s[i]] == 1
  {
    assert s == s[..i] + [s[i]] + s[i + 1..];
    assert s[i] !in s[..i] && s[i] !in s[i + 1..];
  }

  /** How the handlers of a URL change when target are wanted: the oldest go first, and new
      ones are added only behind a URL that can be parsed. */
  ghost predicate Resized(before: seq<Cancel>, after: seq<Cancel>, target: nat, parses: bool) {
    if target <= |before| then after == before[|before| - target..]
    else if parses then |after| == target && before <= after
    else after == before
  }

  class Remotes {
    var remoteHandlersByUrl: Table
    var started: nat
    var cancelled: seq<Cancel>
    const parses: Url -> bool
    ghost var events: seq<Event>

    ghost predicate Valid()
      reads this
    {
      Ledger(remoteHandlersByUrl, started, cancelled) == Replay(events)
    }

    /** The running handlers for a URL. */
    ghost function Running(u: Url): nat
      reads this
    {
      |At(remoteHandlersByUrl, u)|
    }

    constructor (parses: Url -> bool)
      ensures Valid() && remoteHandlersByUrl == map[] && this.parses == parses
    {
      this.parses := parses;
      remoteHandlersByUrl := map[];
      started, cancelled, events := 0, [], [];
    }

    method StartRemoteHandler(url: Url)
      requires Valid()
      modifies this
      ensures Valid() && events == old(events) + [Begin(url)]
      ensures remoteHandlersByUrl == old(remoteHandlersByUrl)[url := At(old(remoteHandlersByUrl), url) + [old(started)]]
    {
      var cancel := started;
      started := started + 1;
      remoteHandlersByUrl := remoteHandlersByUrl[url := At(remoteHandlersByUrl, url) + [cancel]];
      events := events + [Begin(url)];
    }

    method CancelFirst(url: Url)
      requires Valid() && At(remoteHandlersByUrl, url) != []
      modifies this
      ensures Valid() && events == old(events) + [CancelOldest(url)]
      ensures remoteHandlersByUrl == old(remoteHandlersByUrl)[url := At(old(remoteHandlersByUrl), url)[1..]]
    {
      var cancels := At(remoteHandlersByUrl, url);
      cancelled := cancelled + [cancels[0]];
      remoteHandlersByUrl := remoteHandlersByUrl[url := cancels[1..]];
      events := events + [CancelOldest(url)];
    }

    method SetCount(url: Url, target: nat)
      requires Valid()
      modifies this
      ensures Valid() && old(events) <= events
      ensures Resized(At(old(remoteHandlersByUrl), url), At(remoteHandlersByUrl, url), target, parses(url))
      ensures forall u | u != url :: At(remoteHandlersByUrl, u) == At(old(remoteHandlersByUrl), u)
    {
      if parses(url) {
        StartUpTo(url, target);
      }
      CancelDownTo(url, target);
    }

    method StartUpTo(url: Url, target: nat)
      requires Valid()
      modifies this
      ensures Valid() && old(events) <= events
      ensures At(old(remoteHandlersByUrl), url) <= At(remoteHandlersByUrl, url)
      ensures Running(url) == if target > old(Running(url)) then target else old(Running(url))
      ensures forall u | u != url :: At(remoteHandlersByUrl, u) == At(old(remoteHandlersByUrl), u)
    {
      while target > |At(remoteHandlersByUrl, url)|
        invariant Valid() && old(events) <= events
        invariant At(old(remoteHandlersByUrl), url) <= At(remoteHandlersByUrl, url)
        invariant Running(url) <= target || Running(url) == old(Running(url))
        invariant forall u | u != url :: At(remoteHandlersByUrl, u) == At(old(remoteHandlersByUrl), u)
        decreases target - |At(remoteHandlersByUrl, url)|
      {
        StartRemoteHandler(url);
      }
    }

    method CancelDownTo(url: Url, target: nat)
      requires Valid()
      modifies this
      ensures Valid() && old(events) <= events
      ensures var was := At(old(remoteHandlersByUrl), url);
              At(remoteHandlersByUrl, url) == if target < |was| then was[|was| - target..] else was
      ensures forall u | u != url :: At(remoteHandlersByUrl, u) == At(old(remoteHandlersByUrl), u)
      ensures forall u :: u in remoteHandlersByUrl <==> u in old(remoteHandlersByUrl)
    {
      ghost var was := At(remoteHandlersByUrl, url);
      while target < |At(remoteHandlersByUrl, url)|
        invariant Valid() && old(events) <= events
        invariant Running(url) <= |was| && At(remoteHandlersByUrl, url) == was[|was| - Running(url)..]
        invariant Running(url) >= target || Running(url) == |was|
        invariant forall u | u != url :: At(remoteHandlersByUrl, u) == At(old(remoteHandlersByUrl), u)
        invariant forall u :: u in remoteHandlersByUrl <==> u in old(remoteHandlersByUrl)
      {
        CancelFirst(url);
      }
    }

    method RemoveUrl(url: Url)
      requires Valid()
      modifies this
      ensures Valid() && old(events) <= events
      ensures forall u | u != url :: At(remoteHandlersByUrl, u) == At(old(remoteHandlersByUrl), u)
      ensures remoteHandlersByUrl.Keys == old(remoteHandlersByUrl.Keys) - {url}
    {
      CancelDownTo(url, 0);
      remoteHandlersByUrl := remoteHandlersByUrl - {url};
      events := events + [Forget(url)];
    }

    /** Afterwards exactly the given URLs have handlers, as many as given when the URL parses
        and never more than given; the order of visiting the URLs does not matter. */
    method SetRemoteHandlerCounts(counts: map<Url, nat>)
      requires Valid()
      modifies this
      ensures Valid() && old(events) <= events
      ensures forall u | u in counts ::
          Resized(At(old(remoteHandlersByUrl), u), At(remoteHandlersByUrl, u), counts[u], parses(u))
      ensures forall u | u !in counts :: u !in remoteHandlersByUrl
    {
      ResizeAll(counts);
      RemoveOthers(counts.Keys);
    }

    method ResizeAll(counts: map<Url, nat>)
      requires Valid()
      modifies this
      ensures Valid() && old(events) <= events
      ensures forall u | u in counts ::
          Resized(At(old(remoteHandlersByUrl), u), At(remoteHandlersByUrl, u), counts[u], parses(u))
    {
      var todo := counts.Keys;
      while todo != {}
        invariant Valid() && old(events) <= events
        invariant todo <= counts.Keys
        invariant forall u | u in counts && u !in todo ::
            Resized(At(old(remoteHandlersByUrl), u), At(remoteHandlersByUrl, u), counts[u], parses(u))
        invariant forall u | u in todo :: At(remoteHandlersByUrl, u) == At(old(remoteHandlersByUrl), u)
      {
        var url :| url in todo;
        SetCount(url, counts[url]);
        todo := todo - {url};
      }
    }

    method RemoveOthers(urls: set<Url>)
      requires Valid()
      modifies this
      ensures Valid() && old(events) <= events
      ensures forall u | u in urls :: At(remoteHandlersByUrl, u) == At(old(remoteHandlersByUrl), u)
      ensures remoteHandlersByUrl.Keys <= urls
    {
      var obsolete := remoteHandlersByUrl.Keys - urls;
      while obsolete != {}
        invariant Valid() && old(events) <= events
        invariant obsolete == remoteHandlersByUrl.Keys - urls
        invariant forall u | u in urls :: At(remoteHandlersByUrl, u) == At(old(remoteHandlersByUrl), u)
      {
        var url :| url in obsolete;
        RemoveUrl(url);
        obsolete := obsolete - {url};
      }
      assert remoteHandlersByUrl.Keys <= obsolete + urls;
    }
  }
}

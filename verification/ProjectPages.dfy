/** What the first pages of the listings tell about a stored project. */
module ProjectPages {
  import opened ClusterTypes
  import opened VersionedTable
  import opened Sizes
  import opened Projects
  import opened ProjectApply
  import opened ProjectStore

  lemma {:induction false} SourceMapAppend(a: seq<Listed>, b: seq<Listed>)
    ensures SourceMap(a + b) == SourceMap(a) + SourceMap(b)
  {
    if b == [] {
      assert a + b == a;
    } else {
      var n := |b| - 1;
      assert (a + b)[..|a + b| - 1] == a + b[..n];
      SourceMapAppend(a, b[..n]);
    }
  }

  lemma {:induction false} SourceMapEntries(ls: seq<Listed>, n: Name)
    requires DistinctSources(ls)
    ensures n in SourceMap(ls) <==> exists i :: 0 <= i < |ls| && ls[i].source.eventSource.name == n
    ensures forall i | 0 <= i < |ls| && ls[i].source.eventSource.name == n ::
        n in SourceMap(ls) && SourceMap(ls)[n] == ls[i].source
  {
    if ls != [] {
      var k := |ls| - 1;
      SourceMapEntries(ls[..k], n);
      if n in SourceMap(ls[..k]) {
        var i :| 0 <= i < k && ls[..k][i].source.eventSource.name == n;
        assert ls[i].source.eventSource.name == n;
      }
      if i :| 0 <= i < k && ls[i].source.eventSource.name == n {
        assert ls[..k][i].source.eventSource.name == n;
      }
    }
  }

  /** The stored event sources of some components. */
  ghost function SourcesOf(t: Table<bool, EventSource>, owners: set<Name>): map<Name, EventSourceWithStatus> {
    map n | n in t && t[n].body.componentName in owners :: EventSourceWithStatus(t[n].body, t[n].kept)
  }

  // ---------- event sources ----------

  ghost function OwnedBy(read: Sources, c: Name): Sources {
    map n | n in read && read[n].eventSource.componentName == c :: read[n]
  }

  ghost predicate SomeOf(t: Table<bool, EventSource>, owners: set<Name>, read: Sources) {
    forall n | n in read :: n in SourcesOf(t, owners) && read[n] == SourcesOf(t, owners)[n]
  }

  /** read holds event sources of the owners, of each as many as there are up to the page limit. */
  ghost predicate OnPages(t: Table<bool, EventSource>, owners: set<Name>, read: Sources) {
    && SomeOf(t, owners, read)
    && (forall c | c in owners :: |OwnedBy(read, c)| == OnPage(|SourcesOf(t, {c})|))
  }

  function OnPage(n: nat): nat { if n > PageLimit then PageLimit else n }

  lemma SourceMapSize(ls: seq<Listed>)
    requires DistinctSources(ls)
    ensures |SourceMap(ls)| == |ls|
  {
    var names := seq(|ls|, i requires 0 <= i < |ls| => ls[i].source.eventSource.name);
    DistinctCount(names);
    forall n ensures n in Among(names) <==> n in SourceMap(ls).Keys {
      SourceMapEntries(ls, n);
      if n in SourceMap(ls) {
        var i :| 0 <= i < |ls| && ls[i].source.eventSource.name == n;
        assert names[i] == n;
      }
    }
    assert Among(names) == SourceMap(ls).Keys;
  }

  /** One page of the event sources of one component. */
  lemma OneOwner(t: Table<bool, EventSource>, owner: Name, all: seq<EventSourceWithStatus>)
    requires (forall n | n in t :: t[n].body.name == n) && SourcesListed(all, t, owner, t.Keys)
    ensures OnPages(t, {owner}, SourceMap(ListedUnder(owner, Page(all))))
  {
    var more := ListedUnder(owner, Page(all));
    SourceMapSize(more);
    SourcesCounted(all, t, owner);
    OwnersPage(t, owner, all);
    OwnedAll(t, owner, SourceMap(more));
  }

  lemma OwnedAll(t: Table<bool, EventSource>, owner: Name, read: Sources)
    requires SomeOf(t, {owner}, read)
    ensures OwnedBy(read, owner) == read
  {
    forall n | n in read ensures read[n].eventSource.componentName == owner {
      assert read[n] == SourcesOf(t, {owner})[n];
    }
  }

  lemma OwnersPage(t: Table<bool, EventSource>, owner: Name, all: seq<EventSourceWithStatus>)
    requires SourcesListed(all, t, owner, t.Keys)
    ensures SomeOf(t, {owner}, SourceMap(ListedUnder(owner, Page(all))))
    ensures DistinctSources(ListedUnder(owner, Page(all)))
  {
    var more := ListedUnder(owner, Page(all));
    assert forall i | 0 <= i < |more| :: more[i].source == all[i];
    forall n | n in SourceMap(more)
      ensures n in SourcesOf(t, {owner}) && SourceMap(more)[n] == SourcesOf(t, {owner})[n]
    {
      SourceMapEntries(more, n);
      var i :| 0 <= i < |more| && more[i].source.eventSource.name == n;
      assert all[i].eventSource.name == n;
    }
  }

  lemma TwoOwners(t: Table<bool, EventSource>, owners: set<Name>, read: Sources, owner: Name, more: Sources)
    requires OnPages(t, owners, read) && OnPages(t, {owner}, more) && owner !in owners
    ensures OnPages(t, owners + {owner}, read + more)
  {
    OwnedApart(t, owners, read, owner, more);
    assert SomeOf(t, owners + {owner}, read + more);
    assert |OwnedBy(more, owner)| == OnPage(|SourcesOf(t, {owner})|);
  }

  lemma OwnedApart(t: Table<bool, EventSource>, owners: set<Name>, read: Sources, owner: Name, more: Sources)
    requires SomeOf(t, owners, read) && SomeOf(t, {owner}, more) && owner !in owners
    ensures OwnedBy(read + more, owner) == OwnedBy(more, owner)
    ensures forall c | c in owners :: OwnedBy(read + more, c) == OwnedBy(read, c)
  {
    forall n | n in read ensures n !in more && read[n].eventSource.componentName != owner {
      assert read[n] == SourcesOf(t, owners)[n];
    }
    forall n | n in more ensures more[n].eventSource.componentName == owner {
      assert more[n] == SourcesOf(t, {owner})[n];
    }
  }

  lemma SubsetSame(a: set<Name>, b: set<Name>)
    requires a <= b && |a| == |b|
    ensures a == b
  {
    assert a + (b - a) == b;
  }

  /** A component's event sources were all read exactly if they fit on one page. */
  lemma OwnerRead(t: Table<bool, EventSource>, owners: set<Name>, read: Sources, c: Name)
    requires OnPages(t, owners, read) && c in owners
    ensures (forall n | n in SourcesOf(t, {c}) :: n in read) <==> |SourcesOf(t, {c})| <= PageLimit
  {
    var all, mine := SourcesOf(t, {c}), OwnedBy(read, c);
    assert mine.Keys <= all.Keys;
    if |all| <= PageLimit {
      SubsetSame(mine.Keys, all.Keys);
      assert forall n | n in all :: n in mine.Keys;
    } else {
      SomeUnlisted(all.Keys, mine.Keys);
      var u :| u in all.Keys && u !in mine.Keys;
      assert u !in read;
    }
  }

  /** Every stored component that stays has its event sources on one page. */
  ghost predicate KeptWithinPage(s: State, p: Project) {
    forall c | c in StoredComponents(s, p.name) && c in NewNames(p) :: |SourcesOf(s.sources, {c})| <= PageLimit
  }

  lemma AllReadIffWithin(s: State, p: Project, read: Sources)
    requires OnPages(s.sources, StoredComponents(s, p.name).Keys, read)
    ensures AllRead(s, p, read) <==> KeptWithinPage(s, p)
  {
    var owners := StoredComponents(s, p.name).Keys;
    forall c | c in owners && c in NewNames(p)
      ensures AllRead(s, p, read) ==> |SourcesOf(s.sources, {c})| <= PageLimit
    {
      OwnerRead(s.sources, owners, read, c);
      assert forall n | n in SourcesOf(s.sources, {c}) :: n in StoredSources(s, p.name);
    }
    if KeptWithinPage(s, p) {
      forall n | n in StoredSources(s, p.name) && s.sources[n].body.componentName in NewNames(p) ensures n in read {
        ReadIfWithin(s, p.name, read, n);
      }
    }
  }

  /** What is on pages are stored event sources, and all of them if they fit. */
  lemma PagesStored(s: State, project: Name, read: Sources)
    requires OnPages(s.sources, StoredComponents(s, project).Keys, read)
    ensures SomeSources(s, project, read)
    ensures WithinPage(s, project) ==> read == StoredSources(s, project)
  {
    OfStored(s, project);
    if WithinPage(s, project) {
      forall n | n in StoredSources(s, project) ensures n in read {
        ReadIfWithin(s, project, read, n);
      }
      SameSources(read, StoredSources(s, project));
    }
  }

  lemma SameSources(read: Sources, all: Sources)
    requires (forall n | n in read :: n in all && read[n] == all[n]) && forall n | n in all :: n in read
    ensures read == all
  {
    assert read.Keys == all.Keys;
  }

  lemma OfStored(s: State, project: Name)
    ensures SourcesOf(s.sources, StoredComponents(s, project).Keys) == StoredSources(s, project)
  {
  }

  lemma ReadIfWithin(s: State, project: Name, read: Sources, n: Name)
    requires OnPages(s.sources, StoredComponents(s, project).Keys, read) && n in StoredSources(s, project)
    requires |SourcesOf(s.sources, {s.sources[n].body.componentName})| <= PageLimit
    ensures n in read
  {
    var c := s.sources[n].body.componentName;
    OwnerRead(s.sources, StoredComponents(s, project).Keys, read, c);
    assert n in SourcesOf(s.sources, {c});
  }

  // ---------- components ----------

  lemma {:induction false} ComponentMapEntries(cs: seq<ComponentWithEventSources>, n: Name)
    requires forall i, j | 0 <= i < j < |cs| :: cs[i].component.name != cs[j].component.name
    ensures n in ComponentMap(cs) <==> exists i :: 0 <= i < |cs| && cs[i].component.name == n
    ensures forall i | 0 <= i < |cs| && cs[i].component.name == n ::
        n in ComponentMap(cs) && ComponentMap(cs)[n] == cs[i].component
  {
    if cs != [] {
      var k := |cs| - 1;
      ComponentMapEntries(cs[..k], n);
      if n in ComponentMap(cs[..k]) {
        var i :| 0 <= i < k && cs[..k][i].component.name == n;
        assert cs[i].component.name == n;
      }
      if i :| 0 <= i < k && cs[i].component.name == n {
        assert cs[..k][i].component.name == n;
      }
    }
  }

  /** A complete listing has as many entries as there are components of the project. */
  lemma ComponentsCounted(r: seq<Component>, s: State, project: Name)
    requires ComponentsListed(r, s.comps, project, s.comps.Keys)
    ensures |r| == |StoredComponents(s, project)|
  {
    var names := seq(|r|, i requires 0 <= i < |r| => r[i].name);
    DistinctCount(names);
    forall n ensures n in Among(names) <==> n in StoredComponents(s, project).Keys {
      if n in StoredComponents(s, project).Keys {
        var i :| 0 <= i < |r| && r[i].name == n;
        assert names[i] == n;
      }
    }
    assert Among(names) == StoredComponents(s, project).Keys;
  }

  lemma SourcesCounted(r: seq<EventSourceWithStatus>, t: Table<bool, EventSource>, owner: Name)
    requires SourcesListed(r, t, owner, t.Keys)
    ensures |r| == |SourcesOf(t, {owner})|
  {
    var names := seq(|r|, i requires 0 <= i < |r| => r[i].eventSource.name);
    DistinctCount(names);
    forall n ensures n in Among(names) <==> n in SourcesOf(t, {owner}).Keys {
      if n in SourcesOf(t, {owner}).Keys {
        var i :| 0 <= i < |r| && r[i].eventSource.name == n;
        assert names[i] == n;
      }
    }
    assert Among(names) == SourcesOf(t, {owner}).Keys;
  }

  /** The project's components, and the event sources of each of them, fit on one page. */
  ghost predicate WithinPage(s: State, project: Name) {
    && |StoredComponents(s, project)| <= PageLimit
    && (forall c | c in StoredComponents(s, project) :: |SourcesOf(s.sources, {c})| <= PageLimit)
  }

  lemma ComponentMapSize(cs: seq<ComponentWithEventSources>)
    requires forall i, j | 0 <= i < j < |cs| :: cs[i].component.name != cs[j].component.name
    ensures |ComponentMap(cs)| == |cs|
  {
    var names := seq(|cs|, i requires 0 <= i < |cs| => cs[i].component.name);
    DistinctCount(names);
    forall n ensures n in Among(names) <==> n in ComponentMap(cs).Keys {
      ComponentMapEntries(cs, n);
      if n in ComponentMap(cs) {
        var i :| 0 <= i < |cs| && cs[i].component.name == n;
        assert names[i] == n;
      }
    }
    assert Among(names) == ComponentMap(cs).Keys;
  }

  ghost function NamesOf(comps: seq<Component>): set<Name> { set i | 0 <= i < |comps| :: comps[i].name }

  lemma MoreNames(comps: seq<Component>, c: Component)
    ensures NamesOf(comps + [c]) == NamesOf(comps) + {c.name}
  {
    assert (comps + [c])[|comps|] == c;
    forall n | n in NamesOf(comps) ensures n in NamesOf(comps + [c]) {
      var i :| 0 <= i < |comps| && comps[i].name == n;
      assert (comps + [c])[i].name == n;
    }
  }

  // ---------- reading a project ----------

  /** cs are the components on the page read so far, with a page of event sources each. */
  ghost predicate ReadSoFar(cs: seq<ComponentWithEventSources>, comps: seq<Component>, t: Table<bool, EventSource>) {
    && |cs| == |comps| && (forall i | 0 <= i < |cs| :: cs[i].component == comps[i])
    && OnPages(t, NamesOf(comps), SourceMap(AllListed(cs)))
  }

  lemma {:induction false} OneMoreRead(cs: seq<ComponentWithEventSources>, comps: seq<Component>, c: Component,
                                       all: seq<EventSourceWithStatus>, t: Table<bool, EventSource>)
    requires (forall n | n in t :: t[n].body.name == n) && c.name !in NamesOf(comps)
    requires ReadSoFar(cs, comps, t) && SourcesListed(all, t, c.name, t.Keys)
    ensures ReadSoFar(cs + [ComponentWithEventSources(c, Page(all))], comps + [c], t)
  {
    var ess := Page(all);
    var cs' := cs + [ComponentWithEventSources(c, ess)];
    assert cs'[..|cs|] == cs;
    assert AllListed(cs') == AllListed(cs) + ListedUnder(c.name, ess);
    SourceMapAppend(AllListed(cs), ListedUnder(c.name, ess));
    OneOwner(t, c.name, all);
    TwoOwners(t, NamesOf(comps), SourceMap(AllListed(cs)), c.name, SourceMap(ListedUnder(c.name, ess)));
    MoreNames(comps, c);
  }

  /** The page holds components of the project, as many as there are up to the limit. */
  lemma {:induction false} PageListed(cs: seq<ComponentWithEventSources>, all: seq<Component>, s: State, project: Name)
    requires ComponentsListed(all, s.comps, project, s.comps.Keys) && ReadSoFar(cs, Page(all), s.sources)
    ensures SomeStored(s, project, ComponentMap(cs)) && |ComponentMap(cs)| == OnPage(|StoredComponents(s, project)|)
    ensures OnPages(s.sources, ComponentMap(cs).Keys, SourceMap(AllListed(cs)))
  {
    forall n
      ensures n in ComponentMap(cs) <==> n in NamesOf(Page(all))
      ensures n in ComponentMap(cs) ==>
          n in StoredComponents(s, project) && ComponentMap(cs)[n] == StoredComponents(s, project)[n]
    {
      ComponentMapEntries(cs, n);
      if n in ComponentMap(cs) {
        var i :| 0 <= i < |cs| && cs[i].component.name == n;
        assert all[i].name == n && Page(all)[i].name == n;
      }
    }
    assert ComponentMap(cs).Keys == NamesOf(Page(all));
    ComponentsCounted(all, s, project);
    ComponentMapSize(cs);
  }

  /** Some stored components that are as many as there are, are all there are. */
  lemma AllStored(s: State, project: Name, oldComps: map<Name, Component>)
    requires SomeStored(s, project, oldComps) && |oldComps| == |StoredComponents(s, project)|
    ensures oldComps == StoredComponents(s, project)
  {
    SubsetSame(oldComps.Keys, StoredComponents(s, project).Keys);
  }
}

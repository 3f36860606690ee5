/** Applying the difference of two projects to the store. */
module ProjectApply {
  import opened ClusterTypes
  import opened Sizes
  import opened VersionedTable
  import opened Projects

  ghost function CompPuts(s: State, p: Project): seq<Component> {
    ComponentPuts(StoredComponents(s, p.name), p.components)
  }

  ghost function SrcPuts(s: State, p: Project, read: Sources): seq<EventSource> {
    SourcePuts(StoredComponents(s, p.name), read, AllListed(p.components))
  }

  // ---------- components ----------

  /** Where a component put comes from. */
  lemma PutFrom(oldComps: map<Name, Component>, cs: seq<ComponentWithEventSources>, k: nat) returns (j: nat)
    requires k < |ComponentPuts(oldComps, cs)|
    ensures j < |cs| && ComponentPut(oldComps, cs[j]) == Some(ComponentPuts(oldComps, cs)[k])
    ensures ComponentPuts(oldComps, cs)[k].name == cs[j].component.name
  {
    var f := cw => ComponentPut(oldComps, cw);
    var c := ComponentPuts(oldComps, cs)[k];
    PickedMembers(cs, f, c);
    assert c in Picked(cs, f);
    j :| 0 <= j < |cs| && f(cs[j]) == Some(c);
  }

  lemma PutOf(oldComps: map<Name, Component>, cs: seq<ComponentWithEventSources>, j: nat) returns (k: nat)
    requires j < |cs| && ComponentPut(oldComps, cs[j]).Some?
    ensures k < |ComponentPuts(oldComps, cs)| && ComponentPut(oldComps, cs[j]) == Some(ComponentPuts(oldComps, cs)[k])
  {
    var f := cw => ComponentPut(oldComps, cw);
    var c := ComponentPut(oldComps, cs[j]).value;
    assert f(cs[j]) == Some(c);
    PickedMembers(cs, f, c);
    k :| 0 <= k < |Picked(cs, f)| && Picked(cs, f)[k] == c;
  }

  lemma PutsDistinct(oldComps: map<Name, Component>, p: Project, now: int)
    requires Submitted(p)
    ensures DistinctNames(ComponentWrites(ComponentPuts(oldComps, p.components), now))
  {
    PickedDistinct(p.components, cw => ComponentPut(oldComps, cw),
                   (cw: ComponentWithEventSources) => cw.component.name, (c: Component) => c.name);
  }

  lemma CompPutFrom(s: State, p: Project, k: nat) returns (j: nat)
    requires k < |CompPuts(s, p)|
    ensures j < |p.components| && ComponentPut(StoredComponents(s, p.name), p.components[j]) == Some(CompPuts(s, p)[k])
    ensures CompPuts(s, p)[k].name == p.components[j].component.name
  {
    j := PutFrom(StoredComponents(s, p.name), p.components, k);
  }

  lemma CompPutOf(s: State, p: Project, j: nat) returns (k: nat)
    requires j < |p.components| && ComponentPut(StoredComponents(s, p.name), p.components[j]).Some?
    ensures k < |CompPuts(s, p)|
        && ComponentPut(StoredComponents(s, p.name), p.components[j]) == Some(CompPuts(s, p)[k])
  {
    k := PutOf(StoredComponents(s, p.name), p.components, j);
  }

  lemma CompPutsDistinct(s: State, p: Project, now: int)
    requires Submitted(p)
    ensures DistinctNames(ComponentWrites(CompPuts(s, p), now))
  {
    PutsDistinct(StoredComponents(s, p.name), p, now);
  }

  // ---------- components that were not listed ----------

  /** oldComps are some of the project's stored components. */
  ghost predicate SomeStored(s: State, project: Name, oldComps: map<Name, Component>) {
    forall n | n in oldComps :: n in StoredComponents(s, project) && oldComps[n] == StoredComponents(s, project)[n]
  }

  /** A put for a component taken to be new fails if its row is there. */
  lemma UnlistedIsRefused(oldComps: map<Name, Component>, p: Project, j: nat,
                          t: Table<Name, Component>, puts: seq<Put<Name, Component>>, now: int)
    requires Submitted(p) && j < |p.components|
    requires puts == ComponentWrites(ComponentPuts(oldComps, p.components), now)
    requires forall k | 0 <= k < |puts| :: Accepts(t, puts[k])
    ensures p.components[j].component.name in oldComps || p.components[j].component.name !in t
  {
    assert p.components[j] in p.components;
    if p.components[j].component.name !in oldComps {
      var k := PutOf(oldComps, p.components, j);
      assert Accepts(t, puts[k]);
    }
  }

  lemma SomeUnlisted(stored: set<Name>, listed: set<Name>)
    requires |listed| < |stored|
    ensures exists u :: u in stored && u !in listed
  {
    if stored <= listed {
      SubsetSize(stored, listed);
    }
  }

  /** A stored component that was not listed cannot be put, and is not removed either. */
  lemma UnlistedStays(s: State, p: Project, oldComps: map<Name, Component>, removed: set<Name>, now: int,
                      t: Table<Name, Component>, u: Name)
    requires Submitted(p) && removed <= oldComps.Keys
    requires u in StoredComponents(s, p.name) && u !in oldComps
    requires ApplyPuts(s.comps - removed, ComponentWrites(ComponentPuts(oldComps, p.components), now)) == Some(t)
    ensures u !in NewNames(p) && u in t && t[u].kept == p.name
  {
    var before, puts := s.comps - removed, ComponentWrites(ComponentPuts(oldComps, p.components), now);
    PutsDistinct(oldComps, p, now);
    PutsSucceedIff(before, puts);
    forall j | 0 <= j < |p.components| ensures p.components[j].component.name != u {
      UnlistedIsRefused(oldComps, p, j, before, puts, now);
    }
    forall k | 0 <= k < |puts| ensures puts[k].name != u {
      var j := PutFrom(oldComps, p.components, k);
    }
    assert Untouched(puts, u);
    assert SameRow(before, t, u);
  }

  /** When not all components of a project were listed, a put of any project that passes the
      version checks leaves a store that does not read back as submitted. */
  lemma UnlistedNotReadBack(s: State, p: Project, oldComps: map<Name, Component>, removed: set<Name>, now: int,
                            t: State)
    requires Submitted(p) && SomeStored(s, p.name, oldComps) && removed <= oldComps.Keys
    requires |oldComps| < |StoredComponents(s, p.name)|
    requires ApplyPuts(s.comps - removed, ComponentWrites(ComponentPuts(oldComps, p.components), now)) == Some(t.comps)
    ensures !ReadsBack(t, p)
  {
    SomeUnlisted(StoredComponents(s, p.name).Keys, oldComps.Keys);
    var u :| u in StoredComponents(s, p.name).Keys && u !in oldComps.Keys;
    UnlistedStays(s, p, oldComps, removed, now, t.comps, u);
    assert u in StoredComponents(t, p.name);
  }

  /** A component put succeeds exactly if the name fits. */
  lemma CompPutAccepted(s: State, p: Project, j: nat, now: int)
    requires WellKept(s) && Submitted(p) && j < |p.components|
    ensures match ComponentPut(StoredComponents(s, p.name), p.components[j])
            case Some(c) => Accepts(RemainingComponents(s, p), ComponentWrite(c, now))
                <==> ComponentFits(s, p, p.components[j])
            case None => ComponentFits(s, p, p.components[j])
  {
    var cw := p.components[j];
    assert cw in p.components && cw.component.name in NewNames(p);
  }

  lemma CompPutsSucceed(s: State, p: Project, now: int)
    requires WellKept(s) && Submitted(p)
    ensures ApplyPuts(RemainingComponents(s, p), ComponentWrites(CompPuts(s, p), now)).Some?
       <==> forall cw | cw in p.components :: ComponentFits(s, p, cw)
  {
    var t, puts := RemainingComponents(s, p), ComponentWrites(CompPuts(s, p), now);
    CompPutsDistinct(s, p, now);
    PutsSucceedIff(t, puts);
    if forall k | 0 <= k < |puts| :: Accepts(t, puts[k]) {
      forall cw | cw in p.components ensures ComponentFits(s, p, cw) {
        var j :| 0 <= j < |p.components| && p.components[j] == cw;
        CompPutAccepted(s, p, j, now);
        if ComponentPut(StoredComponents(s, p.name), cw).Some? {
          var k := CompPutOf(s, p, j);
          assert Accepts(t, puts[k]);
        }
      }
    }
    if forall cw | cw in p.components :: ComponentFits(s, p, cw) {
      forall k | 0 <= k < |puts| ensures Accepts(t, puts[k]) {
        var j := CompPutFrom(s, p, k);
        CompPutAccepted(s, p, j, now);
      }
    }
  }

  /** The row of every submitted component after all component puts. */
  lemma CompWritten(s: State, p: Project, now: int, u: Table<Name, Component>, j: nat)
    requires WellKept(s) && Submitted(p) && j < |p.components|
    requires WrittenBy(RemainingComponents(s, p), ComponentWrites(CompPuts(s, p), now), u)
    ensures var c := p.components[j].component;
            && c.name in u && u[c.name].kept == p.name && SameComponent(u[c.name].body, c)
            && u[c.name].version == u[c.name].body.version >= 1 && u[c.name].body.name == c.name
  {
    var cw := p.components[j];
    assert cw in p.components && cw.component.name in NewNames(p);
    if ComponentPut(StoredComponents(s, p.name), cw).Some? {
      var k := CompPutOf(s, p, j);
      assert ComponentWrites(CompPuts(s, p), now)[k] == ComponentWrite(CompPuts(s, p)[k], now);
    } else {
      forall k | 0 <= k < |CompPuts(s, p)| ensures CompPuts(s, p)[k].name != cw.component.name {
        var i := CompPutFrom(s, p, k);
        assert i != j;
      }
      assert Untouched(ComponentWrites(CompPuts(s, p), now), cw.component.name);
      assert SameRow(RemainingComponents(s, p), u, cw.component.name);
    }
  }

  /** The row of every other component. */
  lemma CompOthers(s: State, p: Project, now: int, u: Table<Name, Component>, n: Name)
    requires Submitted(p) && n !in NewNames(p)
    requires WrittenBy(RemainingComponents(s, p), ComponentWrites(CompPuts(s, p), now), u)
    ensures n in u <==> n in s.comps && s.comps[n].kept != p.name
    ensures n in u ==> u[n] == s.comps[n]
  {
    forall k | 0 <= k < |CompPuts(s, p)| ensures CompPuts(s, p)[k].name != n {
      var i := CompPutFrom(s, p, k);
      assert p.components[i] in p.components;
    }
    assert Untouched(ComponentWrites(CompPuts(s, p), now), n);
    assert SameRow(RemainingComponents(s, p), u, n);
  }

  // ---------- event sources ----------

  lemma SrcPutFrom(s: State, p: Project, read: Sources, k: nat) returns (j: nat)
    requires k < |SrcPuts(s, p, read)|
    ensures j < |AllListed(p.components)|
    ensures SourcePut(StoredComponents(s, p.name), read, AllListed(p.components)[j]) == Some(SrcPuts(s, p, read)[k])
    ensures SrcPuts(s, p, read)[k].name == AllListed(p.components)[j].source.eventSource.name
  {
    var ls := AllListed(p.components);
    var f := l => SourcePut(StoredComponents(s, p.name), read, l);
    var e := SrcPuts(s, p, read)[k];
    PickedMembers(ls, f, e);
    assert e in Picked(ls, f);
    j :| 0 <= j < |ls| && f(ls[j]) == Some(e);
  }

  lemma SrcPutOf(s: State, p: Project, read: Sources, j: nat) returns (k: nat)
    requires j < |AllListed(p.components)|
    requires SourcePut(StoredComponents(s, p.name), read, AllListed(p.components)[j]).Some?
    ensures k < |SrcPuts(s, p, read)|
    ensures SourcePut(StoredComponents(s, p.name), read, AllListed(p.components)[j]) == Some(SrcPuts(s, p, read)[k])
  {
    var ls := AllListed(p.components);
    var f := l => SourcePut(StoredComponents(s, p.name), read, l);
    var e := f(ls[j]).value;
    PickedMembers(ls, f, e);
    assert From(ls, f, e);
    k :| 0 <= k < |Picked(ls, f)| && Picked(ls, f)[k] == e;
  }

  lemma SrcPutsDistinct(s: State, p: Project, read: Sources, now: int)
    requires Submitted(p)
    ensures DistinctNames(SourceWrites(SrcPuts(s, p, read), now))
  {
    PickedDistinct(AllListed(p.components), l => SourcePut(StoredComponents(s, p.name), read, l),
                   (l: Listed) => l.source.eventSource.name, (e: EventSource) => e.name);
  }

  lemma OwnersAreNew(cs: seq<ComponentWithEventSources>, l: Listed)
    requires l in AllListed(cs)
    ensures exists cw :: cw in cs && cw.component.name == l.owner
  {
    if cs != [] {
      var n := |cs| - 1;
      if l in AllListed(cs[..n]) {
        OwnersAreNew(cs[..n], l);
        var cw :| cw in cs[..n] && cw.component.name == l.owner;
        assert cw in cs;
      } else {
        assert cs[n] in cs && l in ListedUnder(cs[n].component.name, cs[n].eventSources);
      }
    }
  }

  /** An event source survives the removals exactly if it fits where it was. */
  lemma SourceRemains(s: State, p: Project, read: Sources, n: Name)
    requires SomeSources(s, p.name, read) && n in NewSourceNames(p)
    ensures n in AfterRemovals(s, p, read).sources <==>
      && n in s.sources
      && (s.sources[n].body.componentName in StoredComponents(s, p.name) ==>
          s.sources[n].body.componentName in NewNames(p))
    ensures n in AfterRemovals(s, p, read).sources ==> AfterRemovals(s, p, read).sources[n] == s.sources[n]
  {
  }

  lemma SrcPutAccepted(s: State, p: Project, read: Sources, j: nat, now: int)
    requires WellKept(s) && Submitted(p) && SomeSources(s, p.name, read) && j < |AllListed(p.components)|
    ensures match SourcePut(StoredComponents(s, p.name), read, AllListed(p.components)[j])
            case Some(e) => Accepts(AfterRemovals(s, p, read).sources, SourceWrite(e, now))
                <==> SourceFits(s, p, read, AllListed(p.components)[j])
            case None => SourceFits(s, p, read, AllListed(p.components)[j])
  {
    var l := AllListed(p.components)[j];
    assert l in AllListed(p.components) && l.source.eventSource.name in NewSourceNames(p);
    SourceRemains(s, p, read, l.source.eventSource.name);
    OwnersAreNew(p.components, l);
    assert l.owner in NewNames(p);
  }

  lemma SrcPutsSucceed(s: State, p: Project, read: Sources, now: int)
    requires WellKept(s) && Submitted(p) && SomeSources(s, p.name, read)
    ensures ApplyPuts(AfterRemovals(s, p, read).sources, SourceWrites(SrcPuts(s, p, read), now)).Some?
       <==> forall l | l in AllListed(p.components) :: SourceFits(s, p, read, l)
  {
    var t, puts, ls := AfterRemovals(s, p, read).sources, SourceWrites(SrcPuts(s, p, read), now),
        AllListed(p.components);
    SrcPutsDistinct(s, p, read, now);
    PutsSucceedIff(t, puts);
    if forall k | 0 <= k < |puts| :: Accepts(t, puts[k]) {
      forall l | l in ls ensures SourceFits(s, p, read, l) {
        var j :| 0 <= j < |ls| && ls[j] == l;
        SrcPutAccepted(s, p, read, j, now);
        if SourcePut(StoredComponents(s, p.name), read, l).Some? {
          var k := SrcPutOf(s, p, read, j);
          assert Accepts(t, puts[k]);
        }
      }
    }
    if forall l | l in ls :: SourceFits(s, p, read, l) {
      forall k | 0 <= k < |puts| ensures Accepts(t, puts[k]) {
        var j := SrcPutFrom(s, p, read, k);
        assert ls[j] in ls;
        SrcPutAccepted(s, p, read, j, now);
      }
    }
  }

  /** The row of every submitted event source after all puts. */
  lemma SrcWritten(s: State, p: Project, read: Sources, now: int, u: Table<bool, EventSource>, j: nat)
    requires WellKept(s) && Submitted(p) && SomeSources(s, p.name, read)
    requires j < |AllListed(p.components)| && SourceFits(s, p, read, AllListed(p.components)[j])
    requires WrittenBy(AfterRemovals(s, p, read).sources, SourceWrites(SrcPuts(s, p, read), now), u)
    ensures var e := AllListed(p.components)[j].source.eventSource;
            && e.name in u && SameSource(u[e.name].body, e)
            && u[e.name].version == u[e.name].body.version >= 1 && u[e.name].body.name == e.name
  {
    var l := AllListed(p.components)[j];
    assert l in AllListed(p.components) && l.source.eventSource.name in NewSourceNames(p);
    if SourcePut(StoredComponents(s, p.name), read, l).Some? {
      var k := SrcPutOf(s, p, read, j);
      assert SourceWrites(SrcPuts(s, p, read), now)[k] == SourceWrite(SrcPuts(s, p, read)[k], now);
    } else {
      forall k | 0 <= k < |SrcPuts(s, p, read)| ensures SrcPuts(s, p, read)[k].name != l.source.eventSource.name {
        var i := SrcPutFrom(s, p, read, k);
        assert i != j;
      }
      assert Untouched(SourceWrites(SrcPuts(s, p, read), now), l.source.eventSource.name);
      assert SameRow(AfterRemovals(s, p, read).sources, u, l.source.eventSource.name);
      OwnersAreNew(p.components, l);
      SourceRemains(s, p, read, l.source.eventSource.name);
    }
  }

  /** Event source n stays though it was not submitted: it belongs to another project, or to a
      component that stays and was not listed. */
  ghost predicate Left(s: State, p: Project, read: Sources, n: Name) {
    && n in s.sources
    && var was := s.sources[n].body.componentName;
       was !in StoredComponents(s, p.name) || (was in NewNames(p) && n !in read)
  }

  /** The row of every other event source. */
  lemma SrcOthers(s: State, p: Project, read: Sources, now: int, u: Table<bool, EventSource>, n: Name)
    requires Submitted(p) && SomeSources(s, p.name, read) && n !in NewSourceNames(p)
    requires WrittenBy(AfterRemovals(s, p, read).sources, SourceWrites(SrcPuts(s, p, read), now), u)
    ensures n in u <==> Left(s, p, read, n)
    ensures n in u ==> u[n] == s.sources[n]
  {
    forall k | 0 <= k < |SrcPuts(s, p, read)| ensures SrcPuts(s, p, read)[k].name != n {
      var i := SrcPutFrom(s, p, read, k);
      assert AllListed(p.components)[i] in AllListed(p.components);
    }
    assert Untouched(SourceWrites(SrcPuts(s, p, read), now), n);
    assert SameRow(AfterRemovals(s, p, read).sources, u, n);
  }

  // ---------- the whole project ----------

  /** t is the store after removals and puts that all succeeded. */
  ghost predicate Applied(s: State, p: Project, read: Sources, now: int, t: State) {
    && ApplyPuts(RemainingComponents(s, p), ComponentWrites(CompPuts(s, p), now)) == Some(t.comps)
    && ApplyPuts(AfterRemovals(s, p, read).sources, SourceWrites(SrcPuts(s, p, read), now)) == Some(t.sources)
  }

  /** The version checks let every write of the diff through exactly if the names fit. */
  lemma NoConflictIffFits(s: State, p: Project, read: Sources, now: int)
    requires WellKept(s) && Submitted(p) && SomeSources(s, p.name, read)
    ensures (exists t :: Applied(s, p, read, now, t)) <==> Fits(s, p, read)
  {
    CompPutsSucceed(s, p, now);
    SrcPutsSucceed(s, p, read, now);
    if Fits(s, p, read) {
      var t := State(ApplyPuts(RemainingComponents(s, p), ComponentWrites(CompPuts(s, p), now)).value,
                     ApplyPuts(AfterRemovals(s, p, read).sources, SourceWrites(SrcPuts(s, p, read), now)).value);
      assert Applied(s, p, read, now, t);
    }
  }

  ghost predicate ComponentsAfter(s: State, p: Project, t: State) {
    && (forall n :: n in t.comps && t.comps[n].kept == p.name <==> n in NewNames(p))
    && (forall cw | cw in p.components ::
          cw.component.name in t.comps && SameComponent(t.comps[cw.component.name].body, cw.component))
    && (forall n | n in t.comps :: t.comps[n].version == t.comps[n].body.version >= 1 && t.comps[n].body.name == n)
    && (forall n | n !in NewNames(p) && n in s.comps && s.comps[n].kept != p.name ::
        n in t.comps && t.comps[n] == s.comps[n])
  }

  ghost predicate SourcesAfter(s: State, p: Project, read: Sources, t: State) {
    && (forall n | n in NewSourceNames(p) :: n in t.sources)
    && (forall l | l in AllListed(p.components) ::
          l.source.eventSource.name in t.sources
          && SameSource(t.sources[l.source.eventSource.name].body, l.source.eventSource))
    && (forall n | n in t.sources ::
          && t.sources[n].version == t.sources[n].body.version >= 1 && t.sources[n].body.name == n
          && (n in NewSourceNames(p) ==> t.sources[n].body.componentName in NewNames(p))
          && (n in NewSourceNames(p) || (Left(s, p, read, n) && t.sources[n] == s.sources[n])))
    && (forall n | n !in NewSourceNames(p) && Left(s, p, read, n) :: n in t.sources)
  }

  lemma AppliedComponents(s: State, p: Project, read: Sources, now: int, t: State)
    requires WellKept(s) && Submitted(p) && Applied(s, p, read, now, t)
    ensures ComponentsAfter(s, p, t)
  {
    CompPutsDistinct(s, p, now);
    PutsSucceedIff(RemainingComponents(s, p), ComponentWrites(CompPuts(s, p), now));
    forall cw | cw in p.components
      ensures cw.component.name in t.comps && t.comps[cw.component.name].kept == p.name
      ensures SameComponent(t.comps[cw.component.name].body, cw.component)
    {
      var j :| 0 <= j < |p.components| && p.components[j] == cw;
      CompWritten(s, p, now, t.comps, j);
    }
    forall n | n in t.comps
      ensures t.comps[n].version == t.comps[n].body.version >= 1 && t.comps[n].body.name == n
    {
      ComponentRow(s, p, now, t, n);
    }
    forall n | n !in NewNames(p) ensures n in t.comps <==> n in s.comps && s.comps[n].kept != p.name
                                 ensures n in t.comps ==> t.comps[n] == s.comps[n]
    {
      CompOthers(s, p, now, t.comps, n);
    }
  }

  lemma ComponentRow(s: State, p: Project, now: int, t: State, n: Name)
    requires WellKept(s) && Submitted(p) && n in t.comps
    requires WrittenBy(RemainingComponents(s, p), ComponentWrites(CompPuts(s, p), now), t.comps)
    ensures t.comps[n].version == t.comps[n].body.version >= 1 && t.comps[n].body.name == n
  {
    if n in NewNames(p) {
      var j :| 0 <= j < |p.components| && p.components[j].component.name == n;
      CompWritten(s, p, now, t.comps, j);
    } else {
      CompOthers(s, p, now, t.comps, n);
    }
  }

  /** The row of any event source afterwards. */
  lemma SourceRow(s: State, p: Project, read: Sources, now: int, t: State, n: Name)
    requires WellKept(s) && Submitted(p) && SomeSources(s, p.name, read) && Fits(s, p, read) && n in t.sources
    requires WrittenBy(AfterRemovals(s, p, read).sources, SourceWrites(SrcPuts(s, p, read), now), t.sources)
    ensures t.sources[n].version == t.sources[n].body.version >= 1 && t.sources[n].body.name == n
    ensures n in NewSourceNames(p) ==> t.sources[n].body.componentName in NewNames(p)
    ensures n !in NewSourceNames(p) ==> Left(s, p, read, n) && t.sources[n] == s.sources[n]
  {
    if n in NewSourceNames(p) {
      var ls := AllListed(p.components);
      var j :| 0 <= j < |ls| && ls[j].source.eventSource.name == n;
      assert ls[j] in ls;
      SrcWritten(s, p, read, now, t.sources, j);
      OwnersAreNew(p.components, ls[j]);
    } else {
      SrcOthers(s, p, read, now, t.sources, n);
    }
  }

  lemma OwnerNotNew(s: State, p: Project, read: Sources, owner: Name)
    requires Fits(s, p, read) && owner in s.comps && owner !in StoredComponents(s, p.name)
    ensures owner !in NewNames(p)
  {
  }

  lemma AppliedSources(s: State, p: Project, read: Sources, now: int, t: State)
    requires WellKept(s) && Submitted(p) && SomeSources(s, p.name, read) && Fits(s, p, read)
        && Applied(s, p, read, now, t)
    ensures SourcesAfter(s, p, read, t)
  {
    SrcPutsDistinct(s, p, read, now);
    PutsSucceedIff(AfterRemovals(s, p, read).sources, SourceWrites(SrcPuts(s, p, read), now));
    forall l | l in AllListed(p.components)
      ensures l.source.eventSource.name in t.sources
      ensures SameSource(t.sources[l.source.eventSource.name].body, l.source.eventSource)
    {
      var j :| 0 <= j < |AllListed(p.components)| && AllListed(p.components)[j] == l;
      SrcWritten(s, p, read, now, t.sources, j);
    }
    forall n | n in t.sources
      ensures t.sources[n].version == t.sources[n].body.version >= 1 && t.sources[n].body.name == n
      ensures n in NewSourceNames(p) ==> t.sources[n].body.componentName in NewNames(p)
      ensures n in NewSourceNames(p) || (Left(s, p, read, n) && t.sources[n] == s.sources[n])
    {
      SourceRow(s, p, read, now, t, n);
    }
    forall n | n !in NewSourceNames(p) && Left(s, p, read, n) ensures n in t.sources {
      SrcOthers(s, p, read, now, t.sources, n);
    }
  }

  /** A submitted event source never is one of a component outside the project, nor one that
      stays and was not listed. */
  lemma LeftNotSubmitted(s: State, p: Project, read: Sources, n: Name)
    requires Fits(s, p, read) && Left(s, p, read, n)
    ensures n !in NewSourceNames(p)
  {
  }

  /** The event sources of the project afterwards, when all that stay were listed. */
  lemma AfterReadsBack(s: State, p: Project, read: Sources, t: State)
    requires Linked(s) && Fits(s, p, read) && ComponentsAfter(s, p, t) && SourcesAfter(s, p, read, t)
    ensures AllRead(s, p, read) ==> ReadsBack(t, p)
  {
    var stored, sources := StoredComponents(t, p.name), StoredSources(t, p.name);
    forall n ensures n in stored <==> n in NewNames(p) { }
    assert stored.Keys == NewNames(p);
    if AllRead(s, p, read) {
      forall n ensures n in sources <==> n in NewSourceNames(p) {
        if n in t.sources && n !in NewSourceNames(p) {
          NotOurs(s, p, read, n);
        }
      }
      assert sources.Keys == NewSourceNames(p);
    }
  }

  lemma NotOurs(s: State, p: Project, read: Sources, n: Name)
    requires Linked(s) && Fits(s, p, read) && AllRead(s, p, read) && Left(s, p, read, n)
    ensures s.sources[n].body.componentName !in NewNames(p)
  {
    if s.sources[n].body.componentName !in StoredComponents(s, p.name) {
      OwnerNotNew(s, p, read, s.sources[n].body.componentName);
    }
  }

  /** An event source that stays and was not listed is left behind. */
  lemma LeftBehind(s: State, p: Project, read: Sources, t: State)
    requires Fits(s, p, read) && ComponentsAfter(s, p, t) && SourcesAfter(s, p, read, t)
    ensures ReadsBack(t, p) ==> AllRead(s, p, read)
  {
    forall n | n in StoredSources(s, p.name) && s.sources[n].body.componentName in NewNames(p)
      ensures ReadsBack(t, p) ==> n in read
    {
      if n !in read {
        LeftNotSubmitted(s, p, read, n);
        assert n in StoredSources(t, p.name);
      }
    }
  }

  lemma AfterUntouched(s: State, p: Project, read: Sources, t: State)
    requires Fits(s, p, read) && ComponentsAfter(s, p, t) && SourcesAfter(s, p, read, t)
    ensures OthersUntouched(s, t, p.name)
  {
    forall n | n in s.comps && s.comps[n].kept != p.name ensures n in t.comps && t.comps[n] == s.comps[n] {
      OwnerNotNew(s, p, read, n);
    }
    forall n | n in s.sources && s.sources[n].body.componentName !in StoredComponents(s, p.name)
      ensures n in t.sources && t.sources[n] == s.sources[n]
    {
      LeftNotSubmitted(s, p, read, n);
    }
  }

  lemma AfterLinked(s: State, p: Project, read: Sources, t: State)
    requires Linked(s) && Fits(s, p, read) && ComponentsAfter(s, p, t) && SourcesAfter(s, p, read, t)
    ensures Linked(t)
  {
    AfterUntouched(s, p, read, t);
  }

  /** Applying the diff leaves all other projects alone, and leaves a store that reads back as the
      submitted project, up to versions, modification times and the enabled flags, exactly if all
      event sources of the stored components that stay were listed. */
  lemma AppliedReadsBack(s: State, p: Project, read: Sources, now: int, t: State)
    requires WellKept(s) && Submitted(p) && SomeSources(s, p.name, read) && Applied(s, p, read, now, t)
    ensures OthersUntouched(s, t, p.name) && WellKept(t)
    ensures ReadsBack(t, p) <==> AllRead(s, p, read)
  {
    NoConflictIffFits(s, p, read, now);
    AppliedComponents(s, p, read, now, t);
    AppliedSources(s, p, read, now, t);
    AfterReadsBack(s, p, read, t);
    LeftBehind(s, p, read, t);
    AfterUntouched(s, p, read, t);
    AfterLinked(s, p, read, t);
  }

  const StoredExample := State(
    map["p_a" := Row(1, "p", Component("p_a", "p", "", 1, 0))],
    map["p_e" := Row(1, true, EventSource("p_e", "p_a", "", 1, 0))])

  const MovedExample := Project("p", [
    ComponentWithEventSources(Component("p_a", "p", "", 0, 0), []),
    ComponentWithEventSources(Component("p_b", "p", "", 0, 0), [
      EventSourceWithStatus(EventSource("p_e", "p_b", "", 0, 0), true)])])

  /** Moving an event source from a component that stays to a new one is refused: the insert
      finds the old row still there. */
  lemma MoveToNewComponentConflicts(now: int)
    ensures WellKept(StoredExample) && Submitted(MovedExample)
    ensures forall t :: !Applied(StoredExample, MovedExample, StoredSources(StoredExample, "p"), now, t)
  {
    var s, p, read := StoredExample, MovedExample, StoredSources(StoredExample, "p");
    assert p.components[..1] == [p.components[0]] && p.components[..1][..0] == [];
    var l := Listed("p_b", p.components[1].eventSources[0]);
    assert AllListed(p.components) == [l];
    assert p.components[0] in p.components;
    assert "p_a" in NewNames(p) && "p_a" in StoredComponents(s, "p") && "p_b" !in StoredComponents(s, "p");
    assert !SourceFits(s, p, read, l);
    NoConflictIffFits(s, p, read, now);
  }
}

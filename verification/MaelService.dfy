/** The component and event source tables, and putting a whole project into them. */
module ProjectStore {
  import opened ClusterTypes
  import opened VersionedTable
  import opened Projects

  /** A listing that asks for no limit and names no page gets this many rows at most. */
  const PageLimit := 1000

  function Page<T>(s: seq<T>): (page: seq<T>)
    ensures page <= s && |page| == if |s| > 1000 then 1000 else |s|
  {
    if |s| > PageLimit then s[..PageLimit] else s
  }

  class Db {
    var component: Table<Name, Component>
    var eventsource: Table<bool, EventSource>

    ghost function Tables(): State
      reads this
    {
      State(component, eventsource)
    }

    ghost predicate Valid()
      reads this
    {
      WellKept(Tables())
    }

    constructor ()
      ensures Valid() && component == map[] && eventsource == map[]
    {
      component, eventsource := map[], map[];
    }

    /** Version 0 inserts a row, any other version updates the row that has this version. */
    method PutComponent(c: Component, now: int) returns (r: Result<int>)
      modifies this`component
      ensures r.Ok? <==> Accepts(old(component), ComponentWrite(c, now))
      ensures r.Ok? <==> if c.version == 0 then c.name !in old(component)
                         else c.name in old(component) && old(component)[c.name].version == c.version
      ensures r.Ok? ==>
          var kept := if c.version == 0 then c.projectName else old(component)[c.name].kept;
          component ==
            old(component)[c.name := Row(c.version + 1, kept, c.(version := c.version + 1, modifiedAt := now))]
      ensures r.Ok? ==>
          r.value == c.version + 1 && ApplyPuts(old(component), [ComponentWrite(c, now)]) == Some(component)
      ensures r.Err? ==> component == old(component)
      ensures r.Err? ==> r.error == if c.version == 0 then AlreadyExists else IncorrectPreviousVersion
    {
      var json := c.(version := c.version + 1, modifiedAt := now);
      assert [ComponentWrite(c, now)][..0] == [];
      if c.version == 0 {
        if c.name in component {
          return Err(AlreadyExists);
        }
        component := component[c.name := Row(1, c.projectName, json)];
      } else {
        if c.name !in component || component[c.name].version != c.version {
          return Err(IncorrectPreviousVersion);
        }
        component := component[c.name := component[c.name].(version := json.version, body := json)];
      }
      r := Ok(json.version);
    }

    method PutEventSource(e: EventSource, now: int) returns (r: Result<int>)
      modifies this`eventsource
      ensures r.Ok? <==> Accepts(old(eventsource), SourceWrite(e, now))
      ensures r.Ok? <==> if e.version == 0 then e.name !in old(eventsource)
                         else e.name in old(eventsource) && old(eventsource)[e.name].version == e.version
      ensures r.Ok? ==>
          var kept := if e.version == 0 then true else old(eventsource)[e.name].kept;
          eventsource ==
            old(eventsource)[e.name := Row(e.version + 1, kept, e.(version := e.version + 1, modifiedAt := now))]
      ensures r.Ok? ==>
          r.value == e.version + 1 && ApplyPuts(old(eventsource), [SourceWrite(e, now)]) == Some(eventsource)
      ensures r.Err? ==> eventsource == old(eventsource)
      ensures r.Err? ==> r.error == if e.version == 0 then AlreadyExists else IncorrectPreviousVersion
    {
      var json := e.(version := e.version + 1, modifiedAt := now);
      assert [SourceWrite(e, now)][..0] == [];
      if e.version == 0 {
        if e.name in eventsource {
          return Err(AlreadyExists);
        }
        eventsource := eventsource[e.name := Row(1, true, json)];
      } else {
        if e.name !in eventsource || eventsource[e.name].version != e.version {
          return Err(IncorrectPreviousVersion);
        }
        eventsource := eventsource[e.name := eventsource[e.name].(version := json.version, body := json)];
      }
      r := Ok(json.version);
    }

    /** The event sources of a component go with it. */
    method RemoveComponent(name: Name) returns (found: bool)
      modifies this
      ensures Tables() == WithoutComponents(old(Tables()), {name})
      ensures component == old(component) - {name}
      ensures forall n :: n in eventsource <==> n in old(eventsource) && old(eventsource)[n].body.componentName != name
      ensures forall n | n in eventsource :: eventsource[n] == old(eventsource)[n]
      ensures found <==> name in old(component)
    {
      eventsource := map n | n in eventsource && eventsource[n].body.componentName != name :: eventsource[n];
      found := name in component;
      component := component - {name};
      assert eventsource == WithoutComponents(old(Tables()), {name}).sources;
    }

    method RemoveEventSource(name: Name) returns (found: bool)
      modifies this`eventsource
      ensures Tables() == WithoutSources(old(Tables()), {name})
      ensures component == old(component) && eventsource == old(eventsource) - {name}
      ensures found <==> name in old(eventsource)
    {
      found := name in eventsource;
      eventsource := eventsource - {name};
    }

    /** The first page of the components whose project column is project, in whatever order rows come. */
    method ListComponents(project: Name) returns (page: seq<Component>, ghost r: seq<Component>)
      requires Valid()
      ensures ComponentsListed(r, component, project, component.Keys)
      ensures page == Page(r)
    {
      r, page := [], [];
      var todo := component.Keys;
      while todo != {}
        invariant todo <= component.Keys && ComponentsListed(r, component, project, component.Keys - todo)
        invariant page == Page(r)
      {
        var n :| n in todo;
        todo := todo - {n};
        if component[n].kept == project {
          ghost var before := r;
          r := r + [component[n].body];
          if |page| < PageLimit {
            page := page + [component[n].body];
          }
          assert r[|before|].name == n;
          assert forall i | 0 <= i < |before| :: r[i] == before[i];
        }
      }
    }

    method ListEventSources(componentName: Name)
      returns (page: seq<EventSourceWithStatus>, ghost r: seq<EventSourceWithStatus>)
      requires Valid()
      ensures SourcesListed(r, eventsource, componentName, eventsource.Keys)
      ensures page == Page(r)
    {
      r, page := [], [];
      var todo := eventsource.Keys;
      while todo != {}
        invariant todo <= eventsource.Keys && SourcesListed(r, eventsource, componentName, eventsource.Keys - todo)
        invariant page == Page(r)
      {
        var n :| n in todo;
        todo := todo - {n};
        if eventsource[n].body.componentName == componentName {
          ghost var before := r;
          r := r + [EventSourceWithStatus(eventsource[n].body, eventsource[n].kept)];
          if |page| < PageLimit {
            page := page + [EventSourceWithStatus(eventsource[n].body, eventsource[n].kept)];
          }
          assert r[|before|].eventSource.name == n;
          assert forall i | 0 <= i < |before| :: r[i] == before[i];
        }
      }
    }
  }

  /** r lists the components of the project among the rows seen, each once. */
  ghost predicate ComponentsListed(r: seq<Component>, t: Table<Name, Component>, project: Name, seen: set<Name>)
    requires seen <= t.Keys
  {
    && (forall i, j | 0 <= i < j < |r| :: r[i].name != r[j].name)
    && (forall i | 0 <= i < |r| :: r[i].name in seen && t[r[i].name].kept == project && t[r[i].name].body == r[i])
    && (forall n | n in seen && t[n].kept == project :: exists i :: 0 <= i < |r| && r[i].name == n)
  }

  ghost predicate SourcesListed(r: seq<EventSourceWithStatus>, t: Table<bool, EventSource>, owner: Name,
                                seen: set<Name>)
    requires seen <= t.Keys
  {
    && (forall i, j | 0 <= i < j < |r| :: r[i].eventSource.name != r[j].eventSource.name)
    && (forall i | 0 <= i < |r| ::
          r[i].eventSource.name in seen && r[i].eventSource.componentName == owner
          && r[i] == EventSourceWithStatus(t[r[i].eventSource.name].body, t[r[i].eventSource.name].kept))
    && (forall n | n in seen && t[n].body.componentName == owner ::
          exists i :: 0 <= i < |r| && r[i].eventSource.name == n)
  }
}

/** Reading and putting whole projects. */
module MaelService {
  import opened ClusterTypes
  import opened VersionedTable
  import opened Projects
  import opened ProjectApply
  import opened ProjectDiffing
  import opened ProjectStore
  import opened ProjectPages
  import opened Sizes

  lemma OneMoreRemoved(s: State, names: set<Name>, n: Name)
    ensures WithoutComponents(WithoutComponents(s, names), {n}) == WithoutComponents(s, names + {n})
    ensures WithoutSources(WithoutSources(s, names), {n}) == WithoutSources(s, names + {n})
    ensures WithoutComponents(s, {}) == s && WithoutSources(s, {}) == s
  {
    assert s.comps - names - {n} == s.comps - (names + {n});
    assert s.sources - names - {n} == s.sources - (names + {n});
    assert WithoutComponents(WithoutComponents(s, names), {n}).sources == WithoutComponents(s, names + {n}).sources;
    assert WithoutComponents(s, {}).sources == s.sources;
  }

  /** A write that fails makes the whole sequence fail. */
  lemma {:induction false} PrefixFails<K, B>(t: Table<K, B>, puts: seq<Put<K, B>>, i: nat)
    requires i <= |puts| && ApplyPuts(t, puts[..i]) == None
    ensures ApplyPuts(t, puts) == None
    decreases |puts|
  {
    if i == |puts| {
      assert puts[..i] == puts;
    } else {
      assert puts[..|puts| - 1][..i] == puts[..i];
      PrefixFails(t, puts[..|puts| - 1], i);
    }
  }

  lemma OneMorePut<K, B>(t: Table<K, B>, puts: seq<Put<K, B>>, i: nat, u: Table<K, B>)
    requires i < |puts| && ApplyPuts(t, puts[..i]) == Some(u)
    ensures Accepts(u, puts[i]) ==> ApplyPuts(t, puts[..i + 1]) == ApplyPuts(u, [puts[i]])
    ensures !Accepts(u, puts[i]) ==> ApplyPuts(t, puts[..i + 1]) == None
  {
    assert puts[..i + 1][..i] == puts[..i];
    assert [puts[i]][..0] == [];
  }

  lemma SubmittedMaps(p: Project)
    requires Submitted(p)
    ensures ComponentMap(p.components).Keys == NewNames(p)
    ensures SourceMap(AllListed(p.components)).Keys == NewSourceNames(p)
  {
    forall n ensures n in ComponentMap(p.components) <==> n in NewNames(p) {
      ComponentMapEntries(p.components, n);
    }
    forall n ensures n in SourceMap(AllListed(p.components)) <==> n in NewSourceNames(p) {
      SourceMapEntries(AllListed(p.components), n);
    }
  }

  /** What the computed diff says about the tables the old project was read from. */
  lemma DiffMeaning(s: State, oldComps: map<Name, Component>, read: Sources, p: Project, diff: ProjectDiff)
    requires SomeStored(s, p.name, oldComps) && |oldComps| == OnPage(|StoredComponents(s, p.name)|)
    requires OnPages(s.sources, oldComps.Keys, read)
    requires diff.componentPut == ComponentPuts(oldComps, p.components)
    requires diff.eventSourcePut == SourcePuts(oldComps, read, AllListed(p.components))
    requires forall n :: n in diff.componentRemove <==> n in oldComps && n !in NewNames(p)
    requires forall n :: n in diff.eventSourceRemove <==> n in read && n !in NewSourceNames(p)
    ensures |StoredComponents(s, p.name)| <= PageLimit ==>
      OnPages(s.sources, StoredComponents(s, p.name).Keys, read) && DiffOf(s, p, read, diff)
    ensures |StoredComponents(s, p.name)| > PageLimit ==> PartialDiff(s, p, diff)
  {
    DiffRemoves(oldComps.Keys, NewNames(p), diff.componentRemove);
    DiffRemoves(read.Keys, NewSourceNames(p), diff.eventSourceRemove);
    if |StoredComponents(s, p.name)| > PageLimit {
      assert IsPartly(s, p, diff, oldComps);
    } else {
      AllStored(s, p.name, oldComps);
    }
  }

  lemma DiffRemoves(before: set<Name>, after: set<Name>, names: seq<Name>)
    requires forall n :: n in names <==> n in before && n !in after
    ensures Among(names) == before - after
  {
  }

  class MaelServiceImpl {
    const db: Db

    constructor (db: Db)
      ensures this.db == db
    {
      this.db := db;
    }

    /** The project as the tables hold it, as far as one page of components, and one page of event
        sources for each of them, reaches. */
    method GetProjectInternal(projectName: Name) returns (project: Project)
      requires db.Valid()
      ensures project.name == projectName
      ensures SomeStored(db.Tables(), projectName, ComponentMap(project.components))
      ensures |ComponentMap(project.components)| == OnPage(|StoredComponents(db.Tables(), projectName)|)
      ensures OnPages(db.eventsource, ComponentMap(project.components).Keys, SourceMap(AllListed(project.components)))
      ensures WithinPage(db.Tables(), projectName) ==>
          && ComponentMap(project.components) == StoredComponents(db.Tables(), projectName)
          && SourceMap(AllListed(project.components)) == StoredSources(db.Tables(), projectName)
    {
      var comps, all := db.ListComponents(projectName);
      var cs: seq<ComponentWithEventSources> := [];
      for x := 0 to |comps|
        invariant ReadSoFar(cs, comps[..x], db.eventsource)
      {
        var ess, sources := db.ListEventSources(comps[x].name);
        assert comps[..x + 1] == comps[..x] + [comps[x]];
        OneMoreRead(cs, comps[..x], comps[x], sources, db.eventsource);
        cs := cs + [ComponentWithEventSources(comps[x], ess)];
      }
      assert comps[..|comps|] == comps;
      project := Project(projectName, cs);
      PageListed(cs, all, db.Tables(), projectName);
      if WithinPage(db.Tables(), projectName) {
        AllStored(db.Tables(), projectName, ComponentMap(cs));
        PagesStored(db.Tables(), projectName, SourceMap(AllListed(cs)));
      }
    }

    method RemoveComponents(names: seq<Name>)
      modifies db
      ensures db.Tables() == WithoutComponents(old(db.Tables()), Among(names))
    {
      OneMoreRemoved(db.Tables(), {}, "");
      ghost var gone: set<Name> := {};
      for i := 0 to |names|
        invariant gone == Among(names[..i])
        invariant db.Tables() == WithoutComponents(old(db.Tables()), gone)
      {
        OneMoreRemoved(old(db.Tables()), gone, names[i]);
        var _ := db.RemoveComponent(names[i]);
        assert names[..i + 1] == names[..i] + [names[i]];
        gone := gone + {names[i]};
      }
      assert names[..|names|] == names;
    }

    method RemoveEventSources(names: seq<Name>)
      modifies db
      ensures db.Tables() == WithoutSources(old(db.Tables()), Among(names))
    {
      OneMoreRemoved(db.Tables(), {}, "");
      ghost var gone: set<Name> := {};
      for i := 0 to |names|
        invariant gone == Among(names[..i])
        invariant db.Tables() == WithoutSources(old(db.Tables()), gone)
      {
        OneMoreRemoved(old(db.Tables()), gone, names[i]);
        var _ := db.RemoveEventSource(names[i]);
        assert names[..i + 1] == names[..i] + [names[i]];
        gone := gone + {names[i]};
      }
      assert names[..|names|] == names;
    }

    method PutComponents(cs: seq<Component>, now: int) returns (ok: bool)
      modifies db`component
      ensures if ok then ApplyPuts(old(db.component), ComponentWrites(cs, now)) == Some(db.component)
              else ApplyPuts(old(db.component), ComponentWrites(cs, now)) == None
      ensures OnlyWritten(old(db.component), ComponentWrites(cs, now), db.component)
    {
      ghost var puts := ComponentWrites(cs, now);
      for i := 0 to |cs|
        invariant OnlyWritten(old(db.component), puts, db.component)
        invariant ApplyPuts(old(db.component), puts[..i]) == Some(db.component)
      {
        OneMorePut(old(db.component), puts, i, db.component);
        var r := db.PutComponent(cs[i], now);
        if r.Err? {
          PrefixFails(old(db.component), puts, i + 1);
          return false;
        }
      }
      assert puts[..|puts|] == puts;
      ok := true;
    }

    method PutEventSources(es: seq<EventSource>, now: int) returns (ok: bool)
      modifies db`eventsource
      ensures if ok then ApplyPuts(old(db.eventsource), SourceWrites(es, now)) == Some(db.eventsource)
              else ApplyPuts(old(db.eventsource), SourceWrites(es, now)) == None
      ensures OnlyWritten(old(db.eventsource), SourceWrites(es, now), db.eventsource)
    {
      ghost var puts := SourceWrites(es, now);
      for i := 0 to |es|
        invariant OnlyWritten(old(db.eventsource), puts, db.eventsource)
        invariant ApplyPuts(old(db.eventsource), puts[..i]) == Some(db.eventsource)
      {
        OneMorePut(old(db.eventsource), puts, i, db.eventsource);
        var r := db.PutEventSource(es[i], now);
        if r.Err? {
          PrefixFails(old(db.eventsource), puts, i + 1);
          return false;
        }
      }
      assert puts[..|puts|] == puts;
      ok := true;
    }

    method ComputeDiff(project: Project) returns (diff: ProjectDiff, ghost read: Sources)
      requires db.Valid() && Submitted(project)
      ensures |StoredComponents(db.Tables(), project.name)| <= PageLimit ==>
          OnPages(db.eventsource, StoredComponents(db.Tables(), project.name).Keys, read)
          && DiffOf(db.Tables(), project, read, diff)
      ensures |StoredComponents(db.Tables(), project.name)| > PageLimit ==> PartialDiff(db.Tables(), project, diff)
    {
      var oldProject := GetProjectInternal(project.name);
      diff := DiffProject(oldProject, project);
      SubmittedMaps(project);
      read := SourceMap(AllListed(oldProject.components));
      DiffMeaning(db.Tables(), ComponentMap(oldProject.components), read, project, diff);
    }

    method RemoveAll(diff: ProjectDiff)
      modifies db
      ensures db.Tables() == WithoutSources(WithoutComponents(old(db.Tables()), Among(diff.componentRemove)),
                                            Among(diff.eventSourceRemove))
    {
      RemoveComponents(diff.componentRemove);
      RemoveEventSources(diff.eventSourceRemove);
    }

    method PutAll(diff: ProjectDiff, now: int) returns (ok: bool)
      modifies db
      ensures ok <==>
        && ApplyPuts(old(db.component), ComponentWrites(diff.componentPut, now)).Some?
        && ApplyPuts(old(db.eventsource), SourceWrites(diff.eventSourcePut, now)).Some?
      ensures ok ==> ApplyPuts(old(db.component), ComponentWrites(diff.componentPut, now)) == Some(db.component)
      ensures ok ==> ApplyPuts(old(db.eventsource), SourceWrites(diff.eventSourcePut, now)) == Some(db.eventsource)
      ensures OnlyWritten(old(db.component), ComponentWrites(diff.componentPut, now), db.component)
      ensures OnlyWritten(old(db.eventsource), SourceWrites(diff.eventSourcePut, now), db.eventsource)
    {
      ok := PutComponents(diff.componentPut, now);
      if ok {
        ok := PutEventSources(diff.eventSourcePut, now);
      }
    }

    /** Replaces the stored project by the submitted one; read are the stored event sources that
        were listed, all of them if each component's fit on one page. The put goes through exactly
        if the names fit. Then the store reads back as what was submitted exactly if the event
        sources of every component that stays fit on one page. It is not a transaction: even on a
        conflict the components no longer wanted are gone. When the stored components do not fit on
        one page, no put that goes through reads back as submitted. */
    method PutProject(project: Project, diffOnly: bool, now: int)
      returns (ok: bool, diff: ProjectDiff, ghost read: Sources)
      requires db.Valid() && Submitted(project)
      modifies db
      ensures diffOnly ==> ok && db.Tables() == old(db.Tables())
      ensures WithinPage(old(db.Tables()), project.name) ==> read == StoredSources(old(db.Tables()), project.name)
      ensures |StoredComponents(old(db.Tables()), project.name)| <= PageLimit ==>
          && OnPages(old(db.eventsource), StoredComponents(old(db.Tables()), project.name).Keys, read)
          && DiffOf(old(db.Tables()), project, read, diff)
          && (!diffOnly ==> Replaced(old(db.Tables()), project, read, ok, db.Tables()))
      ensures |StoredComponents(old(db.Tables()), project.name)| > PageLimit && !diffOnly && ok ==>
          !ReadsBack(db.Tables(), project)
    {
      diff, read := ComputeDiff(project);
      ghost var s := db.Tables();
      if |StoredComponents(s, project.name)| <= PageLimit {
        PagesStored(s, project.name, read);
      }
      if diffOnly {
        return true, diff, read;
      }
      RemoveAll(diff);
      ok := PutAll(diff, now);
      if |StoredComponents(s, project.name)| <= PageLimit {
        Outcome(s, project, read, diff, now, ok, db.Tables());
      } else if ok {
        PartlyNotReadBack(s, project, diff, now, db.Tables());
      }
    }
  }

  /** The submitted project is what is stored now, as far as it was read, or its names did not fit. */
  ghost predicate Replaced(s: State, p: Project, read: Sources, ok: bool, t: State) {
    && (ok <==> Fits(s, p, read))
    && (ok ==> WellKept(t) && OthersUntouched(s, t, p.name) && (ReadsBack(t, p) <==> KeptWithinPage(s, p)))
    && Removed(s, p, t) && UnchangedKept(s, p, read, t)
  }

  /** Components and event sources submitted as they are stored keep their rows, version included. */
  ghost predicate UnchangedKept(s: State, p: Project, read: Sources, t: State) {
    && (forall cw | cw in p.components && SameAsOld(StoredComponents(s, p.name), cw.component) ::
          cw.component.name in t.comps && t.comps[cw.component.name] == s.comps[cw.component.name])
    && (forall l | l in AllListed(p.components) && SameAsRead(StoredComponents(s, p.name), read, l) ::
          var n := l.source.eventSource.name; n in s.sources && n in t.sources && t.sources[n] == s.sources[n])
  }

  /** The diff against some of the stored components only. */
  ghost predicate PartialDiff(s: State, p: Project, diff: ProjectDiff) {
    exists oldComps :: IsPartly(s, p, diff, oldComps)
  }

  ghost predicate IsPartly(s: State, p: Project, diff: ProjectDiff, oldComps: map<Name, Component>) {
    && SomeStored(s, p.name, oldComps) && |oldComps| < |StoredComponents(s, p.name)|
    && diff.componentPut == ComponentPuts(oldComps, p.components)
    && Among(diff.componentRemove) <= oldComps.Keys
  }

  lemma PartlyNotReadBack(s: State, p: Project, diff: ProjectDiff, now: int, t: State)
    requires Submitted(p) && PartialDiff(s, p, diff)
    requires ApplyPuts(s.comps - Among(diff.componentRemove), ComponentWrites(diff.componentPut, now)) == Some(t.comps)
    ensures !ReadsBack(t, p)
  {
    var oldComps :| IsPartly(s, p, diff, oldComps);
    UnlistedNotReadBack(s, p, oldComps, Among(diff.componentRemove), now, t);
  }

  lemma Outcome(s: State, p: Project, read: Sources, diff: ProjectDiff, now: int, ok: bool, t: State)
    requires WellKept(s) && Submitted(p) && OnPages(s.sources, StoredComponents(s, p.name).Keys, read)
    requires DiffOf(s, p, read, diff)
    requires ok <==>
      && ApplyPuts(RemainingComponents(s, p), ComponentWrites(diff.componentPut, now)).Some?
      && ApplyPuts(AfterRemovals(s, p, read).sources, SourceWrites(diff.eventSourcePut, now)).Some?
    requires ok ==> Applied(s, p, read, now, t)
    requires OnlyWritten(RemainingComponents(s, p), ComponentWrites(diff.componentPut, now), t.comps)
    requires OnlyWritten(AfterRemovals(s, p, read).sources, SourceWrites(diff.eventSourcePut, now), t.sources)
    ensures Replaced(s, p, read, ok, t)
  {
    PagesStored(s, p.name, read);
    CompPutsSucceed(s, p, now);
    SrcPutsSucceed(s, p, read, now);
    RemovedStay(s, p, now, t);
    UnchangedComponentsStay(s, p, now, t);
    UnchangedSourcesStay(s, p, read, now, t);
    if ok {
      AppliedReadsBack(s, p, read, now, t);
      AllReadIffWithin(s, p, read);
    }
  }

  /** The components of the project that were not submitted again are gone. */
  ghost predicate Removed(s: State, p: Project, t: State) {
    forall n | n in StoredComponents(s, p.name) && n !in NewNames(p) :: n !in t.comps
  }

  lemma RemovedStay(s: State, p: Project, now: int, t: State)
    requires OnlyWritten(RemainingComponents(s, p), ComponentWrites(CompPuts(s, p), now), t.comps)
    ensures Removed(s, p, t)
  {
    forall n | n in StoredComponents(s, p.name) && n !in NewNames(p) ensures n !in t.comps {
      forall k | 0 <= k < |CompPuts(s, p)| ensures CompPuts(s, p)[k].name != n {
        var j := CompPutFrom(s, p, k);
        assert p.components[j] in p.components;
      }
      assert Untouched(ComponentWrites(CompPuts(s, p), now), n);
      assert SameRow(RemainingComponents(s, p), t.comps, n);
    }
  }

  lemma UnchangedComponentsStay(s: State, p: Project, now: int, t: State)
    requires WellKept(s) && Submitted(p)
    requires OnlyWritten(RemainingComponents(s, p), ComponentWrites(CompPuts(s, p), now), t.comps)
    ensures forall cw | cw in p.components && SameAsOld(StoredComponents(s, p.name), cw.component) ::
              cw.component.name in t.comps && t.comps[cw.component.name] == s.comps[cw.component.name]
  {
    var stored := StoredComponents(s, p.name);
    forall cw | cw in p.components && SameAsOld(stored, cw.component)
      ensures cw.component.name in t.comps && t.comps[cw.component.name] == s.comps[cw.component.name]
    {
      forall k | 0 <= k < |CompPuts(s, p)| ensures CompPuts(s, p)[k].name != cw.component.name {
        ComponentsPutAre(stored, p.components, CompPuts(s, p)[k]);
        assert CompPuts(s, p)[k] in CompPuts(s, p);
      }
      assert Untouched(ComponentWrites(CompPuts(s, p), now), cw.component.name);
      assert SameRow(RemainingComponents(s, p), t.comps, cw.component.name);
      assert cw.component.name in NewNames(p);
    }
  }

  lemma UnchangedSourcesStay(s: State, p: Project, read: Sources, now: int, t: State)
    requires WellKept(s) && Submitted(p) && SomeSources(s, p.name, read)
    requires OnlyWritten(AfterRemovals(s, p, read).sources, SourceWrites(SrcPuts(s, p, read), now), t.sources)
    ensures forall l | l in AllListed(p.components) && SameAsRead(StoredComponents(s, p.name), read, l) ::
              var n := l.source.eventSource.name; n in s.sources && n in t.sources && t.sources[n] == s.sources[n]
  {
    var ls := AllListed(p.components);
    forall l | l in ls && SameAsRead(StoredComponents(s, p.name), read, l)
      ensures var n := l.source.eventSource.name; n in s.sources && n in t.sources && t.sources[n] == s.sources[n]
    {
      var n := l.source.eventSource.name;
      forall k | 0 <= k < |SrcPuts(s, p, read)| ensures SrcPuts(s, p, read)[k].name != n {
        SourcesPutAre(StoredComponents(s, p.name), read, ls, SrcPuts(s, p, read)[k]);
        assert SrcPuts(s, p, read)[k] in SrcPuts(s, p, read);
      }
      assert Untouched(SourceWrites(SrcPuts(s, p, read), now), n);
      assert SameRow(AfterRemovals(s, p, read).sources, t.sources, n);
      SourceRemains(s, p, read, n);
      OwnersAreNew(p.components, l);
    }
  }

  /** The diff turns what was read of the stored project into what is submitted. */
  ghost predicate DiffOf(s: State, p: Project, read: Sources, diff: ProjectDiff) {
    && diff.componentPut == CompPuts(s, p) && diff.eventSourcePut == SrcPuts(s, p, read)
    && Among(diff.componentRemove) == StoredComponents(s, p.name).Keys - NewNames(p)
    && Among(diff.eventSourceRemove) == read.Keys - NewSourceNames(p)
  }
}

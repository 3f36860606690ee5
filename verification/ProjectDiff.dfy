/** Computing the difference between the stored and the submitted project. */
module ProjectDiffing {
  import opened ClusterTypes
  import opened Sorting
  import opened VersionedTable
  import opened Projects

  lemma {:induction false} PickedAppend<T, U>(a: seq<T>, b: seq<T>, f: T -> Option<U>)
    ensures Picked(a + b, f) == Picked(a, f) + Picked(b, f)
  {
    if b == [] {
      assert a + b == a;
    } else {
      var n := |b| - 1;
      assert (a + b)[..|a + b| - 1] == a + b[..n];
      PickedAppend(a, b[..n], f);
    }
  }

  /** Adds the event sources of one component to an index by name. */
  method IndexSources(index: map<Name, EventSourceWithStatus>, ghost seen: seq<Listed>, cw: ComponentWithEventSources)
    returns (r: map<Name, EventSourceWithStatus>)
    requires index == SourceMap(seen)
    ensures r == SourceMap(seen + ListedUnder(cw.component.name, cw.eventSources))
  {
    r := index;
    ghost var ls := ListedUnder(cw.component.name, cw.eventSources);
    assert seen + ls[..0] == seen;
    for j := 0 to |cw.eventSources|
      invariant r == SourceMap(seen + ls[..j])
    {
      assert (seen + ls[..j + 1])[..|seen| + j] == seen + ls[..j];
      r := r[cw.eventSources[j].eventSource.name := cw.eventSources[j]];
    }
    assert ls[..|ls|] == ls;
  }

  method IndexProject(p: Project) returns (comps: map<Name, Component>, sources: map<Name, EventSourceWithStatus>)
    ensures comps == ComponentMap(p.components) && sources == SourceMap(AllListed(p.components))
  {
    comps, sources := map[], map[];
    for i := 0 to |p.components|
      invariant comps == ComponentMap(p.components[..i]) && sources == SourceMap(AllListed(p.components[..i]))
    {
      assert p.components[..i + 1][..i] == p.components[..i];
      var cw := p.components[i];
      comps := comps[cw.component.name := cw.component];
      sources := IndexSources(sources, AllListed(p.components[..i]), cw);
    }
    assert p.components[..|p.components|] == p.components;
  }

  /** The event sources of one component that have to be put. */
  method DiffSources(oldComps: map<Name, Component>, oldSources: map<Name, EventSourceWithStatus>,
                     cw: ComponentWithEventSources) returns (puts: seq<EventSource>)
    ensures puts == SourcePuts(oldComps, oldSources, ListedUnder(cw.component.name, cw.eventSources))
  {
    puts := [];
    ghost var ls := ListedUnder(cw.component.name, cw.eventSources);
    for j := 0 to |cw.eventSources|
      invariant puts == SourcePuts(oldComps, oldSources, ls[..j])
    {
      assert ls[..j + 1][..j] == ls[..j];
      var ess := cw.eventSources[j];
      if cw.component.name in oldComps {
        var found := ess.eventSource.name in oldSources;
        var version, modifiedAt := 0, 0;
        if found {
          version := oldSources[ess.eventSource.name].eventSource.version;
          modifiedAt := oldSources[ess.eventSource.name].eventSource.modifiedAt;
        }
        ess := ess.(eventSource := ess.eventSource.(version := version, modifiedAt := modifiedAt));
        if !found || oldSources[ess.eventSource.name] != ess {
          puts := puts + [ess.eventSource];
        }
      } else {
        puts := puts + [ess.eventSource];
      }
    }
    assert ls[..|ls|] == ls;
  }

  /** The names only found in before, sorted. */
  method Missing(before: set<Name>, after: set<Name>) returns (names: seq<Name>)
    ensures forall n :: n in names <==> n in before && n !in after
    ensures forall i, j | 0 <= i < j < |names| :: StringLess(names[i], names[j])
  {
    names := [];
    var todo := before;
    while todo != {}
      invariant todo <= before
      invariant forall n :: n in names <==> n in before - todo && n !in after
      invariant forall i, j | 0 <= i < j < |names| :: names[i] != names[j]
    {
      var n :| n in todo;
      if n !in after {
        names := names + [n];
      }
      todo := todo - {n};
    }
    ghost var picked := names;
    StringOrder();
    names := Sort(names, StringLess);
    SameElements(picked, names);
    DistinctPermuted(picked, names, (n: Name) => n);
    forall i, j | 0 <= i < j < |names| ensures StringLess(names[i], names[j]) {
      assert !StringLess(names[j], names[i]);
      StringLessTotal(names[i], names[j]);
    }
  }

  lemma {:induction false} StringLessTotal(a: string, b: string)
    requires a != b
    ensures StringLess(a, b) || StringLess(b, a)
  {
    if a != "" && b != "" && a[0] == b[0] {
      assert a == [a[0]] + a[1..] && b == [b[0]] + b[1..];
      StringLessTotal(a[1..], b[1..]);
    }
  }

  /** All puts: of every submitted component its own, if changed, and those of its event sources. */
  method DiffPuts(oldComps: map<Name, Component>, oldSources: map<Name, EventSourceWithStatus>,
                  cs: seq<ComponentWithEventSources>) returns (compPut: seq<Component>, esPut: seq<EventSource>)
    ensures compPut == ComponentPuts(oldComps, cs)
    ensures esPut == SourcePuts(oldComps, oldSources, AllListed(cs))
  {
    compPut, esPut := [], [];
    for i := 0 to |cs|
      invariant compPut == ComponentPuts(oldComps, cs[..i])
      invariant esPut == SourcePuts(oldComps, oldSources, AllListed(cs[..i]))
    {
      assert cs[..i + 1][..i] == cs[..i];
      var cw := cs[i];
      ghost var f := c => ComponentPut(oldComps, c);
      assert Picked(cs[..i + 1], f) == Picked(cs[..i], f) + match f(cw) { case None => [] case Some(c) => [c] };
      if cw.component.name in oldComps {
        var was := oldComps[cw.component.name];
        var carried := cw.component.(version := was.version, modifiedAt := was.modifiedAt);
        if was != carried {
          compPut := compPut + [carried];
        }
      } else {
        compPut := compPut + [cw.component];
      }
      var puts := DiffSources(oldComps, oldSources, cw);
      PickedAppend(AllListed(cs[..i]), ListedUnder(cw.component.name, cw.eventSources),
                   l => SourcePut(oldComps, oldSources, l));
      esPut := esPut + puts;
    }
    assert cs[..|cs|] == cs;
  }

  /** The event sources listed are those of the components, each under its component. */
  lemma {:induction false} AllListedAre(cs: seq<ComponentWithEventSources>, l: Listed)
    ensures l in AllListed(cs) <==> exists cw :: cw in cs && cw.component.name == l.owner && l.source in cw.eventSources
  {
    if cs != [] {
      var n := |cs| - 1;
      AllListedAre(cs[..n], l);
      assert cs == cs[..n] + [cs[n]];
      UnderOne(cs[n], l);
    }
  }

  lemma UnderOne(cw: ComponentWithEventSources, l: Listed)
    ensures l in ListedUnder(cw.component.name, cw.eventSources)
       <==> cw.component.name == l.owner && l.source in cw.eventSources
  {
    var ls := ListedUnder(cw.component.name, cw.eventSources);
    if cw.component.name == l.owner && l.source in cw.eventSources {
      var i :| 0 <= i < |cw.eventSources| && cw.eventSources[i] == l.source;
      assert ls[i] == l;
    }
  }

  // ---------- what is put ----------

  /** c has to be put for the submitted component: that is new, with its own version, or its
      settings differ from the old one's, whose version it then carries. */
  ghost predicate IsComponentChange(before: map<Name, Component>, submitted: Component, c: Component) {
    && c.name == submitted.name && c.projectName == submitted.projectName && c.config == submitted.config
    && if submitted.name in before then
         var was := before[submitted.name];
         && (submitted.projectName != was.projectName || submitted.config != was.config)
         && c.version == was.version && c.modifiedAt == was.modifiedAt
       else
         c.version == submitted.version && c.modifiedAt == submitted.modifiedAt
  }

  /** e has to be put for an event source submitted under the component owner: under a new
      component always, with its own version; under an old one if its name is new, with version 0,
      or if it differs from the old one in its owner, settings or enabled flag. */
  ghost predicate IsSourceChange(oldComps: map<Name, Component>, before: Sources, owner: Name,
                                 submitted: EventSourceWithStatus, e: EventSource) {
    var es := submitted.eventSource;
    && e.name == es.name && e.componentName == es.componentName && e.config == es.config
    && if owner !in oldComps then
         e.version == es.version && e.modifiedAt == es.modifiedAt
       else if es.name !in before then
         e.version == 0 && e.modifiedAt == 0
       else
         var was := before[es.name].eventSource;
         && (es.componentName != was.componentName || es.config != was.config
             || submitted.enabled != before[es.name].enabled)
         && e.version == was.version && e.modifiedAt == was.modifiedAt
  }

  ghost predicate NamedByKeys(comps: map<Name, Component>, sources: Sources) {
    && (forall n | n in comps :: comps[n].name == n)
    && (forall n | n in sources :: sources[n].eventSource.name == n)
  }

  lemma {:induction false} IndexedByName(cs: seq<ComponentWithEventSources>, ls: seq<Listed>)
    ensures NamedByKeys(ComponentMap(cs), SourceMap(ls))
    decreases |cs| + |ls|
  {
    if cs != [] {
      IndexedByName(cs[..|cs| - 1], ls);
    } else if ls != [] {
      IndexedByName(cs, ls[..|ls| - 1]);
    }
  }

  lemma ComponentPutIs(oldComps: map<Name, Component>, cw: ComponentWithEventSources, c: Component)
    requires forall n | n in oldComps :: oldComps[n].name == n
    ensures ComponentPut(oldComps, cw) == Some(c) <==> IsComponentChange(oldComps, cw.component, c)
  {
  }

  lemma SourcePutIs(oldComps: map<Name, Component>, oldSources: Sources, l: Listed, e: EventSource)
    requires forall n | n in oldSources :: oldSources[n].eventSource.name == n
    ensures SourcePut(oldComps, oldSources, l) == Some(e)
       <==> IsSourceChange(oldComps, oldSources, l.owner, l.source, e)
  {
  }

  /** The components put are just the changes. */
  lemma ComponentsPutAre(oldComps: map<Name, Component>, cs: seq<ComponentWithEventSources>, c: Component)
    requires forall n | n in oldComps :: oldComps[n].name == n
    ensures c in ComponentPuts(oldComps, cs) <==>
      exists j :: 0 <= j < |cs| && IsComponentChange(oldComps, cs[j].component, c)
  {
    var f := cw => ComponentPut(oldComps, cw);
    PickedMembers(cs, f, c);
    forall j | 0 <= j < |cs| ensures f(cs[j]) == Some(c) <==> IsComponentChange(oldComps, cs[j].component, c) {
      ComponentPutIs(oldComps, cs[j], c);
    }
  }

  lemma SourcesPutAre(oldComps: map<Name, Component>, oldSources: Sources, ls: seq<Listed>, e: EventSource)
    requires forall n | n in oldSources :: oldSources[n].eventSource.name == n
    ensures e in SourcePuts(oldComps, oldSources, ls) <==>
      exists j :: 0 <= j < |ls| && IsSourceChange(oldComps, oldSources, ls[j].owner, ls[j].source, e)
  {
    var f := l => SourcePut(oldComps, oldSources, l);
    PickedMembers(ls, f, e);
    forall j | 0 <= j < |ls|
      ensures f(ls[j]) == Some(e) <==> IsSourceChange(oldComps, oldSources, ls[j].owner, ls[j].source, e)
    {
      SourcePutIs(oldComps, oldSources, ls[j], e);
    }
  }

  /** The component is there already with the same settings. */
  ghost predicate SameAsOld(oldComps: map<Name, Component>, c: Component) {
    c.name in oldComps && c.projectName == oldComps[c.name].projectName && c.config == oldComps[c.name].config
  }

  ghost predicate SameComponents(oldComps: map<Name, Component>, cs: seq<ComponentWithEventSources>) {
    forall j | 0 <= j < |cs| :: SameAsOld(oldComps, cs[j].component)
  }

  ghost predicate SameListed(oldComps: map<Name, Component>, oldSources: Sources, ls: seq<Listed>) {
    forall j | 0 <= j < |ls| :: SameAsRead(oldComps, oldSources, ls[j])
  }

  /** The event source is there already with the same owner, settings and enabled flag. */
  ghost predicate SameAsRead(oldComps: map<Name, Component>, oldSources: Sources, l: Listed) {
    var es := l.source.eventSource;
    && l.owner in oldComps && es.name in oldSources
    && var was := oldSources[es.name];
       && es.componentName == was.eventSource.componentName && es.config == was.eventSource.config
       && l.source.enabled == was.enabled
  }

  /** Nothing is put for a project that is there already. */
  lemma NothingToPut(oldComps: map<Name, Component>, oldSources: Sources, cs: seq<ComponentWithEventSources>,
                     ls: seq<Listed>)
    requires NamedByKeys(oldComps, oldSources)
    ensures SameComponents(oldComps, cs) ==> ComponentPuts(oldComps, cs) == []
    ensures SameListed(oldComps, oldSources, ls) ==> SourcePuts(oldComps, oldSources, ls) == []
  {
    var compPuts, srcPuts := ComponentPuts(oldComps, cs), SourcePuts(oldComps, oldSources, ls);
    assert compPuts != [] ==> compPuts[0] in compPuts;
    assert srcPuts != [] ==> srcPuts[0] in srcPuts;
    if SameComponents(oldComps, cs) {
      forall c ensures c !in compPuts {
        ComponentsPutAre(oldComps, cs, c);
      }
    }
    if SameListed(oldComps, oldSources, ls) {
      forall e ensures e !in srcPuts {
        SourcesPutAre(oldComps, oldSources, ls, e);
      }
    }
  }

  method DiffProject(oldProject: Project, newProject: Project) returns (diff: ProjectDiff)
    ensures diff.componentPut == ComponentPuts(ComponentMap(oldProject.components), newProject.components)
    ensures diff.eventSourcePut ==
        SourcePuts(ComponentMap(oldProject.components), SourceMap(AllListed(oldProject.components)),
                   AllListed(newProject.components))
    ensures forall n :: n in diff.componentRemove <==>
              n in ComponentMap(oldProject.components) && n !in ComponentMap(newProject.components)
    ensures forall n :: n in diff.eventSourceRemove <==>
              n in SourceMap(AllListed(oldProject.components)) && n !in SourceMap(AllListed(newProject.components))
    ensures forall i, j | 0 <= i < j < |diff.componentRemove| ::
        StringLess(diff.componentRemove[i], diff.componentRemove[j])
    ensures forall i, j | 0 <= i < j < |diff.eventSourceRemove| ::
        StringLess(diff.eventSourceRemove[i], diff.eventSourceRemove[j])
    ensures var oldComps, cs := ComponentMap(oldProject.components), newProject.components;
            forall c :: c in diff.componentPut <==>
              exists j :: 0 <= j < |cs| && IsComponentChange(oldComps, cs[j].component, c)
    ensures var oldComps := ComponentMap(oldProject.components);
            var oldSources := SourceMap(AllListed(oldProject.components));
            var ls := AllListed(newProject.components);
            forall e :: e in diff.eventSourcePut <==>
              exists j :: 0 <= j < |ls| && IsSourceChange(oldComps, oldSources, ls[j].owner, ls[j].source, e)
    ensures var oldComps := ComponentMap(oldProject.components);
            var oldSources := SourceMap(AllListed(oldProject.components));
            && (SameComponents(oldComps, newProject.components) ==> diff.componentPut == [])
            && (SameListed(oldComps, oldSources, AllListed(newProject.components)) ==> diff.eventSourcePut == [])
  {
    var oldComps, oldSources := IndexProject(oldProject);
    IndexedByName(oldProject.components, AllListed(oldProject.components));
    NothingToPut(oldComps, oldSources, newProject.components, AllListed(newProject.components));
    forall c
      ensures c in ComponentPuts(oldComps, newProject.components) <==> exists j ::
        0 <= j < |newProject.components| && IsComponentChange(oldComps, newProject.components[j].component, c)
    {
      ComponentsPutAre(oldComps, newProject.components, c);
    }
    ghost var ls := AllListed(newProject.components);
    forall e
      ensures e in SourcePuts(oldComps, oldSources, ls) <==> exists j ::
        0 <= j < |ls| && IsSourceChange(oldComps, oldSources, ls[j].owner, ls[j].source, e)
    {
      SourcesPutAre(oldComps, oldSources, ls, e);
    }
    var newComps, newSources := IndexProject(newProject);
    var compPut, esPut := DiffPuts(oldComps, oldSources, newProject.components);
    var compRemove := Missing(oldComps.Keys, newComps.Keys);
    var esRemove := Missing(oldSources.Keys, newSources.Keys);
    diff := ProjectDiff(compPut, compRemove, esPut, esRemove);
  }
}

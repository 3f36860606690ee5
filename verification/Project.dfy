/** Projects as they are stored and as they are submitted, and the difference of the two. */
module Projects {
  import opened ClusterTypes
  import opened VersionedTable

  /** config stands for all settings that are compared but not interpreted here. */
  datatype Component = Component(name: Name, projectName: Name, config: string, version: int, modifiedAt: int)

  datatype EventSource = EventSource(name: Name, componentName: Name, config: string, version: int, modifiedAt: int)

  datatype EventSourceWithStatus = EventSourceWithStatus(eventSource: EventSource, enabled: bool)

  datatype ComponentWithEventSources =
    ComponentWithEventSources(component: Component, eventSources: seq<EventSourceWithStatus>)

  datatype Project = Project(name: Name, components: seq<ComponentWithEventSources>)

  datatype ProjectDiff = ProjectDiff(componentPut: seq<Component>, componentRemove: seq<Name>,
                                     eventSourcePut: seq<EventSource>, eventSourceRemove: seq<Name>)

  /** An event source with the component it is listed under. */
  datatype Listed = Listed(owner: Name, source: EventSourceWithStatus)

  function ListedUnder(owner: Name, sources: seq<EventSourceWithStatus>): seq<Listed> {
    seq(|sources|, i requires 0 <= i < |sources| => Listed(owner, sources[i]))
  }

  function AllListed(cs: seq<ComponentWithEventSources>): seq<Listed> {
    if cs == [] then []
    else AllListed(cs[..|cs| - 1]) + ListedUnder(cs[|cs| - 1].component.name, cs[|cs| - 1].eventSources)
  }

  function ComponentMap(cs: seq<ComponentWithEventSources>): map<Name, Component> {
    if cs == [] then map[]
    else ComponentMap(cs[..|cs| - 1])[cs[|cs| - 1].component.name := cs[|cs| - 1].component]
  }

  function SourceMap(ls: seq<Listed>): map<Name, EventSourceWithStatus> {
    if ls == [] then map[]
    else SourceMap(ls[..|ls| - 1])[ls[|ls| - 1].source.eventSource.name := ls[|ls| - 1].source]
  }

  /** The component to put, carrying over the version it replaces; nothing when it is unchanged. */
  function ComponentPut(oldComps: map<Name, Component>, cw: ComponentWithEventSources): Option<Component> {
    var c := cw.component;
    if c.name in oldComps then
      var carried := c.(version := oldComps[c.name].version, modifiedAt := oldComps[c.name].modifiedAt);
      if carried == oldComps[c.name] then None else Some(carried)
    else Some(c)
  }

  function SourcePut(oldComps: map<Name, Component>, oldSources: map<Name, EventSourceWithStatus>,
                     l: Listed): Option<EventSource> {
    var e := l.source.eventSource;
    if l.owner !in oldComps then Some(e)
    else if e.name !in oldSources then Some(e.(version := 0, modifiedAt := 0))
    else
      var was := oldSources[e.name];
      var carried := e.(version := was.eventSource.version, modifiedAt := was.eventSource.modifiedAt);
      if l.source.(eventSource := carried) == was then None else Some(carried)
  }

  function ComponentPuts(oldComps: map<Name, Component>, cs: seq<ComponentWithEventSources>): seq<Component> {
    Picked(cs, cw => ComponentPut(oldComps, cw))
  }

  function SourcePuts(oldComps: map<Name, Component>, oldSources: map<Name, EventSourceWithStatus>,
                      ls: seq<Listed>): seq<EventSource> {
    Picked(ls, l => SourcePut(oldComps, oldSources, l))
  }

  // ---------- stored state ----------

  /** The two tables: components keep their project column, event sources their enabled column. */
  datatype State = State(comps: Table<Name, Component>, sources: Table<bool, EventSource>)

  /** Rows hold what their keys and version columns say, and every event source has its component. */
  ghost predicate WellKept(s: State) {
    && (forall n | n in s.comps :: s.comps[n].version == s.comps[n].body.version >= 1 && s.comps[n].body.name == n)
    && (forall n | n in s.sources ::
        s.sources[n].version == s.sources[n].body.version >= 1 && s.sources[n].body.name == n)
    && Linked(s)
  }

  ghost predicate Linked(s: State) {
    forall n | n in s.sources :: s.sources[n].body.componentName in s.comps
  }

  /** What is stored of a project. */
  ghost function StoredComponents(s: State, project: Name): map<Name, Component> {
    map n | n in s.comps && s.comps[n].kept == project :: s.comps[n].body
  }

  ghost function StoredSources(s: State, project: Name): map<Name, EventSourceWithStatus> {
    map n | n in s.sources && s.sources[n].body.componentName in StoredComponents(s, project)
      :: EventSourceWithStatus(s.sources[n].body, s.sources[n].kept)
  }

  function ComponentWrite(c: Component, now: int): Put<Name, Component> {
    Put(c.name, c.version, c.projectName, c.(version := c.version + 1, modifiedAt := now))
  }

  function SourceWrite(e: EventSource, now: int): Put<bool, EventSource> {
    Put(e.name, e.version, true, e.(version := e.version + 1, modifiedAt := now))
  }

  function ComponentWrites(cs: seq<Component>, now: int): seq<Put<Name, Component>> {
    seq(|cs|, i requires 0 <= i < |cs| => ComponentWrite(cs[i], now))
  }

  function SourceWrites(es: seq<EventSource>, now: int): seq<Put<bool, EventSource>> {
    seq(|es|, i requires 0 <= i < |es| => SourceWrite(es[i], now))
  }

  function WithoutComponents(s: State, names: set<Name>): State {
    State(s.comps - names,
          map n | n in s.sources && s.sources[n].body.componentName !in names :: s.sources[n])
  }

  function WithoutSources(s: State, names: set<Name>): State { s.(sources := s.sources - names) }

  // ---------- a submitted project ----------

  ghost function NewNames(p: Project): set<Name> { set cw | cw in p.components :: cw.component.name }

  ghost function NewSourceNames(p: Project): set<Name> {
    set l | l in AllListed(p.components) :: l.source.eventSource.name
  }

  /** What a client submits: no name twice, no versions, and owners and project filled in. */
  ghost predicate Submitted(p: Project) {
    && (forall i, j | 0 <= i < j < |p.components| :: p.components[i].component.name != p.components[j].component.name)
    && DistinctSources(AllListed(p.components))
    && (forall cw | cw in p.components :: cw.component.version == 0 && cw.component.projectName == p.name)
    && (forall l | l in AllListed(p.components) ::
          l.source.eventSource.version == 0 && l.source.eventSource.componentName == l.owner)
  }

  ghost predicate DistinctSources(ls: seq<Listed>) {
    forall i, j | 0 <= i < j < |ls| :: ls[i].source.eventSource.name != ls[j].source.eventSource.name
  }

  type Sources = map<Name, EventSourceWithStatus>

  /** read are some of the project's stored event sources: those that were listed. */
  ghost predicate SomeSources(s: State, project: Name, read: Sources) {
    forall n | n in read :: n in StoredSources(s, project) && read[n] == StoredSources(s, project)[n]
  }

  /** All event sources of the stored components that stay were listed. */
  ghost predicate AllRead(s: State, p: Project, read: Sources) {
    forall n | n in StoredSources(s, p.name) && s.sources[n].body.componentName in NewNames(p) :: n in read
  }

  ghost function RemainingComponents(s: State, p: Project): Table<Name, Component> {
    s.comps - (StoredComponents(s, p.name).Keys - NewNames(p))
  }

  /** The store after the removals of the diff. */
  ghost function AfterRemovals(s: State, p: Project, read: Sources): State {
    WithoutSources(WithoutComponents(s, StoredComponents(s, p.name).Keys - NewNames(p)), read.Keys - NewSourceNames(p))
  }

  /** A component name is free or belongs to the project already. */
  ghost predicate ComponentFits(s: State, p: Project, cw: ComponentWithEventSources) {
    cw.component.name in s.comps ==> s.comps[cw.component.name].kept == p.name
  }

  /** An event source name is free, or it belongs to the project, and its former component is
      kept exactly if its new one is not new and the event source was listed. */
  ghost predicate SourceFits(s: State, p: Project, read: Sources, l: Listed) {
    var n := l.source.eventSource.name;
    n in s.sources ==>
      var was := s.sources[n].body.componentName;
      var stored := StoredComponents(s, p.name).Keys;
      was in stored && (was in NewNames(p) <==> l.owner in stored && n in read)
  }

  ghost predicate Fits(s: State, p: Project, read: Sources) {
    && (forall cw | cw in p.components :: ComponentFits(s, p, cw))
    && (forall l | l in AllListed(p.components) :: SourceFits(s, p, read, l))
  }

  ghost predicate SameComponent(a: Component, b: Component) {
    a == b.(version := a.version, modifiedAt := a.modifiedAt)
  }

  ghost predicate SameSource(a: EventSource, b: EventSource) {
    a == b.(version := a.version, modifiedAt := a.modifiedAt)
  }

  /** Reading the project back gives what was submitted. */
  ghost predicate ReadsBack(s: State, p: Project) {
    && StoredComponents(s, p.name).Keys == NewNames(p)
    && (forall cw | cw in p.components :: SameComponent(StoredComponents(s, p.name)[cw.component.name], cw.component))
    && StoredSources(s, p.name).Keys == NewSourceNames(p)
    && (forall l | l in AllListed(p.components) ::
          SameSource(StoredSources(s, p.name)[l.source.eventSource.name].eventSource, l.source.eventSource))
  }

  /** Everything that is not part of the project stays as it is. */
  ghost predicate OthersUntouched(s: State, t: State, project: Name) {
    && (forall n | n in s.comps && s.comps[n].kept != project :: n in t.comps && t.comps[n] == s.comps[n])
    && (forall n | n in s.sources && s.sources[n].body.componentName !in StoredComponents(s, project) ::
          n in t.sources && t.sources[n] == s.sources[n])
  }
}

/** Routing rules: which HTTP event source answers a request. */
module HttpRules {
  import opened ClusterTypes
  import opened Sorting

  datatype Http = Http(hostname: string, pathPrefix: string, stripPrefix: bool)

  datatype EventSource = EventSource(name: Name, componentName: Name, http: Option<Http>, enabled: bool)

  /** The rows a listing of the event sources of type "http" returns. */
  type HttpEventSource = e: EventSource | e.http.Some? witness EventSource("", "", Some(Http("", "", false)), true)

  /** The comparison rules are sorted with: most specific first. */
  predicate Less(a: EventSource, b: EventSource) {
    if a.http.Some? && b.http.Some? then
      var x, y := a.http.value, b.http.value;
      if x.hostname == "" && y.hostname != "" then false
      else if y.hostname == "" && x.hostname != "" then true
      else if |x.pathPrefix| == |y.pathPrefix| then StringLess(y.hostname, x.hostname)
      else |x.pathPrefix| > |y.pathPrefix|
    else StringLess(a.name, b.name)
  }

  predicate RuleLess(a: HttpEventSource, b: HttpEventSource) { Less(a, b) }

  lemma RuleOrder()
    ensures StrictWeakOrder(RuleLess)
  {
    forall a, b | RuleLess(a, b) ensures !RuleLess(b, a) {
      StringLessAsymmetric(a.http.value.hostname, b.http.value.hostname);
    }
    forall a, b, c | !RuleLess(a, b) && !RuleLess(b, c) ensures !RuleLess(a, c) {
      var x, y, z := a.http.value.hostname, b.http.value.hostname, c.http.value.hostname;
      if !StringLess(z, y) && !StringLess(y, x) {
        StringNotLessTransitive(z, y, x);
      }
    }
  }

  /** Among rows without an HTTP part the comparison would run in circles. */
  lemma LessNeedsHttp()
    ensures exists a, b, c :: Less(a, b) && Less(b, c) && Less(c, a)
  {
    var a := EventSource("z", "", Some(Http("", "/long", false)), true);
    var b := EventSource("a", "", Some(Http("", "/", false)), true);
    var c := EventSource("m", "", None, true);
    assert Less(a, b) && Less(b, c) && Less(c, a);
  }

  predicate Matches(es: EventSource, hostname: string, path: string) {
    if es.http == None || (es.http.value.hostname == "" && es.http.value.pathPrefix == "") then false
    else if es.http.value.hostname == "" && es.http.value.pathPrefix <= path then true
    else
      hostname == es.http.value.hostname && (es.http.value.pathPrefix == "" || es.http.value.pathPrefix <= path)
  }

  /** What a rule asks for: it names a host or a prefix, and what it names fits. */
  predicate Fits(h: Http, hostname: string, path: string) {
    && (h.hostname != "" || h.pathPrefix != "")
    && (h.hostname != "" ==> h.hostname == hostname)
    && h.pathPrefix <= path
  }

  lemma MatchesMeansFits(es: HttpEventSource, hostname: string, path: string)
    ensures Matches(es, hostname, path) <==> Fits(es.http.value, hostname, path)
    ensures var h := es.http.value;
            Fits(h, hostname, path) <==>
              ((h.hostname != "" || h.pathPrefix != "") && (h.hostname == "" || h.hostname == hostname)
               && |h.pathPrefix| <= |path| && h.pathPrefix == path[..|h.pathPrefix|])
  {
  }

  /** Host rules before rules for any host, then longer prefixes before shorter ones. */
  predicate MoreSpecific(a: Http, b: Http) {
    if (a.hostname == "") != (b.hostname == "") then a.hostname != ""
    else |a.pathPrefix| > |b.pathPrefix|
  }

  /** h answers the request: it fits, and no rule that fits is more specific. */
  ghost predicate Best(h: Http, rules: seq<HttpEventSource>, hostname: string, path: string) {
    && Fits(h, hostname, path)
    && forall es | es in rules && Fits(es.http.value, hostname, path) :: !MoreSpecific(es.http.value, h)
  }

  /** The best rule names a host if any rule that fits does, and has the longest prefix of those
      that name a host, respectively of all. */
  lemma BestIsLongest(h: Http, rules: seq<HttpEventSource>, hostname: string, path: string, es: HttpEventSource)
    requires Best(h, rules, hostname, path) && es in rules && Fits(es.http.value, hostname, path)
    ensures es.http.value.hostname != "" ==> h.hostname != ""
    ensures (es.http.value.hostname == "") == (h.hostname == "") ==> |es.http.value.pathPrefix| <= |h.pathPrefix|
  {
  }

  /** In sorted order the first rule that fits is a most specific one. */
  lemma FirstIsBest(rules: seq<HttpEventSource>, hostname: string, path: string, i: nat)
    requires SortedBy(rules, RuleLess) && i < |rules| && Fits(rules[i].http.value, hostname, path)
    requires forall j | 0 <= j < i :: !Fits(rules[j].http.value, hostname, path)
    ensures Best(rules[i].http.value, rules, hostname, path)
  {
    forall es | es in rules && Fits(es.http.value, hostname, path)
      ensures !MoreSpecific(es.http.value, rules[i].http.value)
    {
      var j :| 0 <= j < |rules| && rules[j] == es;
      if j > i {
        assert !RuleLess(rules[j], rules[i]);
      }
    }
  }

  /** All best rules name the same host and prefix, whatever order the rules came in. */
  lemma BestIsUnique(a: HttpEventSource, rules: seq<HttpEventSource>, b: HttpEventSource, rules': seq<HttpEventSource>,
                     hostname: string, path: string)
    requires multiset(rules) == multiset(rules') && a in rules && b in rules'
    requires Best(a.http.value, rules, hostname, path) && Best(b.http.value, rules', hostname, path)
    ensures a.http.value.hostname == b.http.value.hostname && a.http.value.pathPrefix == b.http.value.pathPrefix
  {
    SameElements(rules, rules');
    assert b in rules && a in rules';
    var x, y := a.http.value.pathPrefix, b.http.value.pathPrefix;
    assert x == path[..|x|] && y == path[..|y|];
  }

  /** The component of the first rule that matches. */
  function Answer(rules: seq<HttpEventSource>, hostname: string, path: string): Option<Name> {
    if rules == [] then None
    else if Matches(rules[0], hostname, path) then Some(rules[0].componentName)
    else Answer(rules[1..], hostname, path)
  }

  lemma {:induction false} AnswerIsFirst(rules: seq<HttpEventSource>, hostname: string, path: string, i: nat)
    requires i <= |rules| && forall j | 0 <= j < i :: !Matches(rules[j], hostname, path)
    requires i < |rules| ==> Matches(rules[i], hostname, path)
    ensures Answer(rules, hostname, path) == if i < |rules| then Some(rules[i].componentName) else None
  {
    if i > 0 {
      assert forall j | 0 <= j < i - 1 :: rules[1..][j] == rules[j + 1];
      AnswerIsFirst(rules[1..], hostname, path, i - 1);
    }
  }

  lemma {:induction false} FirstMatch(rules: seq<HttpEventSource>, hostname: string, path: string) returns (i: nat)
    ensures i <= |rules| && forall j | 0 <= j < i :: !Matches(rules[j], hostname, path)
    ensures i < |rules| ==> Matches(rules[i], hostname, path)
  {
    if rules == [] || Matches(rules[0], hostname, path) {
      i := 0;
    } else {
      var k := FirstMatch(rules[1..], hostname, path);
      assert forall j | 0 <= j < k :: rules[1..][j] == rules[j + 1];
      i := k + 1;
    }
  }

  /** s is one of the ways to sort the rules. */
  ghost predicate SortOf(s: seq<HttpEventSource>, rules: seq<HttpEventSource>) {
    multiset(s) == multiset(rules) && SortedBy(s, RuleLess)
  }

  ghost predicate IsBest(es: HttpEventSource, rules: seq<HttpEventSource>, hostname: string, path: string) {
    es in rules && Best(es.http.value, rules, hostname, path)
  }

  /** However the rules are sorted, the same component answers the request. */
  ghost predicate Determined(rules: seq<HttpEventSource>, hostname: string, path: string) {
    forall s, s' | SortOf(s, rules) && SortOf(s', rules) :: Answer(s, hostname, path) == Answer(s', hostname, path)
  }

  lemma BestPermuted(es: HttpEventSource, s: seq<HttpEventSource>, rules: seq<HttpEventSource>, hostname: string,
                     path: string)
    requires multiset(s) == multiset(rules)
    ensures IsBest(es, s, hostname, path) <==> IsBest(es, rules, hostname, path)
  {
    SameElements(s, rules);
  }

  /** Whatever the sort, a best rule answers if any rule fits, and no rule otherwise. */
  lemma AnswerIsBest(s: seq<HttpEventSource>, rules: seq<HttpEventSource>, hostname: string, path: string)
    requires SortOf(s, rules)
    ensures match Answer(s, hostname, path)
            case Some(c) => exists es :: IsBest(es, rules, hostname, path) && es.componentName == c
            case None => forall es | es in rules :: !Fits(es.http.value, hostname, path)
  {
    SameElements(s, rules);
    var i := FirstMatch(s, hostname, path);
    AnswerIsFirst(s, hostname, path, i);
    if i < |s| {
      FirstIsBest(s, hostname, path, i);
      assert IsBest(s[i], s, hostname, path);
      BestPermuted(s[i], s, rules, hostname, path);
    }
  }

  lemma SwapEqual(s: seq<HttpEventSource>, i: nat, j: nat)
    requires i <= j < |s| && SortedBy(s, RuleLess)
    requires s[i].http.value.hostname == s[j].http.value.hostname
        && s[i].http.value.pathPrefix == s[j].http.value.pathPrefix
    ensures SortOf(s[i := s[j]][j := s[i]], s)
  {
    var t := s[i := s[j]][j := s[i]];
    forall k, l | 0 <= k < l < |t| ensures !RuleLess(t[l], t[k]) {
      SameRank(t[l], s[l], t[k], s[k]);
    }
  }

  /** The comparison looks at host and prefix only. */
  lemma SameRank(a: HttpEventSource, a': HttpEventSource, b: HttpEventSource, b': HttpEventSource)
    requires a.http.value.hostname == a'.http.value.hostname && a.http.value.pathPrefix == a'.http.value.pathPrefix
    requires b.http.value.hostname == b'.http.value.hostname && b.http.value.pathPrefix == b'.http.value.pathPrefix
    ensures RuleLess(a, b) == RuleLess(a', b')
  {
  }

  /** Every best rule answers under some sort. */
  lemma BestCanAnswer(a: HttpEventSource, rules: seq<HttpEventSource>, hostname: string, path: string)
    returns (t: seq<HttpEventSource>)
    requires IsBest(a, rules, hostname, path)
    ensures SortOf(t, rules) && Answer(t, hostname, path) == Some(a.componentName)
  {
    RuleOrder();
    var s := SortedExists(rules, RuleLess);
    SameElements(s, rules);
    var i := FirstMatch(s, hostname, path);
    var j :| 0 <= j < |s| && s[j] == a;
    assert Matches(s[j], hostname, path);
    assert i <= j;
    FirstIsBest(s, hostname, path, i);
    assert IsBest(s[i], s, hostname, path);
    BestIsUnique(s[i], s, a, rules, hostname, path);
    SwapEqual(s, i, j);
    t := s[i := s[j]][j := s[i]];
    AnswerIsFirst(t, hostname, path, i);
  }

  /** The same component answers under every sort exactly if all best rules name the same one. */
  lemma DeterminedIff(rules: seq<HttpEventSource>, hostname: string, path: string)
    ensures Determined(rules, hostname, path)
       <==> forall a, b | IsBest(a, rules, hostname, path) && IsBest(b, rules, hostname, path) ::
           a.componentName == b.componentName
  {
    if Determined(rules, hostname, path) {
      forall a, b | IsBest(a, rules, hostname, path) && IsBest(b, rules, hostname, path)
        ensures a.componentName == b.componentName
      {
        var s := BestCanAnswer(a, rules, hostname, path);
        var s' := BestCanAnswer(b, rules, hostname, path);
      }
    }
    if forall a, b | IsBest(a, rules, hostname, path) && IsBest(b, rules, hostname, path) ::
        a.componentName == b.componentName {
      forall s, s' | SortOf(s, rules) && SortOf(s', rules)
        ensures Answer(s, hostname, path) == Answer(s', hostname, path)
      {
        AnswerIsBest(s, rules, hostname, path);
        AnswerIsBest(s', rules, hostname, path);
      }
    }
  }

  /** A rule that can answer some request: a host in a request has no colon. */
  predicate CanAnswer(h: Http) { (h.hostname != "" || h.pathPrefix != "") && ':' !in h.hostname }

  /** Two rules for one host and prefix that name different components. */
  ghost predicate Duplicates(a: HttpEventSource, b: HttpEventSource) {
    && a.http.value.hostname == b.http.value.hostname && a.http.value.pathPrefix == b.http.value.pathPrefix
    && a.componentName != b.componentName
  }

  /** Every rule that can answer is best for the request that asks for just its host and prefix. */
  lemma BestForItself(a: HttpEventSource, rules: seq<HttpEventSource>)
    requires a in rules && CanAnswer(a.http.value)
    ensures IsBest(a, rules, a.http.value.hostname, a.http.value.pathPrefix)
  {
  }

  /** The answer to every request is independent of the sort exactly if no two rules that can
      answer name the same host and prefix but different components. */
  lemma DuplicateRulesAmbiguous(rules: seq<HttpEventSource>)
    ensures (forall hostname, path | ':' !in hostname :: Determined(rules, hostname, path))
       <==> forall a, b | a in rules && b in rules && CanAnswer(a.http.value) :: !Duplicates(a, b)
  {
    if forall hostname, path | ':' !in hostname :: Determined(rules, hostname, path) {
      forall a, b | a in rules && b in rules && CanAnswer(a.http.value) ensures !Duplicates(a, b) {
        if a.http.value.hostname == b.http.value.hostname && a.http.value.pathPrefix == b.http.value.pathPrefix {
          var hostname, path := a.http.value.hostname, a.http.value.pathPrefix;
          BestForItself(a, rules);
          BestForItself(b, rules);
          DeterminedIff(rules, hostname, path);
        }
      }
    }
    if forall a, b | a in rules && b in rules && CanAnswer(a.http.value) :: !Duplicates(a, b) {
      forall hostname, path | ':' !in hostname ensures Determined(rules, hostname, path) {
        forall a, b | IsBest(a, rules, hostname, path) && IsBest(b, rules, hostname, path)
          ensures a.componentName == b.componentName
        {
          BestIsUnique(a, rules, b, rules, hostname, path);
          assert CanAnswer(a.http.value);
        }
        DeterminedIff(rules, hostname, path);
      }
    }
  }
}

/** The resolver with its caches. */
module Resolver {
  import opened ClusterTypes
  import opened Sorting
  import opened HttpRules

  datatype Lookup<T> = Found(value: T) | NotFound | Failed

  datatype Component = Component(name: Name, version: int)

  /** What the database answers during one call; None is a failed query. */
  datatype Database = Database(sources: Option<seq<HttpEventSource>>, component: Name -> Lookup<Component>)

  datatype Request = Request(componentHeader: string, host: string, path: string)

  function EnabledOnly(rows: seq<HttpEventSource>): seq<HttpEventSource> {
    if rows == [] then []
    else EnabledOnly(rows[..|rows| - 1]) + if rows[|rows| - 1].enabled then [rows[|rows| - 1]] else []
  }

  /** The rules in force are the enabled ones. */
  lemma {:induction false} EnabledMembers(rows: seq<HttpEventSource>, es: HttpEventSource)
    ensures es in EnabledOnly(rows) <==> es in rows && es.enabled
  {
    if rows != [] {
      EnabledMembers(rows[..|rows| - 1], es);
      assert rows == rows[..|rows| - 1] + [rows[|rows| - 1]];
    }
  }

  lemma {:induction false} EnabledOften(rows: seq<HttpEventSource>, es: HttpEventSource)
    ensures multiset(EnabledOnly(rows))[es] == if es.enabled then multiset(rows)[es] else 0
  {
    if rows != [] {
      EnabledOften(rows[..|rows| - 1], es);
      assert rows == rows[..|rows| - 1] + [rows[|rows| - 1]];
    }
  }

  /** The host of a request without its port. */
  function HostOf(host: string): (hostname: string)
    ensures hostname <= host && ':' !in hostname
    ensures hostname == host || host[|hostname|] == ':'
  {
    if host == "" || host[0] == ':' then "" else [host[0]] + HostOf(host[1..])
  }

  /** A prefix up to the first colon or the end is the host. */
  lemma HostIsPrefix(host: string, pos: nat)
    requires pos <= |host| && (forall i | 0 <= i < pos :: host[i] != ':')
    requires pos == |host| || host[pos] == ':'
    ensures HostOf(host) == host[..pos]
  {
    var hostname := HostOf(host);
    assert hostname == host[..|hostname|];
    assert |hostname| <= pos;
  }

  method HostnameOf(host: string) returns (hostname: string)
    ensures hostname == HostOf(host)
  {
    var pos := 0;
    while pos < |host| && host[pos] != ':'
      invariant 0 <= pos <= |host| && forall i | 0 <= i < pos :: host[i] != ':'
    {
      pos := pos + 1;
    }
    HostIsPrefix(host, pos);
    hostname := host[..pos];
  }

  /** The rule, if any, answers for the host and path; path' is what the component sees. */
  ghost predicate Answers(rule: Option<HttpEventSource>, path': string, rows: seq<HttpEventSource>, hostname: string,
                          path: string) {
    match rule
    case Some(es) =>
      && es in rows && es.enabled && Best(es.http.value, EnabledOnly(rows), hostname, path)
      && IsAnswer(es, rows, hostname, path)
      && path == (if es.http.value.stripPrefix then es.http.value.pathPrefix else "") + path'
    case None =>
      path' == path && forall es | es in rows && es.enabled :: !AsksFor(es, hostname, path)
  }

  /** The enabled rule es asks for the host, if for any, and for a prefix of the path; an enabled rule
      for the host and path goes before one for any host, and then a longer prefix goes before a
      shorter one. */
  ghost predicate IsAnswer(es: HttpEventSource, rows: seq<HttpEventSource>, hostname: string, path: string) {
    && AsksFor(es, hostname, path)
    && forall o | o in rows && o.enabled && AsksFor(o, hostname, path) ::
      && (o.http.value.hostname != "" ==> es.http.value.hostname != "")
      && (o.http.value.hostname == es.http.value.hostname ==>
            |o.http.value.pathPrefix| <= |es.http.value.pathPrefix|)
  }

  ghost predicate AsksFor(es: HttpEventSource, hostname: string, path: string) {
    var h := es.http.value;
    && (h.hostname == hostname || h.hostname == "") && (h.hostname != "" || h.pathPrefix != "")
    && |h.pathPrefix| <= |path| && path[..|h.pathPrefix|] == h.pathPrefix
  }

  lemma BestIsAnswer(es: HttpEventSource, rows: seq<HttpEventSource>, hostname: string, path: string)
    requires Best(es.http.value, EnabledOnly(rows), hostname, path)
    ensures IsAnswer(es, rows, hostname, path)
  {
    MatchesMeansFits(es, hostname, path);
    forall o | o in rows && o.enabled && AsksFor(o, hostname, path)
      ensures o.http.value.hostname != "" ==> es.http.value.hostname != ""
      ensures o.http.value.hostname == es.http.value.hostname ==>
                |o.http.value.pathPrefix| <= |es.http.value.pathPrefix|
    {
      EnabledMembers(rows, o);
      MatchesMeansFits(o, hostname, path);
      BestIsLongest(es.http.value, EnabledOnly(rows), hostname, path, o);
    }
  }

  lemma FirstMatchAnswers(rules: seq<HttpEventSource>, rows: seq<HttpEventSource>, hostname: string, path: string,
                          i: nat)
    requires SortedBy(rules, RuleLess) && multiset(rules) == multiset(EnabledOnly(rows)) && i <= |rules|
    requires forall j | 0 <= j < i :: !Matches(rules[j], hostname, path)
    requires i < |rules| ==> Matches(rules[i], hostname, path)
    ensures i == |rules| ==> Answers(None, path, rows, hostname, path)
    ensures i < |rules| ==> rules[i].http.value.pathPrefix <= path
    ensures i < |rules| ==> var h := rules[i].http.value;
              Answers(Some(rules[i]), if h.stripPrefix then path[|h.pathPrefix|..] else path, rows, hostname, path)
  {
    SameElements(rules, EnabledOnly(rows));
    if i < |rules| {
      FirstIsBest(rules, hostname, path, i);
      BestAnswers(rules, rows, hostname, path, rules[i]);
    } else {
      NoneAnswers(rules, rows, hostname, path);
    }
  }

  lemma BestAnswers(rules: seq<HttpEventSource>, rows: seq<HttpEventSource>, hostname: string, path: string,
                    es: HttpEventSource)
    requires (forall x :: x in rules <==> x in EnabledOnly(rows)) && es in rules
    requires Best(es.http.value, rules, hostname, path)
    ensures var h := es.http.value;
            && h.pathPrefix <= path
            && Answers(Some(es), if h.stripPrefix then path[|h.pathPrefix|..] else path, rows, hostname, path)
  {
    EnabledMembers(rows, es);
    BestOfSame(es.http.value, rules, EnabledOnly(rows), hostname, path);
    BestIsAnswer(es, rows, hostname, path);
  }

  lemma BestOfSame(h: Http, rules: seq<HttpEventSource>, same: seq<HttpEventSource>, hostname: string, path: string)
    requires (forall x :: x in rules <==> x in same) && Best(h, rules, hostname, path)
    ensures Best(h, same, hostname, path)
  {
  }

  lemma NoneAnswers(rules: seq<HttpEventSource>, rows: seq<HttpEventSource>, hostname: string, path: string)
    requires forall x :: x in rules <==> x in EnabledOnly(rows)
    requires forall j | 0 <= j < |rules| :: !Matches(rules[j], hostname, path)
    ensures Answers(None, path, rows, hostname, path)
  {
    forall es | es in rows && es.enabled ensures !AsksFor(es, hostname, path) {
      EnabledMembers(rows, es);
      MatchesMeansFits(es, hostname, path);
      assert es in rules;
    }
  }

  /** A component as the cache has it until it expires, else as the database has it. */
  function Known(name: Name, cache: map<Name, Component>, expires: int, db: Database, now: int): Lookup<Component> {
    if now <= expires && name in cache then Found(cache[name]) else db.component(name)
  }

  class DbComponentResolver {
    const cacheDuration: int
    var eventSources: Option<seq<HttpEventSource>>
    var eventSourcesExpires: int
    var componentsByName: map<Name, Component>
    var componentsExpires: int
    /** The rows the cached rules were loaded from. */
    ghost var loaded: seq<HttpEventSource>

    ghost predicate Valid()
      reads this
    {
      eventSources.Some? ==>
        SortedBy(eventSources.value, RuleLess) && multiset(eventSources.value) == multiset(EnabledOnly(loaded))
    }

    constructor (cacheDuration: int)
      ensures Valid() && this.cacheDuration == cacheDuration && eventSources == None && componentsByName == map[]
    {
      this.cacheDuration := cacheDuration;
      eventSources, componentsByName := None, map[];
      eventSourcesExpires, componentsExpires := 0, 0;
      loaded := [];
    }

    /** A changed component is read again, and so are all rules. */
    method OnComponentNotification(put: Option<Name>, remove: Option<Name>)
      modifies this`componentsByName, this`eventSources
      ensures Valid() && eventSources == None
      ensures put.Some? ==> put.value !in componentsByName
      ensures remove.Some? ==> remove.value !in componentsByName
      ensures forall n | Some(n) != put && Some(n) != remove ::
          (n in componentsByName <==> n in old(componentsByName))
          && (n in componentsByName ==> componentsByName[n] == old(componentsByName)[n])
    {
      if put.Some? {
        componentsByName := componentsByName - {put.value};
      }
      if remove.Some? {
        componentsByName := componentsByName - {remove.value};
      }
      eventSources := None;
    }

    /** A cached component until the cache expires, else what the database says. */
    method ByName(name: Name, db: Database, now: int) returns (r: Lookup<Component>)
      modifies this`componentsByName, this`componentsExpires
      ensures r == Known(name, old(componentsByName), old(componentsExpires), db, now)
      ensures r == if now <= old(componentsExpires) && name in old(componentsByName)
                   then Found(old(componentsByName)[name]) else db.component(name)
      ensures r.Found? ==> name in componentsByName && componentsByName[name] == r.value
      ensures componentsExpires == if now > old(componentsExpires) then now + cacheDuration else old(componentsExpires)
      ensures var kept := if now > old(componentsExpires) then map[] else old(componentsByName);
              componentsByName == if r.Found? then kept[name := r.value] else kept
    {
      var cached := None;
      if now > componentsExpires {
        componentsByName := map[];
        componentsExpires := now + cacheDuration;
      } else if name in componentsByName {
        cached := Some(componentsByName[name]);
      }
      match cached
      case Some(comp) => r := Found(comp);
      case None =>
        r := db.component(name);
        if r.Found? {
          componentsByName := componentsByName[name := r.value];
        }
    }

    /** The enabled rules, sorted; read again when the cache is empty or has expired. */
    method AllEnabledHttpEventSources(db: Database, now: int) returns (r: Option<seq<HttpEventSource>>)
      requires Valid()
      modifies this`eventSources, this`eventSourcesExpires, this`loaded
      ensures Valid()
      ensures r.Some? ==> SortedBy(r.value, RuleLess) && multiset(r.value) == multiset(EnabledOnly(loaded))
      ensures now <= old(eventSourcesExpires) && old(eventSources).Some? ==> r.Some? && loaded == old(loaded)
      ensures now > old(eventSourcesExpires) || old(eventSources) == None ==>
          (r.Some? <==> db.sources.Some?) && (r.Some? ==> loaded == db.sources.value)
      ensures eventSources == r
      ensures eventSourcesExpires ==
          if now > old(eventSourcesExpires) then now + cacheDuration else old(eventSourcesExpires)
      ensures now <= old(eventSourcesExpires) && old(eventSources).Some? ==> r == old(eventSources)
    {
      if now > eventSourcesExpires {
        eventSources := None;
        eventSourcesExpires := now + cacheDuration;
      }
      if eventSources == None {
        if db.sources == None {
          return None;
        }
        var enabled := KeepEnabled(db.sources.value);
        RuleOrder();
        var sorted := Sort(enabled, RuleLess);
        eventSources := Some(sorted);
        loaded := db.sources.value;
      }
      r := eventSources;
    }

    method KeepEnabled(rows: seq<HttpEventSource>) returns (r: seq<HttpEventSource>)
      ensures r == EnabledOnly(rows)
    {
      r := [];
      for i := 0 to |rows|
        invariant r == EnabledOnly(rows[..i])
      {
        assert rows[..i + 1][..i] == rows[..i];
        if rows[i].enabled {
          r := r + [rows[i]];
        }
      }
      assert rows[..|rows|] == rows;
    }

    /** The component of a most specific enabled rule that fits the request, and the path it
        sees: without the rule's prefix if the rule strips it. */
    method ByHTTPRequest(req: Request, public: bool, db: Database, now: int)
      returns (r: Lookup<Component>, path: string, rule: Option<HttpEventSource>)
      requires Valid()
      modifies this
      ensures Valid()
      ensures !public && req.componentHeader != "" ==> rule == None && path == req.path
      ensures !public && req.componentHeader != "" ==>
          r == Known(req.componentHeader, old(componentsByName), old(componentsExpires), db, now)
      ensures rule.Some? && r.Found? ==>
          rule.value.componentName in componentsByName && componentsByName[rule.value.componentName] == r.value
      ensures rule.Some? ==>
          r == Known(rule.value.componentName, old(componentsByName), old(componentsExpires), db, now)
      ensures public || req.componentHeader == "" ==>
          if rule.Some? || r == NotFound then Answers(rule, path, loaded, HostOf(req.host), req.path)
          else r == Failed && path == req.path
    {
      path, rule := req.path, None;
      if !public {
        if req.componentHeader != "" {
          r := ByName(req.componentHeader, db, now);
          return;
        }
      }
      var sources := AllEnabledHttpEventSources(db, now);
      if sources == None {
        r := Failed;
        return;
      }
      var hostname := HostnameOf(req.host);
      var i := FirstMatch(sources.value, hostname, req.path);
      FirstMatchAnswers(sources.value, loaded, hostname, req.path, i);
      if i == |sources.value| {
        r := NotFound;
      } else {
        var es := sources.value[i];
        rule := Some(es);
        if es.http.value.stripPrefix && es.http.value.pathPrefix != "" {
          path := path[|es.http.value.pathPrefix|..];
        }
        r := ByName(es.componentName, db, now);
      }
    }

    method FirstMatch(rules: seq<HttpEventSource>, hostname: string, path: string) returns (i: nat)
      ensures i <= |rules| && forall j | 0 <= j < i :: !Matches(rules[j], hostname, path)
      ensures i < |rules| ==> Matches(rules[i], hostname, path)
    {
      i := 0;
      while i < |rules|
        invariant 0 <= i <= |rules| && forall j | 0 <= j < i :: !Matches(rules[j], hostname, path)
      {
        if Matches(rules[i], hostname, path) {
          return;
        }
        i := i + 1;
      }
    }
  }
}

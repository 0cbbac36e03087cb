/**
  * SimpleRouteTable: a named list of rules that routes requests (GetRouteData) and builds virtual
  * paths (GetVirtualPath). The conflict table and the MemoryCache are static, shared by every
  * table: here one Statics object that the tables are given. The cache holds forward entries
  * (request to RouteData) and reverse entries (route values to virtual path) under keys that never
  * meet (CacheKeys.CacheKeysApart), so it is two maps.
  */
module RouteTables {
  import opened Wrappers
  import opened Text
  import opened Keys
  import opened UrlPattern
  import opened RouteRule
  import opened VirtualPaths
  import opened HttpExtensions
  import opened ConflictTables
  import opened RuleDescriptors
  import opened Registration
  import opened CacheKeys
  import opened RouteValues
  import opened RuleSelection

  /** A RouteData: its values, its RoutingRuleName data token and its routers. */
  datatype RouteData = RouteData(values: VirtualPaths.RouteValues, ruleName: string, routers: seq<RouteTable>)

  /** What a cache miss of GetRouteData answers: the error or null Route gives, or the RouteData of
      the first rule that applies, owned by the given table. */
  function Routed(rules: seq<Rule>, verb: Option<string>, virtualPath: Option<string>, query: Query, owner: RouteTable): (r: Result<Option<RouteData>, Error>)
    ensures r.Ok? && r.value.Some? ==>
      && r.value.value.routers == [owner]
      && exists i :: 0 <= i < |rules| && r.value.value.ruleName == rules[i].name
  {
    match Route(rules, verb, virtualPath, query)
    case Err(e) => Err(e)
    case Ok(None) => Ok(None)
    case Ok(Some(m)) => Ok(Some(RouteData(m.values, rules[m.index].name, [owner])))
  }

  /** A miss answers null exactly when no rule applies; otherwise it reports what the first rule
      that applies gives: its error, or its values and its name, owned by the table alone. */
  lemma RoutedMeaning(rules: seq<Rule>, verb: Option<string>, virtualPath: Option<string>, query: Query, owner: RouteTable)
    ensures Routed(rules, verb, virtualPath, query, owner) == Ok(None) <==>
      forall i :: 0 <= i < |rules| && AcceptsVerb(rules[i], verb) ==> GetRouteValuesSpec(rules[i], virtualPath, query) == Ok(None)
    ensures var r := Routed(rules, verb, virtualPath, query, owner);
      r.Ok? && r.value.Some? ==> exists i ::
        && FirstToApply(rules, verb, virtualPath, query, i)
        && GetRouteValuesSpec(rules[i], virtualPath, query) == Ok(Some(r.value.value.values))
        && r.value.value.ruleName == rules[i].name && r.value.value.routers == [owner]
    ensures var r := Routed(rules, verb, virtualPath, query, owner);
      r.Err? ==> exists i :: FirstToApply(rules, verb, virtualPath, query, i) && GetRouteValuesSpec(rules[i], virtualPath, query) == Err(r.error)
  {
    var found := Route(rules, verb, virtualPath, query);
    if found.Ok? && found.value.Some? {
      var i := found.value.value.index;
      assert FirstToApply(rules, verb, virtualPath, query, i);
    }
  }

  /** A reverse cache entry, Tuple<string, SimpleRouteRule>. */
  datatype PathEntry = PathEntry(virtualPath: string, rule: Rule)

  /** What GetVirtualPath answers: the virtual path and the RoutingRuleName data token. */
  datatype PathData = PathData(virtualPath: string, ruleName: string)

  /** The rules of the rule objects, in order. */
  function RulesOf(objs: seq<RuleObject>): (rs: seq<Rule>)
    ensures |rs| == |objs|
    ensures forall i :: 0 <= i < |objs| ==> rs[i] == objs[i].rule
    ensures (forall o :: o in objs ==> o.Compiled()) ==> forall x :: x in rs ==> ParsePattern(x.urlPattern).Some?
  {
    var rs := seq(|objs|, i requires 0 <= i < |objs| => objs[i].rule);
    assert (forall o :: o in objs ==> o.Compiled()) ==> forall x :: x in rs ==> ParsePattern(x.urlPattern).Some? by {
      if forall o :: o in objs ==> o.Compiled() {
        forall x | x in rs ensures ParsePattern(x.urlPattern).Some? {
          var i :| 0 <= i < |rs| && rs[i] == x;
          assert objs[i] in objs;
        }
      }
    }
    rs
  }

  /** Removes "area" when its value is "": GetVirtualPath's first step. */
  function WithoutEmptyArea(values: VirtualPaths.RouteValues): (r: VirtualPaths.RouteValues)
    ensures IsDict(values) ==> IsDict(r)
    ensures Find(values, "area") == Some(Some("")) ==> !HasKey(KeysOf(r), "area")
    ensures Find(values, "area") != Some(Some("")) ==> r == values
  {
    if Find(values, "area") == Some(Some("")) then
      RemovedKeyGone(values, "area");
      Remove(values, "area")
    else values
  }

  lemma RemovedKeyGone<V>(d: seq<Entry<V>>, k: string)
    ensures !HasKey(KeysOf(Remove(d, k)), k)
    ensures IsDict(d) ==> IsDict(Remove(d, k))
  {
    if IsDict(d) {
      RemoveKeepsDict(d, k);
    }
    var r := Remove(d, k);
    forall j | 0 <= j < |r| ensures Fold(KeysOf(r)[j]) != Fold(k) {
      assert r[j] in d;
    }
  }

  /** The static members of SimpleRouteTable. */
  class Statics {
    const conflicts: ConflictTable
    var routes: map<string, RouteData>
    var paths: map<string, PathEntry>

    constructor()
      ensures fresh(conflicts) && conflicts.Valid()
      ensures conflicts.shapes == [] && conflicts.contracts == []
      ensures routes == map[] && paths == map[]
    {
      conflicts := new ConflictTable();
      routes := map[];
      paths := map[];
    }
  }

  class RouteTable {
    const name: string
    const statics: Statics
    /** IsIgnoredPath, the hook a subclass overrides; SimpleRouteTable's own ignores nothing. */
    const isIgnored: Option<string> -> bool
    var rules: seq<RuleObject>

    ghost predicate Valid()
      reads this, statics.conflicts
    {
      statics.conflicts.Valid() && forall r :: r in rules ==> r.Compiled()
    }

    /** The rules, in registration order. */
    function Rules(): (rs: seq<Rule>)
      reads this
      ensures |rs| == |rules|
    {
      RulesOf(rules)
    }

    constructor(name: string, statics: Statics, isIgnored: Option<string> -> bool)
      requires statics.conflicts.Valid()
      ensures this.name == name && this.statics == statics && this.isIgnored == isIgnored
      ensures rules == [] && Valid()
    {
      this.name := name;
      this.statics := statics;
      this.isIgnored := isIgnored;
      rules := [];
    }

    /** AddRule(rule): registers the rule in the shared conflict table; on a conflict throws
        InvalidOperationException naming the rule, the conflicting rule's table and the
        conflicting rule (NullReferenceException when that rule belongs to no table) and changes
        nothing; otherwise appends the rule and makes this table its owner. */
    method AddRuleObject(rule: RuleObject) returns (res: Result<RuleObject, Error>)
      requires Valid() && rule.Compiled()
      modifies this, statics.conflicts, rule
      ensures Valid()
      ensures old(statics.conflicts.ConflictFor(rule.rule)).None? ==>
        res == Ok(rule) && rules == old(rules) + [rule] && rule.owner == Some(name)
      ensures old(statics.conflicts.ConflictFor(rule.rule)).None? ==>
        && statics.conflicts.shapes == old(statics.conflicts.shapes) + [Entry(VirtualPathDescriptor(rule.rule), rule)]
        && statics.conflicts.contracts == old(statics.conflicts.contracts) + [Entry(RouteValuesDescriptor(rule.rule), rule)]
      ensures old(statics.conflicts.ConflictFor(rule.rule)).Some? ==>
        && rules == old(rules) && rule.owner == old(rule.owner)
        && statics.conflicts.shapes == old(statics.conflicts.shapes)
        && statics.conflicts.contracts == old(statics.conflicts.contracts)
        && var conflict := old(statics.conflicts.ConflictFor(rule.rule)).value;
           res == (if conflict.owner.Some? then Err(InvalidOperation(InTable(rule.rule.name, conflict.owner.value, conflict.rule.name)))
                   else Err(NullReference))
    {
      ghost var expected := statics.conflicts.ConflictFor(rule.rule);
      var added, conflict := statics.conflicts.TryAddRule(rule);
      assert conflict == expected;
      if !added {
        var other := conflict.value;
        if other.owner.None? {
          return Err(NullReference);
        }
        return Err(InvalidOperation(InTable(rule.rule.name, other.owner.value, other.rule.name)));
      }
      Adopt(rule);
      return Ok(rule);
    }

    /** The end of AddRule(rule): _rules.Add(rule) and rule.SimpleRouteTable = this. */
    method Adopt(rule: RuleObject)
      requires Valid() && rule.Compiled()
      modifies this, rule
      ensures Valid()
      ensures rules == old(rules) + [rule] && rule.owner == Some(name)
    {
      rules := rules + [rule];
      rule.owner := Some(name);
    }

    /** AddRule(name, verb, oneway, urlPattern, routeValues, queryKeys): the checks and the
        normalisation, a new rule with a null verb, then AddRule(rule). */
    method AddRule(ruleName: Option<string>, verb: Option<string>, oneway: bool, urlPattern: Option<string>,
                   routeValues: Option<seq<Entry<string>>>, queryKeys: Option<seq<string>>) returns (res: Result<RuleObject, Error>)
      requires Valid()
      modifies this, statics.conflicts
      ensures Valid()
      ensures PrepareRule(ruleName, None, oneway, urlPattern, routeValues, queryKeys).Err? ==>
        && res == Err(PrepareRule(ruleName, None, oneway, urlPattern, routeValues, queryKeys).error)
        && rules == old(rules)
        && statics.conflicts.shapes == old(statics.conflicts.shapes)
        && statics.conflicts.contracts == old(statics.conflicts.contracts)
      ensures PrepareRule(ruleName, None, oneway, urlPattern, routeValues, queryKeys).Ok? ==>
        var conflict := old(statics.conflicts.ConflictFor(PrepareRule(ruleName, None, oneway, urlPattern, routeValues, queryKeys).value));
        && (conflict.None? ==> res.Ok?)
        && (conflict.Some? ==>
              && rules == old(rules)
              && statics.conflicts.shapes == old(statics.conflicts.shapes)
              && statics.conflicts.contracts == old(statics.conflicts.contracts)
              && res == old(if conflict.value.owner.Some? then Err(InvalidOperation(InTable(ruleName.value, conflict.value.owner.value, conflict.value.rule.name)))
                            else Err(NullReference)))
      ensures res.Ok? ==> fresh(res.value) && res.value.rule == PrepareRule(ruleName, None, oneway, urlPattern, routeValues, queryKeys).value
      ensures res.Ok? ==> rules == old(rules) + [res.value] && res.value.owner == Some(name) && res.value.rule.verb.None?
      ensures res.Ok? ==>
        && statics.conflicts.shapes == old(statics.conflicts.shapes) + [Entry(VirtualPathDescriptor(res.value.rule), res.value)]
        && statics.conflicts.contracts == old(statics.conflicts.contracts) + [Entry(RouteValuesDescriptor(res.value.rule), res.value)]
      ensures res.Err? ==> rules == old(rules)
    {
      var prepared := PrepareRule(ruleName, None, oneway, urlPattern, routeValues, queryKeys);
      if prepared.Err? {
        return Err(prepared.error);
      }
      res := Register(prepared.value);
    }

    /** new SimpleRouteRule(...) followed by AddRule(rule), stated by the rule's contents. */
    method Register(rule: Rule) returns (res: Result<RuleObject, Error>)
      requires Valid() && RouteRule.Valid(rule)
      modifies this, statics.conflicts
      ensures Valid()
      ensures var conflict := old(statics.conflicts.ConflictFor(rule));
        && (conflict.None? ==> res.Ok?)
        && (conflict.Some? ==>
              && rules == old(rules)
              && statics.conflicts.shapes == old(statics.conflicts.shapes)
              && statics.conflicts.contracts == old(statics.conflicts.contracts)
              && res == old(if conflict.value.owner.Some? then Err(InvalidOperation(InTable(rule.name, conflict.value.owner.value, conflict.value.rule.name)))
                            else Err(NullReference)))
      ensures res.Ok? ==> fresh(res.value) && res.value.rule == rule
      ensures res.Ok? ==> rules == old(rules) + [res.value] && res.value.owner == Some(name)
      ensures res.Ok? ==>
        && statics.conflicts.shapes == old(statics.conflicts.shapes) + [Entry(VirtualPathDescriptor(rule), res.value)]
        && statics.conflicts.contracts == old(statics.conflicts.contracts) + [Entry(RouteValuesDescriptor(rule), res.value)]
      ensures res.Err? ==> rules == old(rules)
    {
      var obj := new RuleObject(rule);
      res := AddRuleObject(obj);
    }

    /** GetRouteData: null for an ignored path; on a cache hit the cached RouteData, or null when
        another table cached it; otherwise the first rule that applies, whose RouteData, owned by
        this table, is cached and returned. */
    method GetRouteData(verb: Option<string>, virtualPath: Option<string>, query: Query) returns (res: Result<Option<RouteData>, Error>)
      requires Valid()
      modifies statics
      ensures statics.paths == old(statics.paths)
      ensures isIgnored(virtualPath) ==> res == Ok(None) && statics.routes == old(statics.routes)
      ensures !isIgnored(virtualPath) && RouteDataKey(verb, virtualPath, query) in old(statics.routes) ==>
        && statics.routes == old(statics.routes)
        && var cached := old(statics.routes)[RouteDataKey(verb, virtualPath, query)];
           res == (if this in cached.routers then Ok(Some(cached)) else Ok(None))
      ensures !isIgnored(virtualPath) && RouteDataKey(verb, virtualPath, query) !in old(statics.routes) ==>
        && res == Routed(Rules(), verb, virtualPath, query, this)
        && statics.routes == if res.Ok? && res.value.Some? then old(statics.routes)[RouteDataKey(verb, virtualPath, query) := res.value.value]
                             else old(statics.routes)
    {
      if isIgnored(virtualPath) {
        return Ok(None);
      }
      var key := RouteDataKey(verb, virtualPath, query);
      if key in statics.routes {
        var cached := statics.routes[key];
        if this !in cached.routers {
          return Ok(None);
        }
        return Ok(Some(cached));
      }
      res := RouteAndCache(key, verb, virtualPath, query);
    }

    /** The cache miss of GetRouteData: the first rule that applies gives a RouteData owned by
        this table, stored under the request's cache key. */
    method RouteAndCache(key: string, verb: Option<string>, virtualPath: Option<string>, query: Query) returns (res: Result<Option<RouteData>, Error>)
      requires Valid()
      modifies statics
      ensures statics.paths == old(statics.paths)
      ensures res == Routed(Rules(), verb, virtualPath, query, this)
      ensures statics.routes == if res.Ok? && res.value.Some? then old(statics.routes)[key := res.value.value] else old(statics.routes)
    {
      var routed := Routed(Rules(), verb, virtualPath, query, this);
      if routed.Err? || routed.value.None? {
        return routed;
      }
      MatchIsDict(rules, verb, virtualPath, query, this);
      var data := CacheRouteData(key, routed.value.value);
      res := Ok(Some(data));
    }

    /** The end of a miss: RouteData.Values filled with Add from the match, then the cache entry. */
    method CacheRouteData(key: string, data: RouteData) returns (copy: RouteData)
      requires IsDict(data.values)
      modifies statics
      ensures copy == data
      ensures statics.routes == old(statics.routes)[key := data] && statics.paths == old(statics.paths)
    {
      var values := CopyValues(data.values);
      copy := data.(values := values);
      statics.routes := statics.routes[key := copy];
    }

    /** GetVirtualPath: drops an empty "area"; on a reverse cache hit the cached path, whichever
        table cached it; otherwise the path the best candidate builds, cached unless the table
        ignores it (then null). */
    method GetVirtualPath(values: VirtualPaths.RouteValues) returns (res: Result<Option<PathData>, Error>)
      requires Valid() && IsDict(values)
      modifies statics
      ensures statics.routes == old(statics.routes)
      ensures var key := CacheKey(WithoutEmptyArea(values));
        key in old(statics.paths) ==>
          && statics.paths == old(statics.paths)
          && res == Ok(Some(PathData(old(statics.paths)[key].virtualPath, old(statics.paths)[key].rule.name)))
      ensures var vs := WithoutEmptyArea(values); var key := CacheKey(vs);
        key !in old(statics.paths) ==>
          var chosen := old(Reverse(Rules(), vs));
          && (chosen.Err? ==> res == Err(chosen.error) && statics.paths == old(statics.paths))
          && (chosen == Ok(None) ==> res == Ok(None) && statics.paths == old(statics.paths))
          && (chosen.Ok? && chosen.value.Some? && isIgnored(Some(chosen.value.value.virtualPath)) ==>
                res == Ok(None) && statics.paths == old(statics.paths))
          && (chosen.Ok? && chosen.value.Some? && !isIgnored(Some(chosen.value.value.virtualPath)) ==>
                var choice := chosen.value.value;
                && res == Ok(Some(PathData(choice.virtualPath, choice.rule.name)))
                && statics.paths == old(statics.paths)[key := PathEntry(choice.virtualPath, choice.rule)])
    {
      var vs := WithoutEmptyArea(values);
      var key := CreateCacheKey(vs);
      if key in statics.paths {
        var cached := statics.paths[key];
        return Ok(Some(PathData(cached.virtualPath, cached.rule.name)));
      }
      var chosen := ChooseVirtualPath(Rules(), vs);
      res := CachePath(key, chosen);
    }

    /** The end of a reverse miss: null for no candidate or an ignored path, the thrown exception,
        or the virtual path, cached with its rule under the key. */
    method CachePath(key: string, chosen: Result<Option<PathChoice>, Error>) returns (res: Result<Option<PathData>, Error>)
      modifies statics
      ensures statics.routes == old(statics.routes)
      ensures chosen.Err? ==> res == Err(chosen.error) && statics.paths == old(statics.paths)
      ensures chosen == Ok(None) ==> res == Ok(None) && statics.paths == old(statics.paths)
      ensures chosen.Ok? && chosen.value.Some? && isIgnored(Some(chosen.value.value.virtualPath)) ==>
        res == Ok(None) && statics.paths == old(statics.paths)
      ensures chosen.Ok? && chosen.value.Some? && !isIgnored(Some(chosen.value.value.virtualPath)) ==>
        var choice := chosen.value.value;
        && res == Ok(Some(PathData(choice.virtualPath, choice.rule.name)))
        && statics.paths == old(statics.paths)[key := PathEntry(choice.virtualPath, choice.rule)]
    {
      if chosen.Err? {
        return Err(chosen.error);
      }
      if chosen.value.None? {
        return Ok(None);
      }
      var choice := chosen.value.value;
      if isIgnored(Some(choice.virtualPath)) {
        return Ok(None);
      }
      statics.paths := statics.paths[key := PathEntry(choice.virtualPath, choice.rule)];
      return Ok(Some(PathData(choice.virtualPath, choice.rule.name)));
    }
  }

  /** The reverse half of GetVirtualPath before the ignore check and the cache: the candidates, the
      best of them, and the virtual path it builds. */
  method ChooseVirtualPath(rules: seq<Rule>, values: VirtualPaths.RouteValues) returns (chosen: Result<Option<PathChoice>, Error>)
    requires forall x :: x in rules ==> ParsePattern(x.urlPattern).Some?
    requires IsDict(values)
    ensures chosen == Reverse(rules, values)
  {
    var candidates := Candidates(rules, values);
    if |candidates| == 0 {
      return Ok(None);
    }
    var best := BestRule(candidates);
    if best.None? {
      return Err(NullReference);
    }
    var rule := best.value;
    var path := CreateVirtualPath(rule, values);
    if path.Err? {
      return Err(path.error);
    }
    return Ok(Some(PathChoice(path.value, rule)));
  }

  /** The values a table's rules match are a dictionary, so copying them with Add never throws. */
  lemma MatchIsDict(objs: seq<RuleObject>, verb: Option<string>, virtualPath: Option<string>, query: Query, owner: RouteTable)
    requires forall o :: o in objs ==> o.Compiled()
    requires Routed(RulesOf(objs), verb, virtualPath, query, owner).Ok?
    requires Routed(RulesOf(objs), verb, virtualPath, query, owner).value.Some?
    ensures IsDict(Routed(RulesOf(objs), verb, virtualPath, query, owner).value.value.values)
  {
    var rules := RulesOf(objs);
    var m := Route(rules, verb, virtualPath, query).value.value;
    assert objs[m.index] in objs;
    RouteValuesAreDict(rules[m.index], virtualPath, query);
  }

  /** The loop copying the matched values into RouteData.Values with Add: the values come from a
      dictionary, so no Add throws and the copy is the values themselves, in order. */
  method CopyValues(values: VirtualPaths.RouteValues) returns (copy: VirtualPaths.RouteValues)
    requires IsDict(values)
    ensures copy == values
  {
    copy := [];
    var i := 0;
    while i < |values|
      invariant 0 <= i <= |values|
      invariant copy == values[..i]
    {
      var added := Add(copy, values[i].key, values[i].value);
      NotYetAdded(values, i);
      copy := added.value;
      assert values[..i + 1] == values[..i] + [values[i]];
      i := i + 1;
    }
  }

  lemma NotYetAdded(values: VirtualPaths.RouteValues, i: int)
    requires IsDict(values) && 0 <= i < |values|
    ensures !HasKey(KeysOf(values[..i]), values[i].key)
  {
    forall j | 0 <= j < i ensures Fold(KeysOf(values[..i])[j]) != Fold(values[i].key) {
      assert KeysOf(values)[j] == values[j].key && KeysOf(values)[i] == values[i].key;
    }
  }

  /** The arrangement of the route-table test: a new SimpleRouteTable "Default" over the given
      statics (built with a logger factory), and the test's AddRule("Default", "", {Test: Default})
      on it, read as MapRoute(name, urlPattern, routeValues). */
  method DefaultTable(statics: Statics) returns (table: RouteTable, added: RuleObject)
    requires statics.conflicts.Valid() && statics.conflicts.shapes == [] && statics.conflicts.contracts == []
    modifies statics.conflicts
    ensures fresh(table) && table.Valid() && table.statics == statics && table.name == "Default"
    ensures forall path :: !table.isIgnored(path)
    ensures table.rules == [added] && added.owner == Some("Default")
    ensures added.rule == Rule("Default", "~/", None, false, false, [], [Entry("Test", "Default")], [], ["Test"], [], ["Test"])
    ensures statics.conflicts.shapes == [Entry(VirtualPathDescriptor(added.rule), added)]
  {
    table := new RouteTable("Default", statics, path => false);
    ghost var prepared := PrepareRule(Some("Default"), None, false, Some(""), Some([Entry("Test", "Default")]), None);
    DefaultRule();
    assert prepared.Ok? && statics.conflicts.ConflictFor(prepared.value).None?;
    var res := table.AddRule(Some("Default"), None, false, Some(""), Some([Entry("Test", "Default")]), None);
    added := res.value;
  }

  /** The route-table test: a new table, AddRule("Default", "", {Test: Default}), then GET "~/"
      routes to Test = Default through the rule "Default". */
  method DefaultRoute() returns (data: Result<Option<RouteData>, Error>)
    ensures data.Ok? && data.value.Some?
    ensures data.value.value.values == [Entry("Test", Some("Default"))] && data.value.value.ruleName == "Default"
  {
    var statics := new Statics();
    var table, added := DefaultTable(statics);
    assert table.Rules() == [added.rule];
    DefaultRequest();
    data := table.GetRouteData(Some("GET"), Some("~/"), []);
  }

  /** As written, every rule AddRule(name, verb, ...) registers has the pattern "~/", no verb and
      no dynamic key, so all of them share one path shape; and the conflict table is shared by
      every table. Once one rule is registered this way, any other table refuses every rule
      registered this way, naming the first. */
  method OneStringRulePerProcess(ruleName: Option<string>, verb: Option<string>, oneway: bool, urlPattern: Option<string>,
                                 routeValues: Option<seq<Entry<string>>>, queryKeys: Option<seq<string>>)
    returns (second: Result<RuleObject, Error>)
    requires PrepareRule(ruleName, None, oneway, urlPattern, routeValues, queryKeys).Ok?
    ensures second == Err(InvalidOperation(InTable(ruleName.value, "Default", "Default")))
  {
    var statics := new Statics();
    var a, registered := DefaultTable(statics);
    var b := new RouteTable("Other", statics, path => false);
    var shapes := statics.conflicts.shapes;
    OnlyRootRegisters(ruleName, None, oneway, urlPattern, routeValues, queryKeys);
    var rule := PrepareRule(ruleName, None, oneway, urlPattern, routeValues, queryKeys).value;
    assert VirtualPathDescriptor(registered.rule) == VirtualPathDescriptor(rule);
    assert statics.conflicts.ConflictFor(rule) == Some(registered) by {
      assert IsDict(shapes) && Fold(shapes[0].key) == Fold(VirtualPathDescriptor(rule));
      FindAt(shapes, 0, VirtualPathDescriptor(rule));
    }
    second := b.AddRule(ruleName, verb, oneway, urlPattern, routeValues, queryKeys);
  }
}

/**
  * The steps SimpleRouteTable.AddRule and SimpleRouteCollection.AddRule share before a rule is
  * registered: the null checks on the name, the URL pattern and the route values, the
  * normalisation of the pattern, and the rule's constructor. The table passes a null verb, the
  * collection the verb it was given.
  */
module Registration {
  import opened Wrappers
  import opened Text
  import opened Keys
  import opened UrlPattern
  import opened RouteRule

  /** The rule AddRule(name, verb, oneway, urlPattern, routeValues, queryKeys) builds, or the
      exception it throws first. */
  function PrepareRule(name: Option<string>, verb: Option<string>, oneway: bool, urlPattern: Option<string>,
                       routeValues: Option<seq<Entry<string>>>, queryKeys: Option<seq<string>>): (r: Result<Rule, Error>)
    ensures r == Err(ArgumentNull("name")) <==> name.None?
    ensures r == Err(ArgumentNull("urlPattern")) <==> name.Some? && urlPattern.None?
    ensures r == Err(ArgumentNull("routeValues")) <==> name.Some? && urlPattern.Some? && routeValues.None?
    ensures r.Ok? ==> Valid(r.value) && r.value.name == name.value && r.value.verb == verb
    ensures r.Ok? ==> r.value.staticValues == routeValues.value && r.value.oneway == oneway
    ensures r.Ok? ==> StartsWith(r.value.urlPattern, "~/") && EndsWith(r.value.urlPattern, "/")
  {
    if name.None? then Err(ArgumentNull("name"))
    else if urlPattern.None? then Err(ArgumentNull("urlPattern"))
    else if routeValues.None? then Err(ArgumentNull("routeValues"))
    else
      match Normalize(urlPattern.value)
      case Err(e) => Err(e)
      case Ok(pattern) =>
        match CompileSpec(name.value, pattern, verb, oneway, routeValues.value, queryKeys)
        case Err(e) => Err(e)
        case Ok(rule) =>
          CompiledRule(name.value, pattern, verb, oneway, routeValues.value, queryKeys);
          Ok(rule)
  }

  /** As written, a rule registered through AddRule always has the root pattern "~/" and no
      segments: normalisation appends a '/', and the grammar refuses a final '/' anywhere else. */
  lemma OnlyRootRegisters(name: Option<string>, verb: Option<string>, oneway: bool, urlPattern: Option<string>,
                          routeValues: Option<seq<Entry<string>>>, queryKeys: Option<seq<string>>)
    requires PrepareRule(name, verb, oneway, urlPattern, routeValues, queryKeys).Ok?
    ensures var rule := PrepareRule(name, verb, oneway, urlPattern, routeValues, queryKeys).value;
      rule.urlPattern == "~/" && rule.paragraphs == [] && rule.dynamicKeys == []
  {
    var pattern := Normalize(urlPattern.value).value;
    if pattern != "~/" {
      NormalizedRejected(urlPattern.value);
    }
    RootAccepted();
  }

  /** A pattern starting with '/' but not "~/" is refused with ArgumentException. */
  lemma SlashPatternRefused(name: string, verb: Option<string>, oneway: bool, urlPattern: string,
                            routeValues: seq<Entry<string>>, queryKeys: Option<seq<string>>)
    requires StartsWith(urlPattern, "/")
    ensures PrepareRule(Some(name), verb, oneway, Some(urlPattern), Some(routeValues), queryKeys)
      == Err(Argument("urlPattern"))
  {
    assert !StartsWith(urlPattern, "~/") by {
      assert urlPattern[0] == '/';
    }
    assert Normalize(urlPattern) == Err(Argument("urlPattern"));
  }

  /** The rule the route-table test registers with AddRule("Default", "", {Test: Default}), read
      as MapRoute(name, urlPattern, routeValues), which adds no verb, oneway false and no query
      keys: the root pattern, one static value, no dynamic keys, any query key. */
  lemma DefaultRule()
    ensures PrepareRule(Some("Default"), None, false, Some(""), Some([Entry("Test", "Default")]), None)
      == Ok(Rule("Default", "~/", None, false, false, [], [Entry("Test", "Default")], [], ["Test"], [], ["Test"]))
  {
    EmptyPatternIsRoot();
    DefaultCompiled();
  }

  /** The constructor on the root pattern and the test's one static value. */
  lemma DefaultCompiled()
    ensures CompileSpec("Default", "~/", None, false, [Entry("Test", "Default")], None)
      == Ok(Rule("Default", "~/", None, false, false, [], [Entry("Test", "Default")], [], ["Test"], [], ["Test"]))
  {
    RootAccepted();
    var values := [Entry("Test", "Default")];
    assert CopyDict(values) == Ok(values) by {
      assert IsDict(values);
    }
    assert DynamicNames([]) == [];
    assert Distinct([]) == [];
    assert AddKeys(["Test"], []) == Some(["Test"]);
    assert Distinct(["Test"]) == ["Test"];
  }
}

/**
  * SimpleRouteCollection: an append-only list of rules with a conflict table of its own, so a
  * collection only refuses rules that clash with its own rules. Enumerating it yields `rules` in
  * order.
  */
module RouteCollections {
  import opened Wrappers
  import opened Keys
  import opened RouteRule
  import opened RuleDescriptors
  import opened ConflictTables
  import opened Registration

  class RouteCollection {
    const conflicts: ConflictTable
    var rules: seq<RuleObject>

    ghost predicate Valid()
      reads this, conflicts
    {
      conflicts.Valid() && forall r :: r in rules ==> r.Compiled()
    }

    /** Every collection starts with an empty conflict table of its own. */
    constructor()
      ensures Valid() && rules == [] && fresh(conflicts)
      ensures conflicts.shapes == [] && conflicts.contracts == []
    {
      conflicts := new ConflictTable();
      rules := [];
    }

    /** TryAddRule: the rule is appended exactly when the collection's conflict table accepts
        it; the conflicting rule is reported otherwise. */
    method TryAddRule(rule: RuleObject) returns (added: bool, conflict: Option<RuleObject>)
      requires Valid() && rule.Compiled()
      modifies this, conflicts
      ensures Valid()
      ensures conflict == old(conflicts.GetConflictRule(rule)) && conflict == old(conflicts.ConflictFor(rule.rule))
      ensures added <==> conflict.None?
      ensures rules == if added then old(rules) + [rule] else old(rules)
      ensures !added ==> conflicts.shapes == old(conflicts.shapes) && conflicts.contracts == old(conflicts.contracts)
      ensures added ==> conflicts.shapes == old(conflicts.shapes) + [Entry(VirtualPathDescriptor(rule.rule), rule)]
      ensures added ==> conflicts.contracts == old(conflicts.contracts) + [Entry(RouteValuesDescriptor(rule.rule), rule)]
    {
      ghost var before := rules;
      added, conflict := conflicts.TryAddRule(rule);
      assert conflicts.Valid() && rules == before;
      if added {
        rules := rules + [rule];
        assert forall r :: r in rules ==> r in before || r == rule;
      }
    }

    /** AddRule(rule): InvalidOperationException on a conflict, whose message names the
        conflicting rule's route table when it has one and the route set otherwise. The rule's
        SimpleRouteTable is left as it is. */
    method AddRuleObject(rule: RuleObject) returns (res: Result<RuleObject, Error>)
      requires Valid() && rule.Compiled()
      modifies this, conflicts
      ensures Valid()
      ensures old(conflicts.ConflictFor(rule.rule)).None? ==> res == Ok(rule) && rules == old(rules) + [rule]
      ensures old(conflicts.ConflictFor(rule.rule)).None? ==>
        && conflicts.shapes == old(conflicts.shapes) + [Entry(VirtualPathDescriptor(rule.rule), rule)]
        && conflicts.contracts == old(conflicts.contracts) + [Entry(RouteValuesDescriptor(rule.rule), rule)]
      ensures old(conflicts.ConflictFor(rule.rule)).Some? ==>
        conflicts.shapes == old(conflicts.shapes) && conflicts.contracts == old(conflicts.contracts)
      ensures old(conflicts.ConflictFor(rule.rule)).Some? ==>
        && rules == old(rules)
        && var conflict := old(conflicts.ConflictFor(rule.rule)).value;
           res == Err(InvalidOperation(
             if conflict.owner.Some? then InTable(rule.rule.name, conflict.owner.value, conflict.rule.name)
             else InRouteSet(rule.rule.name, conflict.rule.name)))
    {
      var added, conflict := TryAddRule(rule);
      if !added {
        var other := conflict.value;
        if other.owner.Some? {
          return Err(InvalidOperation(InTable(rule.rule.name, other.owner.value, other.rule.name)));
        }
        return Err(InvalidOperation(InRouteSet(rule.rule.name, other.rule.name)));
      }
      return Ok(rule);
    }

    /** AddRule(name, verb, oneway, urlPattern, routeValues, queryKeys): the checks and the
        normalisation of SimpleRouteTable.AddRule, but the rule keeps its verb. */
    method AddRule(ruleName: Option<string>, verb: Option<string>, oneway: bool, urlPattern: Option<string>,
                   routeValues: Option<seq<Entry<string>>>, queryKeys: Option<seq<string>>) returns (res: Result<RuleObject, Error>)
      requires Valid()
      modifies this, conflicts
      ensures Valid()
      ensures PrepareRule(ruleName, verb, oneway, urlPattern, routeValues, queryKeys).Err? ==>
        res == Err(PrepareRule(ruleName, verb, oneway, urlPattern, routeValues, queryKeys).error) && rules == old(rules)
      ensures PrepareRule(ruleName, verb, oneway, urlPattern, routeValues, queryKeys).Err? ==>
        conflicts.shapes == old(conflicts.shapes) && conflicts.contracts == old(conflicts.contracts)
      ensures PrepareRule(ruleName, verb, oneway, urlPattern, routeValues, queryKeys).Ok? ==>
        var conflict := old(conflicts.ConflictFor(PrepareRule(ruleName, verb, oneway, urlPattern, routeValues, queryKeys).value));
        && (conflict.None? <==> res.Ok?)
        && (conflict.Some? ==>
              && rules == old(rules)
              && conflicts.shapes == old(conflicts.shapes)
              && conflicts.contracts == old(conflicts.contracts)
              && res == Err(InvalidOperation(
                   if conflict.value.owner.Some? then InTable(ruleName.value, conflict.value.owner.value, conflict.value.rule.name)
                   else InRouteSet(ruleName.value, conflict.value.rule.name))))
      ensures res.Ok? ==> fresh(res.value) && res.value.rule == PrepareRule(ruleName, verb, oneway, urlPattern, routeValues, queryKeys).value
      ensures res.Ok? ==> rules == old(rules) + [res.value] && res.value.rule.verb == verb && res.value.owner.None?
      ensures res.Ok? ==>
        && conflicts.shapes == old(conflicts.shapes) + [Entry(VirtualPathDescriptor(res.value.rule), res.value)]
        && conflicts.contracts == old(conflicts.contracts) + [Entry(RouteValuesDescriptor(res.value.rule), res.value)]
      ensures res.Err? ==> rules == old(rules)
    {
      var prepared := PrepareRule(ruleName, verb, oneway, urlPattern, routeValues, queryKeys);
      if prepared.Err? {
        return Err(prepared.error);
      }
      res := Register(prepared.value);
    }

    /** new SimpleRouteRule(...) followed by AddRule(rule), stated by the rule's contents. */
    method Register(rule: Rule) returns (res: Result<RuleObject, Error>)
      requires Valid() && RouteRule.Valid(rule)
      modifies this, conflicts
      ensures Valid()
      ensures var conflict := old(conflicts.ConflictFor(rule));
        && (conflict.None? <==> res.Ok?)
        && (conflict.Some? ==>
              && rules == old(rules)
              && conflicts.shapes == old(conflicts.shapes)
              && conflicts.contracts == old(conflicts.contracts)
              && res == Err(InvalidOperation(
                   if conflict.value.owner.Some? then InTable(rule.name, conflict.value.owner.value, conflict.value.rule.name)
                   else InRouteSet(rule.name, conflict.value.rule.name))))
      ensures res.Ok? ==> fresh(res.value) && res.value.rule == rule && res.value.owner.None?
      ensures res.Ok? ==> rules == old(rules) + [res.value]
      ensures res.Ok? ==>
        && conflicts.shapes == old(conflicts.shapes) + [Entry(VirtualPathDescriptor(rule), res.value)]
        && conflicts.contracts == old(conflicts.contracts) + [Entry(RouteValuesDescriptor(rule), res.value)]
    {
      ghost var expected := conflicts.ConflictFor(rule);
      var obj := new RuleObject(rule);
      assert conflicts.ConflictFor(obj.rule) == expected;
      res := AddRuleObject(obj);
    }
  }

  /** Each collection has its own conflict table: the same rule is accepted by two collections,
      where a second table sharing the static conflict table would refuse it. */
  method SeparateCollections(rule: Rule) returns (first: bool, second: bool)
    requires Valid(rule)
    ensures first && second
  {
    var a := new RouteCollection();
    var b := new RouteCollection();
    var r1 := new RuleObject(rule);
    var r2 := new RuleObject(rule);
    var c1, c2;
    first, c1 := a.TryAddRule(r1);
    second, c2 := b.TryAddRule(r2);
  }
}

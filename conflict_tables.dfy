/**
  * SimpleRouteConflictTable: two dictionaries, compared ignoring case, from a rule's path-shape
  * descriptor and from its value-contract descriptor to the rule. A rule is refused when either
  * descriptor is already there; the rule registered under it is reported as the conflict.
  */
module ConflictTables {
  import opened Wrappers
  import opened Text
  import opened Keys
  import opened RouteRule
  import opened RuleDescriptors

  /** A SimpleRouteRule object: the compiled rule, which never changes, and its SimpleRouteTable
      property, the route table it was added to (identified by the table's name; None for null). */
  class RuleObject {
    const rule: Rule
    var owner: Option<string>

    /** Every SimpleRouteRule is built by its constructor. */
    ghost predicate Compiled() {
      Valid(rule)
    }

    constructor(rule: Rule)
      requires Valid(rule)
      ensures this.rule == rule && owner == None && Compiled()
    {
      this.rule := rule;
      owner := None;
    }
  }

  /** The two rules would produce the same virtual paths: equal path-shape descriptors. */
  predicate SameShape(a: Rule, b: Rule)
    requires Valid(a) && Valid(b)
  {
    EqualsIgnoreCase(VirtualPathDescriptor(a), VirtualPathDescriptor(b))
  }

  /** The two rules would accept the same route values: equal value-contract descriptors. */
  predicate SameContract(a: Rule, b: Rule) {
    EqualsIgnoreCase(RouteValuesDescriptor(a), RouteValuesDescriptor(b))
  }

  /** GetConflict over the two dictionaries: the rule under the path-shape descriptor, else the
      rule under the value-contract descriptor, else null. */
  function ConflictIn(shapes: seq<Entry<RuleObject>>, contracts: seq<Entry<RuleObject>>,
                      shape: string, contract: string): (r: Option<RuleObject>)
    ensures r.None? <==> !HasKey(KeysOf(shapes), shape) && !HasKey(KeysOf(contracts), contract)
    ensures HasKey(KeysOf(shapes), shape) ==>
      exists i :: 0 <= i < |shapes| && Fold(shapes[i].key) == Fold(shape) && Some(shapes[i].value) == r
    ensures !HasKey(KeysOf(shapes), shape) && r.Some? ==>
      exists i :: 0 <= i < |contracts| && Fold(contracts[i].key) == Fold(contract) && Some(contracts[i].value) == r
  {
    match Find(shapes, shape)
    case Some(rule) => Some(rule)
    case None => Find(contracts, contract)
  }

  /** A lookup in a dictionary that gained one entry: the old entry when the key was there, the
      new value when the new key matches, nothing otherwise. */
  lemma FindAppended<V>(d: seq<Entry<V>>, k: string, v: V, q: string)
    ensures Find(d + [Entry(k, v)], q)
      == if HasKey(KeysOf(d), q) then Find(d, q) else if Fold(k) == Fold(q) then Some(v) else None
  {
    var e := d + [Entry(k, v)];
    assert KeysOf(e) == KeysOf(d) + [k];
    var i := IndexOfKey(KeysOf(d), q);
    var j := IndexOfKey(KeysOf(e), q);
    if i >= 0 {
      assert KeysOf(e)[i] == KeysOf(d)[i];
      assert j == i;
    } else if Fold(k) == Fold(q) {
      assert KeysOf(e)[|d|] == k;
      assert j == |d|;
    }
  }

  /** Once a rule is registered under descriptors that were free, looking those descriptors up
      finds it: after TryAddRule(r) succeeds, GetConflictRule(r) is r. */
  lemma RegisteredIsFound(shapes: seq<Entry<RuleObject>>, contracts: seq<Entry<RuleObject>>,
                          shape: string, contract: string, rule: RuleObject)
    requires ConflictIn(shapes, contracts, shape, contract).None?
    ensures ConflictIn(shapes + [Entry(shape, rule)], contracts + [Entry(contract, rule)], shape, contract) == Some(rule)
  {
    FindAppended(shapes, shape, rule, shape);
  }

  /** Of two rules with the same verb, the same static prefix (both ignoring case) and as many
      dynamic keys, the second is refused once the first is registered, and the first is the
      conflict reported. */
  lemma SecondSameShapeFails(shapes: seq<Entry<RuleObject>>, contracts: seq<Entry<RuleObject>>,
                             first: RuleObject, second: RuleObject)
    requires first.Compiled() && second.Compiled()
    requires ConflictIn(shapes, contracts, VirtualPathDescriptor(first.rule), RouteValuesDescriptor(first.rule)).None?
    requires EqualsIgnoreCase(VerbText(first.rule.verb), VerbText(second.rule.verb))
    requires EqualsIgnoreCase(StaticPrefix(first.rule), StaticPrefix(second.rule))
    requires |first.rule.dynamicKeys| == |second.rule.dynamicKeys|
    ensures ConflictIn(shapes + [Entry(VirtualPathDescriptor(first.rule), first)],
                       contracts + [Entry(RouteValuesDescriptor(first.rule), first)],
                       VirtualPathDescriptor(second.rule), RouteValuesDescriptor(second.rule)) == Some(first)
  {
    var s1, s2 := VirtualPathDescriptor(first.rule), VirtualPathDescriptor(second.rule);
    ShapeDescriptorMeaning(first.rule, second.rule);
    IndexOfKeyFold(KeysOf(shapes), s1, s2);
    FindAppended(shapes, s1, first, s2);
  }

  /** A rule whose value contract equals a registered rule's (ignoring case) is refused, whatever
      its path shape. */
  lemma SameContractFails(shapes: seq<Entry<RuleObject>>, contracts: seq<Entry<RuleObject>>,
                          first: RuleObject, second: RuleObject)
    requires first.Compiled() && second.Compiled()
    requires ConflictIn(shapes, contracts, VirtualPathDescriptor(first.rule), RouteValuesDescriptor(first.rule)).None?
    requires SameContract(first.rule, second.rule)
    ensures ConflictIn(shapes + [Entry(VirtualPathDescriptor(first.rule), first)],
                       contracts + [Entry(RouteValuesDescriptor(first.rule), first)],
                       VirtualPathDescriptor(second.rule), RouteValuesDescriptor(second.rule)).Some?
  {
    var c1, c2 := RouteValuesDescriptor(first.rule), RouteValuesDescriptor(second.rule);
    IndexOfKeyFold(KeysOf(contracts), c1, c2);
    FindAppended(contracts, c1, first, c2);
  }

  /** Every entry is a compiled rule under its path-shape descriptor. */
  ghost predicate KeyedByShape(shapes: seq<Entry<RuleObject>>) {
    forall i :: 0 <= i < |shapes| ==>
      shapes[i].value.Compiled() && shapes[i].key == VirtualPathDescriptor(shapes[i].value.rule)
  }

  /** Every entry is a compiled rule under its value-contract descriptor. */
  ghost predicate KeyedByContract(contracts: seq<Entry<RuleObject>>) {
    forall i :: 0 <= i < |contracts| ==>
      contracts[i].value.Compiled() && contracts[i].key == RouteValuesDescriptor(contracts[i].value.rule)
  }

  /** A dictionary holds a key exactly when one of its entries has it, ignoring case. */
  lemma HasKeyEntry<V>(d: seq<Entry<V>>, k: string)
    ensures HasKey(KeysOf(d), k) <==> exists i :: 0 <= i < |d| && Fold(d[i].key) == Fold(k)
  {
    if HasKey(KeysOf(d), k) {
      var i := IndexOfKey(KeysOf(d), k);
      assert Fold(d[i].key) == Fold(k);
    }
  }

  lemma ShapeKeyMeaning(shapes: seq<Entry<RuleObject>>, rule: RuleObject)
    requires KeyedByShape(shapes) && rule.Compiled()
    ensures HasKey(KeysOf(shapes), VirtualPathDescriptor(rule.rule))
      <==> exists i :: 0 <= i < |shapes| && SameShape(shapes[i].value.rule, rule.rule)
  {
    HasKeyEntry(shapes, VirtualPathDescriptor(rule.rule));
  }

  lemma ContractKeyMeaning(contracts: seq<Entry<RuleObject>>, rule: RuleObject)
    requires KeyedByContract(contracts)
    ensures HasKey(KeysOf(contracts), RouteValuesDescriptor(rule.rule))
      <==> exists i :: 0 <= i < |contracts| && SameContract(contracts[i].value.rule, rule.rule)
  {
    HasKeyEntry(contracts, RouteValuesDescriptor(rule.rule));
  }

  /** What GetConflict finds, in terms of the registered rules. */
  lemma ConflictMeaning(shapes: seq<Entry<RuleObject>>, contracts: seq<Entry<RuleObject>>, rule: RuleObject)
    requires |shapes| == |contracts| && KeyedByShape(shapes) && KeyedByContract(contracts)
    requires forall i :: 0 <= i < |shapes| ==> shapes[i].value == contracts[i].value
    requires rule.Compiled()
    ensures var r := ConflictIn(shapes, contracts, VirtualPathDescriptor(rule.rule), RouteValuesDescriptor(rule.rule));
      && (r.None? <==> forall i :: 0 <= i < |shapes| ==>
            !SameShape(shapes[i].value.rule, rule.rule) && !SameContract(shapes[i].value.rule, rule.rule))
      && (r.Some? ==> exists i :: (0 <= i < |shapes| && shapes[i].value == r.value &&
            (SameShape(shapes[i].value.rule, rule.rule) || SameContract(shapes[i].value.rule, rule.rule))))
      && ((exists i :: 0 <= i < |shapes| && SameShape(shapes[i].value.rule, rule.rule)) ==>
            r.Some? && SameShape(r.value.rule, rule.rule))
  {
    var shape, contract := VirtualPathDescriptor(rule.rule), RouteValuesDescriptor(rule.rule);
    var r := ConflictIn(shapes, contracts, shape, contract);
    ShapeKeyMeaning(shapes, rule);
    ContractKeyMeaning(contracts, rule);
    if HasKey(KeysOf(shapes), shape) {
      var i :| 0 <= i < |shapes| && Fold(shapes[i].key) == Fold(shape) && Some(shapes[i].value) == r;
      assert SameShape(shapes[i].value.rule, rule.rule);
    } else if r.Some? {
      var i :| 0 <= i < |contracts| && Fold(contracts[i].key) == Fold(contract) && Some(contracts[i].value) == r;
      assert SameContract(shapes[i].value.rule, rule.rule);
    }
  }

  /** Registering a rule under free descriptors keeps both dictionaries keyed by descriptor, with
      the same rules in the same order. */
  lemma RegisterKeepsKeyed(shapes: seq<Entry<RuleObject>>, contracts: seq<Entry<RuleObject>>, rule: RuleObject)
    requires |shapes| == |contracts| && KeyedByShape(shapes) && KeyedByContract(contracts)
    requires forall i :: 0 <= i < |shapes| ==> shapes[i].value == contracts[i].value
    requires IsDict(shapes) && IsDict(contracts) && rule.Compiled()
    requires ConflictIn(shapes, contracts, VirtualPathDescriptor(rule.rule), RouteValuesDescriptor(rule.rule)).None?
    ensures var shapes' := shapes + [Entry(VirtualPathDescriptor(rule.rule), rule)];
      var contracts' := contracts + [Entry(RouteValuesDescriptor(rule.rule), rule)];
      && |shapes'| == |contracts'| && KeyedByShape(shapes') && KeyedByContract(contracts')
      && (forall i :: 0 <= i < |shapes'| ==> shapes'[i].value == contracts'[i].value)
      && IsDict(shapes') && IsDict(contracts')
  {
    var shape, contract := VirtualPathDescriptor(rule.rule), RouteValuesDescriptor(rule.rule);
    ShapeAppended(shapes, rule);
    ContractAppended(contracts, rule);
    AppendedDict(shapes, shape, rule);
    AppendedDict(contracts, contract, rule);
    var shapes', contracts' := shapes + [Entry(shape, rule)], contracts + [Entry(contract, rule)];
    forall i | 0 <= i < |shapes'| ensures shapes'[i].value == contracts'[i].value {
      if i < |shapes| {
        assert shapes'[i] == shapes[i] && contracts'[i] == contracts[i];
      }
    }
  }

  lemma ShapeAppended(shapes: seq<Entry<RuleObject>>, rule: RuleObject)
    requires KeyedByShape(shapes) && rule.Compiled()
    ensures KeyedByShape(shapes + [Entry(VirtualPathDescriptor(rule.rule), rule)])
  {
  }

  lemma ContractAppended(contracts: seq<Entry<RuleObject>>, rule: RuleObject)
    requires KeyedByContract(contracts) && rule.Compiled()
    ensures KeyedByContract(contracts + [Entry(RouteValuesDescriptor(rule.rule), rule)])
  {
  }

  lemma AppendedDict<V>(d: seq<Entry<V>>, k: string, v: V)
    requires IsDict(d) && !HasKey(KeysOf(d), k)
    ensures IsDict(d + [Entry(k, v)])
  {
    assert Add(d, k, v).Ok?;
  }

  /** SimpleRouteConflictTable. */
  class ConflictTable {
    /** virtualPathList: path-shape descriptor to rule, in registration order. */
    var shapes: seq<Entry<RuleObject>>
    /** routeValuesList: value-contract descriptor to rule, in registration order. */
    var contracts: seq<Entry<RuleObject>>

    /** Both dictionaries hold the same rules in the same order, each under its own descriptor. */
    ghost predicate Valid()
      reads this
    {
      && |shapes| == |contracts|
      && (forall i :: 0 <= i < |shapes| ==> shapes[i].value == contracts[i].value)
      && KeyedByShape(shapes)
      && KeyedByContract(contracts)
      && IsDict(shapes)
      && IsDict(contracts)
    }

    constructor()
      ensures Valid() && shapes == [] && contracts == []
    {
      shapes := [];
      contracts := [];
    }

    /** GetConflictRule: null when no registered rule shares the path shape or the value contract;
        otherwise a registered rule that shares one of them, and one sharing the path shape when
        there is such a rule. */
    function GetConflictRule(rule: RuleObject): (r: Option<RuleObject>)
      reads this
      requires Valid() && rule.Compiled()
      ensures r.None? <==> forall i :: 0 <= i < |shapes| ==>
        !SameShape(shapes[i].value.rule, rule.rule) && !SameContract(shapes[i].value.rule, rule.rule)
      ensures r.Some? ==> exists i :: (0 <= i < |shapes| && shapes[i].value == r.value &&
        (SameShape(shapes[i].value.rule, rule.rule) || SameContract(shapes[i].value.rule, rule.rule)))
      ensures (exists i :: 0 <= i < |shapes| && SameShape(shapes[i].value.rule, rule.rule)) ==>
        r.Some? && SameShape(r.value.rule, rule.rule)
    {
      ConflictMeaning(shapes, contracts, rule);
      ConflictIn(shapes, contracts, VirtualPathDescriptor(rule.rule), RouteValuesDescriptor(rule.rule))
    }

    /** The conflict GetConflictRule reports for any rule object holding this rule. */
    function ConflictFor(rule: Rule): (r: Option<RuleObject>)
      reads this
      requires Valid() && RouteRule.Valid(rule)
      ensures |shapes| == 0 ==> r.None?
    {
      ConflictIn(shapes, contracts, VirtualPathDescriptor(rule), RouteValuesDescriptor(rule))
    }

    /** TryAddRule: on a conflict nothing changes and the conflicting rule is reported; otherwise
        each dictionary gains one entry for the rule, and the rule is then its own conflict. */
    method TryAddRule(rule: RuleObject) returns (added: bool, conflict: Option<RuleObject>)
      requires Valid() && rule.Compiled()
      modifies this
      ensures Valid()
      ensures conflict == old(GetConflictRule(rule)) && conflict == old(ConflictFor(rule.rule))
      ensures added <==> conflict.None?
      ensures !added ==> shapes == old(shapes) && contracts == old(contracts)
      ensures added ==> shapes == old(shapes) + [Entry(VirtualPathDescriptor(rule.rule), rule)]
      ensures added ==> contracts == old(contracts) + [Entry(RouteValuesDescriptor(rule.rule), rule)]
      ensures added ==> ConflictFor(rule.rule) == Some(rule)
    {
      var shape := VirtualPathDescriptor(rule.rule);
      var contract := RouteValuesDescriptor(rule.rule);
      conflict := ConflictIn(shapes, contracts, shape, contract);
      if conflict.Some? {
        return false, conflict;
      }
      RegisteredIsFound(shapes, contracts, shape, contract, rule);
      RegisterKeepsKeyed(shapes, contracts, rule);
      shapes := shapes + [Entry(shape, rule)];
      contracts := contracts + [Entry(contract, rule)];
      return true, None;
    }
  }
}

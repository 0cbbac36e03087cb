/**
  * The parts of SimpleRouteTable that only compute: which rule routes a request (the LINQ
  * pipeline of GetRouteData), which rules may build a virtual path from route values and which
  * of them is chosen (the filters of GetVirtualPath and BestRule), and PreprocessVirtualPath.
  * Rules are referred to by their position in the table's rule list.
  */
module RuleSelection {
  import opened Wrappers
  import opened Text
  import opened Keys
  import opened Sorting
  import opened Framework
  import opened UrlPattern
  import opened RouteRule
  import opened VirtualPaths
  import opened HttpExtensions
  import opened RouteValues

  // ---------------------------------------------------------------------------------------------
  // Forward: GetRouteData

  /** r.Verb == null || r.Verb.Equals(verb, OrdinalIgnoreCase): a rule without a verb takes every
      request, and a request without a verb reaches only those. */
  predicate AcceptsVerb(rule: Rule, verb: Option<string>) {
    rule.verb.None? || (verb.Some? && EqualsIgnoreCase(rule.verb.value, verb.value))
  }

  /** The positions among the first `n` rules of those the Where keeps, in registration order. */
  function VerbIndices(rules: seq<Rule>, verb: Option<string>, n: nat): (ix: seq<int>)
    requires n <= |rules|
    ensures forall i :: i in ix <==> 0 <= i < n && AcceptsVerb(rules[i], verb)
  {
    if n == 0 then []
    else
      var init := VerbIndices(rules, verb, n - 1);
      if AcceptsVerb(rules[n - 1], verb) then init + [n - 1] else init
  }

  /** The sort key of OrderBy(r => r.DynamicRouteKeys.Count), with the position added: OrderBy is
      stable, so of two rules with as many dynamic keys the one registered first comes first. */
  function OrderKey(rules: seq<Rule>): int -> seq<int> {
    i => if 0 <= i < |rules| then [|rules[i].dynamicKeys|, i] else [0, i]
  }

  /** Rule i is tried before rule j: fewer dynamic keys, or as many and registered earlier. */
  predicate Before(rules: seq<Rule>, i: int, j: int)
    requires 0 <= i < |rules| && 0 <= j < |rules|
  {
    |rules[i].dynamicKeys| < |rules[j].dynamicKeys| || (|rules[i].dynamicKeys| == |rules[j].dynamicKeys| && i < j)
  }

  lemma LexPair(a: int, x: int, b: int, y: int)
    ensures LexLe([a, x], [b, y]) <==> a < b || (a == b && x <= y)
  {
    assert [a, x][1..] == [x] && [b, y][1..] == [y];
    assert [x][1..] == [] && [y][1..] == [];
    assert LexLe([], []);
    assert LexLe([x], [y]) <==> x < y || (x == y && LexLe([], []));
  }

  /** The order in which the pipeline tries the rules: the rules that take the verb, by dynamic key
      count, ties in registration order. */
  function Order(rules: seq<Rule>, verb: Option<string>): (order: seq<int>)
    ensures forall i :: i in order <==> 0 <= i < |rules| && AcceptsVerb(rules[i], verb)
    ensures forall p :: 0 <= p < |order| ==> 0 <= order[p] < |rules|
    ensures forall p, q :: 0 <= p < q < |order| ==> !Before(rules, order[q], order[p])
  {
    var ix := VerbIndices(rules, verb, |rules|);
    var order := SortBy(ix, OrderKey(rules));
    SameMembers(order, ix);
    assert forall p :: 0 <= p < |order| ==> order[p] in order;
    OrderSorted(rules, ix, order);
    order
  }

  lemma SameMembers<T>(a: seq<T>, b: seq<T>)
    requires multiset(a) == multiset(b)
    ensures forall x :: x in a <==> x in b
  {
    forall x ensures x in a <==> x in b {
      assert x in a <==> x in multiset(a);
      assert x in b <==> x in multiset(b);
    }
  }

  lemma OrderSorted(rules: seq<Rule>, ix: seq<int>, order: seq<int>)
    requires forall p :: 0 <= p < |order| ==> 0 <= order[p] < |rules|
    requires SortedBy(order, OrderKey(rules))
    ensures forall p, q :: 0 <= p < q < |order| ==> !Before(rules, order[q], order[p])
  {
    forall p, q | 0 <= p < q < |order| ensures !Before(rules, order[q], order[p]) {
      var i, j := order[p], order[q];
      assert LexLe(OrderKey(rules)(i), OrderKey(rules)(j));
      LexPair(|rules[i].dynamicKeys|, i, |rules[j].dynamicKeys|, j);
    }
  }

  /** The position in `order`, from `k` on, of the first rule whose GetRouteValues does not
      return null (or throws): Select, Where and FirstOrDefault are lazy, so the rules after it are
      never asked. |order| when every rule declines. */
  function FirstDecisive(rules: seq<Rule>, order: seq<int>, k: int, virtualPath: Option<string>, query: Query): (p: int)
    requires forall q :: 0 <= q < |order| ==> 0 <= order[q] < |rules|
    requires 0 <= k <= |order|
    ensures k <= p <= |order|
    ensures forall q :: k <= q < p ==> GetRouteValuesSpec(rules[order[q]], virtualPath, query) == Ok(None)
    ensures p < |order| ==> GetRouteValuesSpec(rules[order[p]], virtualPath, query) != Ok(None)
    decreases |order| - k
  {
    if k == |order| then k
    else if GetRouteValuesSpec(rules[order[k]], virtualPath, query) != Ok(None) then k
    else FirstDecisive(rules, order, k + 1, virtualPath, query)
  }

  /** The rule the pipeline settles on, by position, and the route values it read. */
  datatype Match = Match(index: int, values: VirtualPaths.RouteValues)

  /** Rule i takes the verb, does not decline the request, and every rule tried before it does. */
  ghost predicate FirstToApply(rules: seq<Rule>, verb: Option<string>, virtualPath: Option<string>, query: Query, i: int) {
    && 0 <= i < |rules|
    && AcceptsVerb(rules[i], verb)
    && GetRouteValuesSpec(rules[i], virtualPath, query) != Ok(None)
    && forall j :: 0 <= j < |rules| && AcceptsVerb(rules[j], verb) && Before(rules, j, i) ==>
         GetRouteValuesSpec(rules[j], virtualPath, query) == Ok(None)
  }

  /** The LINQ pipeline of GetRouteData: null (None) when every rule that takes the verb
      declines; otherwise the first rule in the stable order by dynamic key count that does not
      decline, with its route values, or the exception its GetRouteValues throws. */
  function Route(rules: seq<Rule>, verb: Option<string>, virtualPath: Option<string>, query: Query): (r: Result<Option<Match>, Error>)
    ensures r == Ok(None) <==>
      forall i :: 0 <= i < |rules| && AcceptsVerb(rules[i], verb) ==> GetRouteValuesSpec(rules[i], virtualPath, query) == Ok(None)
    ensures r.Ok? && r.value.Some? ==> FirstToApply(rules, verb, virtualPath, query, r.value.value.index)
    ensures r.Ok? && r.value.Some? ==>
      GetRouteValuesSpec(rules[r.value.value.index], virtualPath, query) == Ok(Some(r.value.value.values))
    ensures r.Err? ==> exists i :: (FirstToApply(rules, verb, virtualPath, query, i)
      && GetRouteValuesSpec(rules[i], virtualPath, query) == Err(r.error))
  {
    var order := Order(rules, verb);
    var p := FirstDecisive(rules, order, 0, virtualPath, query);
    if p == |order| then
      assert forall i :: 0 <= i < |rules| && AcceptsVerb(rules[i], verb) ==> GetRouteValuesSpec(rules[i], virtualPath, query) == Ok(None) by {
        forall i | 0 <= i < |rules| && AcceptsVerb(rules[i], verb) ensures GetRouteValuesSpec(rules[i], virtualPath, query) == Ok(None) {
          var q :| 0 <= q < |order| && order[q] == i;
        }
      }
      Ok(None)
    else
      FirstDecisiveApplies(rules, verb, virtualPath, query, order, p);
      var res := GetRouteValuesSpec(rules[order[p]], virtualPath, query);
      if res.Err? then Err(res.error) else Ok(Some(Match(order[p], res.value.value)))
  }

  lemma FirstDecisiveApplies(rules: seq<Rule>, verb: Option<string>, virtualPath: Option<string>, query: Query, order: seq<int>, p: int)
    requires order == Order(rules, verb)
    requires 0 <= p < |order| && p == FirstDecisive(rules, order, 0, virtualPath, query)
    ensures FirstToApply(rules, verb, virtualPath, query, order[p])
  {
    var i := order[p];
    forall j | 0 <= j < |rules| && AcceptsVerb(rules[j], verb) && Before(rules, j, i)
      ensures GetRouteValuesSpec(rules[j], virtualPath, query) == Ok(None)
    {
      var q :| 0 <= q < |order| && order[q] == j;
      TriedEarlier(rules, order, p, q);
    }
  }

  /** A rule the order puts before another is tried at an earlier position. */
  lemma TriedEarlier(rules: seq<Rule>, order: seq<int>, p: int, q: int)
    requires forall k :: 0 <= k < |order| ==> 0 <= order[k] < |rules|
    requires forall k, l :: 0 <= k < l < |order| ==> !Before(rules, order[l], order[k])
    requires 0 <= p < |order| && 0 <= q < |order| && Before(rules, order[q], order[p])
    ensures q < p
  {
  }

  /** At most one rule is the first to apply, so Route's contract determines its answer. */
  lemma FirstToApplyUnique(rules: seq<Rule>, verb: Option<string>, virtualPath: Option<string>, query: Query, i: int, j: int)
    requires FirstToApply(rules, verb, virtualPath, query, i)
    requires FirstToApply(rules, verb, virtualPath, query, j)
    ensures i == j
  {
  }

  /** The matched rule has the fewest dynamic keys of all rules that take the verb and the path,
      and of those with as many it was registered first. */
  lemma RoutePicksFewest(rules: seq<Rule>, verb: Option<string>, virtualPath: Option<string>, query: Query, j: int)
    requires Route(rules, verb, virtualPath, query).Ok? && Route(rules, verb, virtualPath, query).value.Some?
    requires 0 <= j < |rules| && AcceptsVerb(rules[j], verb)
    requires GetRouteValuesSpec(rules[j], virtualPath, query).Ok? && GetRouteValuesSpec(rules[j], virtualPath, query).value.Some?
    ensures var i := Route(rules, verb, virtualPath, query).value.value.index;
      |rules[i].dynamicKeys| < |rules[j].dynamicKeys| || (|rules[i].dynamicKeys| == |rules[j].dynamicKeys| && i <= j)
  {
    var i := Route(rules, verb, virtualPath, query).value.value.index;
    assert FirstToApply(rules, verb, virtualPath, query, i);
    if i != j {
      assert !Before(rules, j, i);
    }
  }

  /** The request of the route-table test: a table holding only the rule AddRule("Default", "",
      {Test: Default}) builds answers GET "~/" with Test = Default. */
  lemma DefaultRequest()
    ensures var rule := Rule("Default", "~/", None, false, false, [], [Entry("Test", "Default")], [], ["Test"], [], ["Test"]);
      Route([rule], Some("GET"), Some("~/"), []) == Ok(Some(Match(0, [Entry("Test", Some("Default"))])))
  {
    var rule := Rule("Default", "~/", None, false, false, [], [Entry("Test", "Default")], [], ["Test"], [], ["Test"]);
    assert CollapseSlashes("~/") == "~/" by {
      assert NoDoubleSlash("~/");
    }
    assert GetExtension("~/") == "";
    assert "~/"[2..] == "";
    assert PathParagraphs("~/") == [];
    assert Lift(rule.staticValues) == [Entry("Test", Some("Default"))];
    assert GetRouteValuesSpec(rule, Some("~/"), []) == Ok(Some([Entry("Test", Some("Default"))]));
    var r := Route([rule], Some("GET"), Some("~/"), []);
    assert AcceptsVerb(rule, Some("GET"));
    assert r.Ok? && r.value.Some?;
  }

  // ---------------------------------------------------------------------------------------------
  // Reverse: GetVirtualPath and BestRule

  /** Enumerable.Where: the elements that pass, in their order. */
  function Filter(s: seq<Rule>, keep: Rule -> bool): (r: seq<Rule>)
    ensures |r| <= |s|
    ensures forall x :: x in r <==> x in s && keep(x)
  {
    if |s| == 0 then []
    else
      assert s == [s[0]] + s[1..];
      (if keep(s[0]) then [s[0]] else []) + Filter(s[1..], keep)
  }

  /** The four Where clauses of GetVirtualPath: the rule is not one-way; every route key is
      supplied; every supplied key is a key of the rule, unless the rule takes any query key; and
      every static value is matched. */
  predicate Candidate(rule: Rule, values: VirtualPaths.RouteValues): (r: bool)
    ensures r ==> rule.verb.None? || EqualsIgnoreCase(rule.verb.value, "GET")
    ensures r ==> forall k :: k in rule.routeKeys ==> Find(values, k).Some?
  {
    && !Oneway(rule)
    && (forall i :: 0 <= i < |rule.routeKeys| ==> HasKey(KeysOf(values), rule.routeKeys[i]))
    && ((forall i :: 0 <= i < |values| ==> HasKey(rule.allKeys, values[i].key)) || !rule.limitedQueries)
    && IsMatch(rule, Some(values)) == Ok(true)
  }

  /** The candidates, in registration order. */
  function Candidates(rules: seq<Rule>, values: VirtualPaths.RouteValues): (c: seq<Rule>)
    ensures forall x :: x in c <==> x in rules && Candidate(x, values)
  {
    if |rules| == 0 then []
    else
      assert rules == [rules[0]] + rules[1..];
      (if Candidate(rules[0], values) then [rules[0]] else []) + Candidates(rules[1..], values)
  }

  /** The highest score among the elements. */
  function MaxOf(c: seq<Rule>, score: Rule -> int): (m: int)
    requires |c| > 0
    ensures forall x :: x in c ==> score(x) <= m
    ensures exists x :: x in c && score(x) == m
  {
    if |c| == 1 then score(c[0])
    else
      assert c == [c[0]] + c[1..];
      var m := MaxOf(c[1..], score);
      if score(c[0]) >= m then score(c[0]) else m
  }

  /** GroupBy(score).OrderByDescending(group => group.Key).First(): the elements whose score no
      other element exceeds. */
  function KeepHighest(c: seq<Rule>, score: Rule -> int): (r: seq<Rule>)
    requires |c| > 0
    ensures 0 < |r| <= |c|
    ensures forall x :: x in r <==> x in c && forall y :: y in c ==> score(y) <= score(x)
  {
    var m := MaxOf(c, score);
    var r := Filter(c, x => score(x) == m);
    var w :| w in c && score(w) == m;
    assert w in r;
    r
  }

  function StaticValueCount(rule: Rule): int {
    |rule.staticValues|
  }

  function RouteKeyCount(rule: Rule): int {
    |rule.routeKeys|
  }

  /** Fewest dynamic keys first: OrderBy on the count is OrderByDescending on its negation. */
  function FewerDynamicKeys(rule: Rule): int {
    -|rule.dynamicKeys|
  }

  /** r.Verb != null && r.Verb.Equals("GET", OrdinalIgnoreCase) */
  predicate IsGet(rule: Rule) {
    rule.verb.Some? && EqualsIgnoreCase(rule.verb.value, "GET")
  }

  /** BestRule: the candidates with the most static values, of those the ones with the most route
      keys, of those the ones with the fewest dynamic keys, of those the GET rules; a rule is
      returned as soon as it is the only one left, and null when the GET step does not leave
      exactly one. */
  function BestRule(candidates: seq<Rule>): (r: Option<Rule>)
    requires |candidates| > 0
    ensures r.Some? ==> r.value in candidates
  {
    var c1 := KeepHighest(candidates, StaticValueCount);
    assert c1[0] in c1;
    if |c1| == 1 then Some(c1[0])
    else
      var c2 := KeepHighest(c1, RouteKeyCount);
      assert c2[0] in c2;
      if |c2| == 1 then Some(c2[0])
      else
        var c3 := KeepHighest(c2, FewerDynamicKeys);
        assert c3[0] in c3;
        if |c3| == 1 then Some(c3[0])
        else
          var c4 := Filter(c3, IsGet);
          if |c4| == 1 then
            assert c4[0] in c4;
            Some(c4[0])
          else None
  }

  /** Rule a ranks above rule b for BestRule: more static values, or as many and more route keys,
      or as many of both and fewer dynamic keys. */
  predicate Outranks(a: Rule, b: Rule) {
    || |a.staticValues| > |b.staticValues|
    || (|a.staticValues| == |b.staticValues| && |a.routeKeys| > |b.routeKeys|)
    || (|a.staticValues| == |b.staticValues| && |a.routeKeys| == |b.routeKeys| && |a.dynamicKeys| < |b.dynamicKeys|)
  }

  /** No candidate ranks above x. */
  ghost predicate Unbeaten(c: seq<Rule>, x: Rule) {
    forall y :: y in c ==> !Outranks(y, x)
  }

  /** What is left after the first three steps when none of them returns early. */
  function Survivors(c: seq<Rule>): (s: seq<Rule>)
    requires |c| > 0
    ensures |s| > 0
    ensures forall x :: x in s ==> x in c
  {
    KeepHighest(KeepHighest(KeepHighest(c, StaticValueCount), RouteKeyCount), FewerDynamicKeys)
  }

  /** The last step: the only survivor, else the only GET survivor, else null. */
  function Choose(s: seq<Rule>): (r: Option<Rule>)
    ensures r.Some? ==> r.value in s
    ensures |s| == 1 ==> r == Some(s[0])
    ensures |s| > 1 && r.Some? ==> IsGet(r.value)
  {
    if |s| == 1 then Some(s[0])
    else
      var g := Filter(s, IsGet);
      if |g| == 1 then Some(g[0]) else None
  }

  lemma KeepSingle(c: seq<Rule>, score: Rule -> int)
    requires |c| == 1
    ensures KeepHighest(c, score) == c
  {
    var r := KeepHighest(c, score);
    assert r[0] in r;
  }

  /** The early returns do not change the outcome: a step applied to a single rule keeps it. */
  lemma BestRuleCascade(c: seq<Rule>)
    requires |c| > 0
    ensures BestRule(c) == Choose(Survivors(c))
  {
    var c1 := KeepHighest(c, StaticValueCount);
    var c2 := KeepHighest(c1, RouteKeyCount);
    if |c1| == 1 {
      KeepSingle(c1, RouteKeyCount);
      KeepSingle(c2, FewerDynamicKeys);
    } else if |c2| == 1 {
      KeepSingle(c2, FewerDynamicKeys);
    }
  }

  /** The survivors of the first three steps are exactly the candidates no candidate ranks
      above. */
  lemma SurvivorsUnbeaten(c: seq<Rule>)
    requires |c| > 0
    ensures forall x :: x in Survivors(c) <==> x in c && Unbeaten(c, x)
  {
    var c1 := KeepHighest(c, StaticValueCount);
    var c2 := KeepHighest(c1, RouteKeyCount);
    var c3 := KeepHighest(c2, FewerDynamicKeys);
    forall x | x in c3 ensures x in c && Unbeaten(c, x) {
      forall y | y in c ensures !Outranks(y, x) {
        if |y.staticValues| == |x.staticValues| {
          assert y in c1;
          if |y.routeKeys| == |x.routeKeys| {
            assert y in c2;
          }
        }
      }
    }
    forall x | x in c && Unbeaten(c, x) ensures x in c3 {
      assert x in c1;
      assert x in c2 by {
        forall y | y in c1 ensures |y.routeKeys| <= |x.routeKeys| {
          assert !Outranks(y, x);
        }
      }
      forall y | y in c2 ensures -|y.dynamicKeys| <= -|x.dynamicKeys| {
        assert !Outranks(y, x);
      }
    }
  }

  /** The rule BestRule returns is a candidate no candidate ranks above; when another such
      candidate exists, the returned rule is the only GET rule among them. */
  lemma BestRuleIsUnbeaten(c: seq<Rule>, r: Rule)
    requires |c| > 0 && BestRule(c) == Some(r)
    ensures r in c && Unbeaten(c, r)
    ensures forall x :: x in c && Unbeaten(c, x) && x != r ==> IsGet(r) && !IsGet(x)
  {
    BestRuleCascade(c);
    SurvivorsUnbeaten(c);
    ChosenSurvivor(Survivors(c), r);
  }

  /** The chosen rule is a survivor, and any other survivor is not a GET rule while it is. */
  lemma ChosenSurvivor(s: seq<Rule>, r: Rule)
    requires Choose(s) == Some(r)
    ensures r in s
    ensures forall x :: x in s && x != r ==> IsGet(r) && !IsGet(x)
  {
    if |s| == 1 {
      assert s[0] in s;
      assert forall x :: x in s ==> x == s[0];
    } else {
      var g := Filter(s, IsGet);
      assert g[0] in g;
      assert forall x :: x in g ==> x == g[0];
    }
  }

  /** BestRule returns null exactly when at least two candidates tie on all three counts at the
      top and not exactly one of them is a GET rule. */
  lemma BestRuleNull(c: seq<Rule>)
    requires |c| > 0
    ensures BestRule(c).None? <==> |Survivors(c)| > 1 && |Filter(Survivors(c), IsGet)| != 1
  {
    BestRuleCascade(c);
  }

  /** A single candidate is always chosen. */
  lemma SingleCandidate(r: Rule)
    ensures BestRule([r]) == Some(r)
  {
    KeepSingle([r], StaticValueCount);
  }

  /** The rule GetVirtualPath settles on and the virtual path it builds. */
  datatype PathChoice = PathChoice(virtualPath: string, rule: Rule)

  /** The part of GetVirtualPath between the cache lookup and the IsIgnoredPath check: null when
      no rule is a candidate; NullReferenceException when BestRule returns null; otherwise the
      virtual path the chosen rule creates, or the exception CreateVirtualPath throws. */
  function Reverse(rules: seq<Rule>, values: VirtualPaths.RouteValues): (r: Result<Option<PathChoice>, Error>)
    requires forall x :: x in rules ==> ParsePattern(x.urlPattern).Some?
    ensures r.Ok? && r.value.Some? ==> r.value.value.rule in rules
  {
    var c := Candidates(rules, values);
    if |c| == 0 then Ok(None)
    else
      match BestRule(c)
      case None => Err(NullReference)
      case Some(best) =>
        match CreateVirtualPathSpec(best, values)
        case Err(e) => Err(e)
        case Ok(path) => Ok(Some(PathChoice(path, best)))
  }

  /** When Reverse answers null or NullReferenceException: null exactly when no rule is a
      candidate, NullReferenceException exactly when BestRule finds no rule among the candidates. */
  lemma ReverseDeclines(rules: seq<Rule>, values: VirtualPaths.RouteValues)
    requires forall x :: x in rules ==> ParsePattern(x.urlPattern).Some?
    ensures Reverse(rules, values) == Ok(None) <==> forall x :: x in rules ==> !Candidate(x, values)
    ensures Reverse(rules, values) == Err(NullReference) <==>
      |Candidates(rules, values)| > 0 && BestRule(Candidates(rules, values)).None?
  {
    NoCandidates(rules, values);
    ReverseNone(rules, values);
    ReverseNull(rules, values);
  }

  lemma ReverseNull(rules: seq<Rule>, values: VirtualPaths.RouteValues)
    requires forall x :: x in rules ==> ParsePattern(x.urlPattern).Some?
    ensures Reverse(rules, values) == Err(NullReference) <==>
      |Candidates(rules, values)| > 0 && BestRule(Candidates(rules, values)).None?
  {
    var c := Candidates(rules, values);
    if |c| > 0 && BestRule(c).Some? {
      var e := CreateVirtualPathSpec(BestRule(c).value, values);
      assert e.Err? ==> e.error == KeyNotFound || e.error == Argument("routeValues");
    }
  }

  lemma ReverseNone(rules: seq<Rule>, values: VirtualPaths.RouteValues)
    requires forall x :: x in rules ==> ParsePattern(x.urlPattern).Some?
    ensures Reverse(rules, values) == Ok(None) <==> |Candidates(rules, values)| == 0
  {
    if |Candidates(rules, values)| > 0 {
      assert Reverse(rules, values).Err? || Reverse(rules, values).value.Some?;
    }
  }

  lemma NoCandidates(rules: seq<Rule>, values: VirtualPaths.RouteValues)
    ensures |Candidates(rules, values)| == 0 <==> forall x :: x in rules ==> !Candidate(x, values)
  {
    var c := Candidates(rules, values);
    if |c| > 0 {
      assert c[0] in c;
    }
  }

  /** Otherwise Reverse answers what CreateVirtualPath makes of the rule BestRule chose, a
      candidate no other candidate beats. */
  lemma ReverseChooses(rules: seq<Rule>, values: VirtualPaths.RouteValues)
    requires forall x :: x in rules ==> ParsePattern(x.urlPattern).Some?
    ensures var r := Reverse(rules, values);
      && (r.Ok? && r.value.Some? ==>
            && Candidate(r.value.value.rule, values)
            && Unbeaten(Candidates(rules, values), r.value.value.rule)
            && CreateVirtualPathSpec(r.value.value.rule, values) == Ok(r.value.value.virtualPath))
      && (r.Err? && r.error != NullReference ==>
            && |Candidates(rules, values)| > 0
            && BestRule(Candidates(rules, values)).Some?
            && CreateVirtualPathSpec(BestRule(Candidates(rules, values)).value, values) == Err(r.error))
  {
    var r := Reverse(rules, values);
    var c := Candidates(rules, values);
    if r.Ok? && r.value.Some? {
      assert |c| > 0 && BestRule(c).Some?;
      var best := BestRule(c).value;
      assert r.value.value.rule == best;
      BestRuleIsUnbeaten(c, best);
    }
  }

  /** A candidate has every route key supplied, dynamic keys included, so CreateVirtualPath never
      throws KeyNotFoundException for it: only ArgumentException, for a dynamic value that is
      null, empty or holds a '/'. */
  lemma CandidatePathError(rule: Rule, values: VirtualPaths.RouteValues)
    requires Valid(rule) && Candidate(rule, values)
    requires CreateVirtualPathSpec(rule, values).Err?
    ensures CreateVirtualPathSpec(rule, values).error == Argument("routeValues")
  {
    DynamicKeysSupplied(rule, values);
    assert DynamicPath(rule.dynamicKeys, values).Err?;
  }

  lemma DynamicKeysSupplied(rule: Rule, values: VirtualPaths.RouteValues)
    requires Valid(rule)
    requires forall i :: 0 <= i < |rule.routeKeys| ==> HasKey(KeysOf(values), rule.routeKeys[i])
    ensures forall i :: 0 <= i < |rule.dynamicKeys| ==> HasKey(KeysOf(values), rule.dynamicKeys[i])
  {
    var n := |KeysOf(rule.staticValues)|;
    forall i | 0 <= i < |rule.dynamicKeys| ensures HasKey(KeysOf(values), rule.dynamicKeys[i]) {
      assert rule.routeKeys[n + i] == rule.dynamicKeys[i];
    }
  }

  // ---------------------------------------------------------------------------------------------
  // PreprocessVirtualPath

  /** PreprocessVirtualPath: ArgumentNullException for null; otherwise the path without its
      extension, with a '/' appended unless it is empty or already ends with one. */
  function PreprocessVirtualPath(virtualPath: Option<string>): (r: Result<string, Error>)
    ensures r.Err? <==> virtualPath.None?
    ensures r.Err? ==> r.error == ArgumentNull("virtualPath")
    ensures r.Ok? ==> r.value == "" || EndsWith(r.value, "/")
    ensures r.Ok? ==> GetExtension(r.value) == ""
    ensures r.Ok? ==> var v := virtualPath.value; var stem := v[..|v| - |GetExtension(v)|];
      StartsWith(r.value, stem) && |r.value| <= |stem| + 1
    ensures r.Ok? ==> var v := virtualPath.value; var stem := v[..|v| - |GetExtension(v)|];
      r.value == if stem == "" || EndsWith(stem, "/") then stem else stem + "/"
  {
    if virtualPath.None? then Err(ArgumentNull("virtualPath"))
    else
      var path := virtualPath.value;
      var extension := GetExtension(path);
      var stem := if |extension| > 0 then path[..|path| - |extension|] else path;
      var result := if |stem| > 0 && stem[|stem| - 1] != '/' then stem + "/" else stem;
      DirectoryHasNoExtension(result);
      Ok(result)
  }

  /** A path that is empty or ends with '/' has no extension. */
  lemma DirectoryHasNoExtension(path: string)
    requires path == "" || path[|path| - 1] == '/'
    ensures GetExtension(path) == ""
  {
  }

  /** Preprocessing a preprocessed path changes nothing. */
  lemma PreprocessIdempotent(virtualPath: string)
    requires PreprocessVirtualPath(Some(virtualPath)).Ok?
    ensures var once := PreprocessVirtualPath(Some(virtualPath)).value;
      PreprocessVirtualPath(Some(once)) == Ok(once)
  {
    var once := PreprocessVirtualPath(Some(virtualPath)).value;
    assert GetExtension(once) == "";
  }
}

/**
  * SimpleRouteRule.CreateVirtualPath: the virtual path a rule builds from route values. The static
  * prefix comes first, then "/value" for each dynamic key in order, then, after '?' and joined by
  * '&', "key=value" (both URL-encoded) for each route value that is not a route key and that the
  * rule lets into the query string.
  */
module VirtualPaths {
  import opened Wrappers
  import opened Text
  import opened Keys
  import opened UrlPattern
  import opened Framework
  import opened RouteRule

  /** Route values as CreateVirtualPath receives them: a dictionary with the OrdinalIgnoreCase
      comparer whose values may be null. */
  type RouteValues = seq<Entry<Option<string>>>

  /** A value that may stand for a dynamic segment: present, not null, not empty, no '/'. */
  predicate Usable(found: Option<Option<string>>) {
    found.Some? && found.value.Some? && found.value.value != "" && '/' !in found.value.value
  }

  /** The value a usable lookup found. */
  function UsableValue(found: Option<Option<string>>): string
    requires Usable(found)
  {
    found.value.value
  }

  /** Every key has a usable value. */
  predicate AllUsable(keys: seq<string>, values: RouteValues) {
    forall i :: 0 <= i < |keys| ==> Usable(Find(values, keys[i]))
  }

  /** The values the dynamic keys take, in key order. */
  function DynamicValues(keys: seq<string>, values: RouteValues): (r: seq<string>)
    requires AllUsable(keys, values)
    ensures |r| == |keys|
    ensures forall i :: 0 <= i < |keys| ==> r[i] == UsableValue(Find(values, keys[i]))
  {
    seq(|keys|, i requires 0 <= i < |keys| => UsableValue(Find(values, keys[i])))
  }

  /** The first loop of CreateVirtualPath: the path the dynamic keys contribute, or the exception
      raised for the first key without a usable value — KeyNotFoundException when the key is
      missing, ArgumentException("routeValues") when its value is null, empty or holds '/'. */
  function DynamicPath(keys: seq<string>, values: RouteValues): (r: Result<string, Error>)
    ensures r.Ok? <==> AllUsable(keys, values)
    ensures r.Err? ==> r.error == KeyNotFound || r.error == Argument("routeValues")
    ensures r.Err? && (forall i :: 0 <= i < |keys| ==> HasKey(KeysOf(values), keys[i])) ==> r.error == Argument("routeValues")
  {
    if |keys| == 0 then Ok("")
    else
      var init := keys[..|keys| - 1];
      var found := Find(values, keys[|keys| - 1]);
      match DynamicPath(init, values)
      case Err(e) => Err(e)
      case Ok(path) =>
        if found.None? then Err(KeyNotFound)
        else if !Usable(found) then Err(Argument("routeValues"))
        else Ok(path + "/" + UsableValue(found))
  }

  /** On success the dynamic path is "/value" for each dynamic key, in order. */
  lemma {:induction false} DynamicPathValue(keys: seq<string>, values: RouteValues)
    requires AllUsable(keys, values)
    ensures DynamicPath(keys, values) == Ok(Slashed(DynamicValues(keys, values)))
  {
    if |keys| > 0 {
      var init := keys[..|keys| - 1];
      UsableInit(keys, values);
      DynamicPathValue(init, values);
      DynamicValuesAppend(keys, values);
      var v := UsableValue(Find(values, keys[|keys| - 1]));
      SlashedSnoc(DynamicValues(init, values), v);
      DynamicPathSnoc(keys, values, Slashed(DynamicValues(init, values)));
    }
  }

  lemma UsableInit(keys: seq<string>, values: RouteValues)
    requires |keys| > 0 && AllUsable(keys, values)
    ensures AllUsable(keys[..|keys| - 1], values)
  {
    var init := keys[..|keys| - 1];
    forall i | 0 <= i < |init| ensures Usable(Find(values, init[i])) {
      assert init[i] == keys[i];
    }
  }

  /** One more usable key appends "/value" to the dynamic path. */
  lemma DynamicPathSnoc(keys: seq<string>, values: RouteValues, path: string)
    requires |keys| > 0 && Usable(Find(values, keys[|keys| - 1]))
    requires DynamicPath(keys[..|keys| - 1], values) == Ok(path)
    ensures DynamicPath(keys, values) == Ok(path + "/" + UsableValue(Find(values, keys[|keys| - 1])))
  {
  }

  lemma SlashedSnoc(a: seq<string>, v: string)
    ensures Slashed(a + [v]) == Slashed(a) + "/" + v
  {
    SlashedConcat(a, [v]);
    assert Slashed([v]) == "/" + v + Slashed([]) == "/" + v;
  }

  lemma DynamicValuesAppend(keys: seq<string>, values: RouteValues)
    requires |keys| > 0 && AllUsable(keys, values) && AllUsable(keys[..|keys| - 1], values)
    ensures DynamicValues(keys, values)
      == DynamicValues(keys[..|keys| - 1], values) + [UsableValue(Find(values, keys[|keys| - 1]))]
  {
    var init := keys[..|keys| - 1];
    forall i | 0 <= i < |init| ensures DynamicValues(keys, values)[i] == DynamicValues(init, values)[i] {
      assert init[i] == keys[i];
    }
  }

  /** On failure the exception is the one for the first key without a usable value. */
  lemma {:induction false} DynamicPathError(keys: seq<string>, values: RouteValues)
    requires !AllUsable(keys, values)
    ensures exists i :: FirstUnusable(keys, values, i)
  {
    var init := keys[..|keys| - 1];
    if !AllUsable(init, values) {
      DynamicPathError(init, values);
      var i :| FirstUnusable(init, values, i);
      FirstUnusableExtends(keys, values, i);
    } else {
      LastUnusable(keys, values);
    }
  }

  lemma FirstUnusableExtends(keys: seq<string>, values: RouteValues, i: int)
    requires |keys| > 0 && FirstUnusable(keys[..|keys| - 1], values, i)
    ensures FirstUnusable(keys, values, i)
  {
    var init := keys[..|keys| - 1];
    assert init[..i] == keys[..i] && init[i] == keys[i];
  }

  lemma LastUnusable(keys: seq<string>, values: RouteValues)
    requires |keys| > 0 && AllUsable(keys[..|keys| - 1], values) && !AllUsable(keys, values)
    ensures FirstUnusable(keys, values, |keys| - 1)
  {
    var n := |keys|;
    var init := keys[..n - 1];
    assert DynamicPath(init, values).Ok?;
    assert !Usable(Find(values, keys[n - 1])) by {
      if Usable(Find(values, keys[n - 1])) {
        forall i | 0 <= i < n ensures Usable(Find(values, keys[i])) {
          if i < n - 1 {
            assert init[i] == keys[i];
          }
        }
      }
    }
  }

  /** Key i is the first without a usable value, and the failure is the one it raises. */
  predicate FirstUnusable(keys: seq<string>, values: RouteValues, i: int) {
    && 0 <= i < |keys|
    && !Usable(Find(values, keys[i]))
    && AllUsable(keys[..i], values)
    && DynamicPath(keys, values) == Err(if Find(values, keys[i]).None? then KeyNotFound else Argument("routeValues"))
  }

  /** A key the rule puts in the query string: not a route key, and a query key unless the rule
      takes any query key. */
  predicate InQuery(rule: Rule, key: string) {
    !HasKey(rule.routeKeys, key) && (HasKey(rule.queryKeys, key) || !rule.limitedQueries)
  }

  /** The route values that go into the query string, in dictionary order. */
  function QueryEntries(rule: Rule, values: RouteValues): (r: RouteValues)
    ensures |r| <= |values|
    ensures forall i :: 0 <= i < |r| ==> r[i] in values && InQuery(rule, r[i].key)
    ensures forall i :: 0 <= i < |values| && InQuery(rule, values[i].key) ==> values[i] in r
  {
    if |values| == 0 then []
    else
      var init := values[..|values| - 1];
      var last := values[|values| - 1];
      assert values == init + [last];
      var r := QueryEntries(rule, init);
      if InQuery(rule, last.key) then r + [last] else r
  }

  /** The query keeps the dictionary's order: the entries of a concatenation are those of the
      first part followed by those of the second. */
  lemma {:induction false} QueryEntriesConcat(rule: Rule, a: RouteValues, b: RouteValues)
    ensures QueryEntries(rule, a + b) == QueryEntries(rule, a) + QueryEntries(rule, b)
  {
    if |b| == 0 {
      assert a + b == a;
    } else {
      var init := b[..|b| - 1];
      assert (a + b)[..|a + b| - 1] == a + init;
      assert (a + b)[|a + b| - 1] == b[|b| - 1];
      QueryEntriesConcat(rule, a, init);
    }
  }

  /** "key=value", both URL-encoded; a null value encodes as nothing. */
  function QueryPair(e: Entry<Option<string>>): string {
    UrlEncode(e.key) + "=" + UrlEncode(e.value.GetOr(""))
  }

  function QueryPairs(entries: RouteValues): (r: seq<string>)
    ensures |r| == |entries|
    ensures forall i :: 0 <= i < |entries| ==> r[i] == QueryPair(entries[i])
  {
    seq(|entries|, i requires 0 <= i < |entries| => QueryPair(entries[i]))
  }

  /** The second loop's output: '?' before the first pair, '&' before each later one. */
  function QueryText(entries: RouteValues): string {
    if |entries| == 0 then ""
    else
      var init := entries[..|entries| - 1];
      QueryText(init) + (if |init| == 0 then "?" else "&") + QueryPair(entries[|entries| - 1])
  }

  /** What CreateVirtualPath computes. */
  function CreateVirtualPathSpec(rule: Rule, values: RouteValues): (r: Result<string, Error>)
    requires ParsePattern(rule.urlPattern).Some?
    ensures r.Ok? <==> AllUsable(rule.dynamicKeys, values)
    ensures r.Err? ==> r.error == KeyNotFound || r.error == Argument("routeValues")
    ensures r.Ok? ==> StartsWith(r.value, StaticPrefix(rule))
  {
    match DynamicPath(rule.dynamicKeys, values)
    case Err(e) => Err(e)
    case Ok(path) => Ok(StaticPrefix(rule) + path + QueryText(QueryEntries(rule, values)))
  }

  /** CreateVirtualPath, with a string standing for the StringBuilder: the static prefix, then
      the first loop, then the second. */
  method CreateVirtualPath(rule: Rule, values: RouteValues) returns (res: Result<string, Error>)
    requires ParsePattern(rule.urlPattern).Some? && IsDict(values)
    ensures res == CreateVirtualPathSpec(rule, values)
  {
    var prefix := StaticPrefix(rule);
    var path := BuildDynamicPath(rule.dynamicKeys, values);
    if path.Err? {
      return Err(path.error);
    }
    var query := BuildQuery(rule, values);
    return Ok(prefix + path.value + query);
  }

  /** The first loop: "/value" for each dynamic key, failing on the first unusable value. */
  method BuildDynamicPath(keys: seq<string>, values: RouteValues) returns (res: Result<string, Error>)
    ensures res == DynamicPath(keys, values)
  {
    var path := "";
    var i := 0;
    while i < |keys|
      invariant 0 <= i <= |keys|
      invariant DynamicPath(keys[..i], values) == Ok(path)
    {
      var found := Find(values, keys[i]);
      DynamicPathStep(keys, values, i);
      if found.None? {
        DynamicPathPrefix(keys, values, i + 1);
        return Err(KeyNotFound);
      }
      var value := found.value;
      if value.None? || value.value == "" || '/' in value.value {
        DynamicPathPrefix(keys, values, i + 1);
        return Err(Argument("routeValues"));
      }
      path := path + "/" + value.value;
      i := i + 1;
    }
    assert keys[..i] == keys;
    return Ok(path);
  }

  /** The second loop: the route values that are not route keys and that the rule admits, as
      encoded pairs after '?' and '&'. */
  method BuildQuery(rule: Rule, values: RouteValues) returns (query: string)
    requires IsDict(values)
    ensures query == QueryText(QueryEntries(rule, values))
  {
    query := "";
    var appended := false;
    var j := 0;
    while j < |values|
      invariant 0 <= j <= |values|
      invariant query == QueryText(QueryEntries(rule, values[..j]))
      invariant appended <==> |QueryEntries(rule, values[..j])| > 0
    {
      var key := values[j].key;
      ghost var es := QueryEntries(rule, values[..j]);
      QueryStep(rule, values, j);
      if HasKey(rule.queryKeys, key) || !rule.limitedQueries {
        if !HasKey(rule.routeKeys, key) {
          FindAt(values, j, key);
          var value := Find(values, key).value;
          assert Entry(key, value) == values[j];
          var separator := if appended then "&" else "?";
          assert separator == if |es| == 0 then "?" else "&";
          appended := true;
          query := query + separator + QueryPair(Entry(key, value));
        }
      }
      j := j + 1;
    }
    assert values[..j] == values;
  }

  /** One turn of the first loop. */
  lemma DynamicPathStep(keys: seq<string>, values: RouteValues, i: int)
    requires 0 <= i < |keys| && DynamicPath(keys[..i], values).Ok?
    ensures var found := Find(values, keys[i]);
      DynamicPath(keys[..i + 1], values)
        == if found.None? then Err(KeyNotFound)
           else if !Usable(found) then Err(Argument("routeValues"))
           else Ok(DynamicPath(keys[..i], values).value + "/" + UsableValue(found))
  {
    assert keys[..i + 1][..i] == keys[..i];
  }

  /** One turn of the second loop. */
  lemma QueryStep(rule: Rule, values: RouteValues, j: int)
    requires 0 <= j < |values|
    ensures var es := QueryEntries(rule, values[..j]);
      var next := QueryEntries(rule, values[..j + 1]);
      && (InQuery(rule, values[j].key) ==>
            |next| > 0 && QueryText(next) == QueryText(es) + (if |es| == 0 then "?" else "&") + QueryPair(values[j]))
      && (!InQuery(rule, values[j].key) ==> next == es)
  {
    assert values[..j + 1][..j] == values[..j];
    var es := QueryEntries(rule, values[..j]);
    if InQuery(rule, values[j].key) {
      var t := es + [values[j]];
      assert QueryEntries(rule, values[..j + 1]) == t;
      assert t[..|t| - 1] == es && t[|t| - 1] == values[j];
      assert QueryText(t) == QueryText(es) + (if |es| == 0 then "?" else "&") + QueryPair(values[j]);
    }
  }

  /** A failure in the first keys is the failure of the whole list. */
  lemma {:induction false} DynamicPathPrefix(keys: seq<string>, values: RouteValues, n: nat)
    requires n <= |keys| && DynamicPath(keys[..n], values).Err?
    ensures DynamicPath(keys, values) == DynamicPath(keys[..n], values)
  {
    if n < |keys| {
      var init := keys[..|keys| - 1];
      assert init[..n] == keys[..n];
      DynamicPathPrefix(init, values, n);
    } else {
      assert keys[..n] == keys;
    }
  }

  /** The query text is '?' and the pairs joined by '&', or nothing when there are none. */
  lemma {:induction false} QueryTextJoin(entries: RouteValues)
    ensures QueryText(entries) == if |entries| == 0 then "" else "?" + Join("&", QueryPairs(entries))
  {
    if |entries| > 0 {
      var init := entries[..|entries| - 1];
      QueryTextJoin(init);
      QueryPairsAppend(entries);
      if |init| > 0 {
        QueryTextStep(entries);
      } else {
        assert QueryPairs(entries) == [QueryPair(entries[0])];
      }
    }
  }

  lemma QueryTextStep(entries: RouteValues)
    requires |entries| > 1
    requires var init := entries[..|entries| - 1]; QueryText(init) == "?" + Join("&", QueryPairs(init))
    requires QueryPairs(entries) == QueryPairs(entries[..|entries| - 1]) + [QueryPair(entries[|entries| - 1])]
    ensures QueryText(entries) == "?" + Join("&", QueryPairs(entries))
  {
    var pairs := QueryPairs(entries[..|entries| - 1]);
    var last := QueryPair(entries[|entries| - 1]);
    JoinAppend(pairs, last);
    assert QueryText(entries) == ("?" + Join("&", pairs)) + "&" + last;
    AppendAssoc("?" + Join("&", pairs), "&", last);
    AppendAssoc("?", Join("&", pairs), "&" + last);
    AppendAssoc(Join("&", pairs), "&", last);
  }

  lemma QueryPairsAppend(entries: RouteValues)
    requires |entries| > 0
    ensures QueryPairs(entries) == QueryPairs(entries[..|entries| - 1]) + [QueryPair(entries[|entries| - 1])]
  {
    var init := entries[..|entries| - 1];
    forall i | 0 <= i < |init| ensures QueryPairs(entries)[i] == QueryPairs(init)[i] {
      assert init[i] == entries[i];
    }
  }

  lemma {:induction false} JoinAppend(parts: seq<string>, last: string)
    requires |parts| > 0
    ensures Join("&", parts + [last]) == Join("&", parts) + "&" + last
  {
    if |parts| > 1 {
      assert (parts + [last])[1..] == parts[1..] + [last];
      JoinAppend(parts[1..], last);
    }
  }

  /** An encoded pair splits back at its one '=' into the encoded key and value. */
  lemma PairSplits(e: Entry<Option<string>>)
    ensures Split(QueryPair(e), '=') == [UrlEncode(e.key), UrlEncode(e.value.GetOr(""))]
    ensures '&' !in QueryPair(e) && '?' !in QueryPair(e) && '#' !in QueryPair(e)
  {
    var k, v := UrlEncode(e.key), UrlEncode(e.value.GetOr(""));
    assert !IsUrlSafe('=') && !IsUrlSafe('&') && !IsUrlSafe('?') && !IsUrlSafe('#');
    SplitTwo(k, '=', v);
  }

  lemma SplitTwo(a: string, c: char, b: string)
    requires c !in a && c !in b
    ensures Split(a + [c] + b, c) == [a, b]
  {
    assert Join([c], [a, b]) == a + [c] + b;
    SplitJoin([a, b], c);
  }

  /** The query string a rule appends reads back as exactly the route values it admits, in
      dictionary order: '?' then one encoded "key=value" per admitted value, separated by '&'. */
  lemma QueryReadsBack(rule: Rule, values: RouteValues)
    ensures var entries := QueryEntries(rule, values); var text := QueryText(entries);
      && (|entries| == 0 <==> text == "")
      && (|entries| > 0 ==> text[0] == '?' && Split(text[1..], '&') == QueryPairs(entries))
      && forall i :: 0 <= i < |entries| ==>
           Split(QueryPairs(entries)[i], '=') == [UrlEncode(entries[i].key), UrlEncode(entries[i].value.GetOr(""))]
  {
    var entries := QueryEntries(rule, values);
    QueryTextJoin(entries);
    forall i | 0 <= i < |entries| ensures '&' !in QueryPairs(entries)[i] {
      PairSplits(entries[i]);
    }
    if |entries| > 0 {
      SplitJoin(QueryPairs(entries), '&');
    }
    forall i | 0 <= i < |entries| ensures Split(QueryPairs(entries)[i], '=') == [UrlEncode(entries[i].key), UrlEncode(entries[i].value.GetOr(""))] {
      PairSplits(entries[i]);
    }
  }

  /** A route key never reaches the query string, and a rule with a query-key list lets only
      those keys into it. */
  lemma QueryKeepsToRule(rule: Rule, values: RouteValues)
    ensures forall i :: 0 <= i < |QueryEntries(rule, values)| ==>
      var key := QueryEntries(rule, values)[i].key;
      !HasKey(rule.routeKeys, key) && (rule.limitedQueries ==> HasKey(rule.queryKeys, key))
  {
  }

  /** The virtual path begins with the rule's static prefix, continues with "/value" for each
      dynamic key and ends with the query text, which is empty or starts with '?'. It succeeds
      exactly when every dynamic key has a usable value. */
  lemma VirtualPathShape(rule: Rule, values: RouteValues)
    requires ParsePattern(rule.urlPattern).Some?
    ensures var r := CreateVirtualPathSpec(rule, values);
      && (r.Ok? <==> forall i :: 0 <= i < |rule.dynamicKeys| ==> Usable(Find(values, rule.dynamicKeys[i])))
      && (r.Ok? ==> exists q :: r.value == StaticPrefix(rule) + Slashed(DynamicValues(rule.dynamicKeys, values)) + q
                               && (q == "" || q[0] == '?'))
  {
    var r := CreateVirtualPathSpec(rule, values);
    if r.Ok? {
      var q := QueryText(QueryEntries(rule, values));
      QueryTextJoin(QueryEntries(rule, values));
      DynamicPathValue(rule.dynamicKeys, values);
      assert r.value == StaticPrefix(rule) + Slashed(DynamicValues(rule.dynamicKeys, values)) + q;
    }
  }
}

/**
  * What the route values GetRouteValues reads mean. A rule applies to a request exactly when the
  * query keys pass the rule's test, the path has as many paragraphs as the pattern and every
  * static paragraph equals the path's ignoring case; the values then bind each dynamic name to the
  * path paragraph at its position and each request query key to its values.
  */
module RouteReading {
  import opened Wrappers
  import opened Text
  import opened Keys
  import opened UrlPattern
  import opened RouteRule
  import opened VirtualPaths
  import opened HttpExtensions
  import opened RouteValues

  /** Every static segment equals the path paragraph at its position, ignoring case. */
  predicate ParagraphsAgree(segs: seq<Segment>, parts: seq<string>)
    requires |segs| == |parts|
  {
    forall i :: 0 <= i < |segs| && segs[i].Static? ==> EqualsIgnoreCase(parts[i], segs[i].text)
  }

  /** The conditions under which the rule applies to a request on an app-relative path. */
  predicate Applies(rule: Rule, path: string, queries: Query)
    requires StartsWith(path, "~/")
  {
    var parts := PathParagraphs(path);
    && (rule.limitedQueries ==> CoversKeys(rule.queryKeys, queries))
    && |parts| == |rule.paragraphs|
    && ParagraphsAgree(rule.paragraphs, parts)
    && (!rule.limitedQueries ==> !ClashesWithRoute(rule.routeKeys, queries))
  }

  lemma AgreeTail(segs: seq<Segment>, parts: seq<string>)
    requires |segs| == |parts| > 0
    ensures ParagraphsAgree(segs, parts) <==>
      (segs[0].Static? ==> EqualsIgnoreCase(parts[0], segs[0].text)) && ParagraphsAgree(segs[1..], parts[1..])
  {
    if ParagraphsAgree(segs[1..], parts[1..]) {
      forall i | 1 <= i < |segs| && segs[i].Static? ensures EqualsIgnoreCase(parts[i], segs[i].text) {
        assert segs[1..][i - 1] == segs[i] && parts[1..][i - 1] == parts[i];
      }
    }
  }

  /** The paragraph loop produces values exactly when the static paragraphs agree; otherwise it
      declines or throws. */
  lemma {:induction false} MatchSome(segs: seq<Segment>, parts: seq<string>, acc: VirtualPaths.RouteValues)
    requires |segs| == |parts|
    ensures var r := MatchParagraphs(segs, parts, acc); r.Ok? ==> (r.value.Some? <==> ParagraphsAgree(segs, parts))
  {
    if |segs| > 0 {
      AgreeTail(segs, parts);
      match segs[0]
      case Static(_) => MatchSome(segs[1..], parts[1..], acc);
      case Dynamic(name) =>
        var next := Add(acc, name, Some(parts[0]));
        if next.Ok? {
          MatchSome(segs[1..], parts[1..], next.value);
        }
    }
  }

  /** When no dynamic name repeats a key already held, or another dynamic name, the paragraph
      loop does not throw. */
  lemma {:induction false} MatchNoError(segs: seq<Segment>, parts: seq<string>, acc: VirtualPaths.RouteValues)
    requires |segs| == |parts|
    requires DistinctKeys(KeysOf(acc) + DynamicNames(segs))
    ensures MatchParagraphs(segs, parts, acc).Ok?
  {
    if |segs| > 0 {
      var names := DynamicNames(segs[1..]);
      match segs[0]
      case Static(_) =>
        assert DynamicNames(segs) == names;
        MatchNoError(segs[1..], parts[1..], acc);
      case Dynamic(name) =>
        assert DynamicNames(segs) == [name] + names;
        var keys := KeysOf(acc);
        var all := keys + [name] + names;
        assert all == KeysOf(acc) + DynamicNames(segs);
        NewName(keys, name, names);
        var next := Add(acc, name, Some(parts[0])).value;
        assert KeysOf(next) + names == keys + [name] + names;
        MatchNoError(segs[1..], parts[1..], next);
    }
  }

  /** A key distinct from all those before it is not among them. */
  lemma NewName(keys: seq<string>, name: string, names: seq<string>)
    requires DistinctKeys(keys + [name] + names)
    ensures !HasKey(keys, name)
  {
    var all := keys + [name] + names;
    assert all[|keys|] == name;
    assert forall j :: 0 <= j < |keys| ==> all[j] == keys[j];
  }

  /** After Dictionary.Add of a new key, the key finds the value added. */
  lemma FindAdded<V>(d: seq<Entry<V>>, k: string, v: V)
    requires !HasKey(KeysOf(d), k)
    ensures Find(d + [Entry(k, v)], k) == Some(v)
  {
    var ks := KeysOf(d + [Entry(k, v)]);
    assert ks == KeysOf(d) + [k];
    assert ks[|d|] == k;
  }

  /** A lookup that finds its key among the values so far still finds it once more values are
      appended. */
  lemma FindKept<V>(d: seq<Entry<V>>, prefix: seq<Entry<V>>, k: string)
    requires |prefix| <= |d| && d[..|prefix|] == prefix && Find(prefix, k).Some?
    ensures Find(d, k) == Find(prefix, k)
  {
    FindInPrefix(d, |prefix|, k);
  }

  /** Each dynamic name is bound to the path paragraph at its position. */
  lemma {:induction false} MatchBinds(segs: seq<Segment>, parts: seq<string>, acc: VirtualPaths.RouteValues, i: int)
    requires |segs| == |parts| && 0 <= i < |segs| && segs[i].Dynamic?
    requires MatchParagraphs(segs, parts, acc).Ok? && MatchParagraphs(segs, parts, acc).value.Some?
    ensures Find(MatchParagraphs(segs, parts, acc).value.value, segs[i].name) == Some(Some(parts[i]))
  {
    var values := MatchParagraphs(segs, parts, acc).value.value;
    assert segs[1..][..] == segs[1..];
    match segs[0]
    case Static(_) =>
      assert segs[1..][i - 1] == segs[i] && parts[1..][i - 1] == parts[i];
      MatchBinds(segs[1..], parts[1..], acc, i - 1);
    case Dynamic(name) =>
      var next := Add(acc, name, Some(parts[0])).value;
      if i == 0 {
        FindAdded(acc, name, Some(parts[0]));
        FindKept(values, next, name);
      } else {
        assert segs[1..][i - 1] == segs[i] && parts[1..][i - 1] == parts[i];
        MatchBinds(segs[1..], parts[1..], next, i - 1);
      }
  }

  /** Each request query key with values is bound to them, as StringValues converts to string. */
  lemma {:induction false} QueryBinds(params: Query, queries: Query, acc: VirtualPaths.RouteValues, j: int)
    requires 0 <= j < |params| && params[j].key.Some?
    requires |QueryLookup(queries, params[j].key.value)| > 0
    requires AddQueryValues(params, queries, acc).Ok?
    ensures var key := params[j].key.value;
      Find(AddQueryValues(params, queries, acc).value, key) == Some(StringValuesText(QueryLookup(queries, key)))
  {
    var values := AddQueryValues(params, queries, acc).value;
    var key := params[0].key;
    if key.None? || |QueryLookup(queries, key.value)| == 0 {
      assert params[1..][j - 1] == params[j];
      QueryBinds(params[1..], queries, acc, j - 1);
    } else {
      var text := StringValuesText(QueryLookup(queries, key.value));
      var next := Add(acc, key.value, text).value;
      if j == 0 {
        FindAdded(acc, key.value, text);
        FindKept(values, next, key.value);
      } else {
        assert params[1..][j - 1] == params[j];
        QueryBinds(params[1..], queries, next, j - 1);
      }
    }
  }

  /** Reading a request on an app-relative path: the rule yields values exactly when it applies,
      and otherwise declines or throws ArgumentException for a key added twice. */
  lemma AppliesIff(rule: Rule, path: string, queries: Query)
    requires StartsWith(path, "~/")
    ensures var r := GetRouteValuesSpec(rule, Some(path), queries);
      && (r.Ok? ==> (r.value.Some? <==> Applies(rule, path, queries)))
      && (r.Err? ==> r.error == Argument(""))
  {
    var parts := PathParagraphs(path);
    if |parts| == |rule.paragraphs| {
      MatchSome(rule.paragraphs, parts, Lift(rule.staticValues));
    }
  }

  /** A static paragraph that differs from the path's, ignoring case, makes the rule decline, or
      throw when a dynamic name repeats before the difference is reached; with the static keys and
      the dynamic names distinct, it declines. */
  lemma StaticMismatchDeclines(rule: Rule, path: string, queries: Query, i: int)
    requires StartsWith(path, "~/")
    requires |PathParagraphs(path)| == |rule.paragraphs|
    requires 0 <= i < |rule.paragraphs| && rule.paragraphs[i].Static?
    requires !EqualsIgnoreCase(PathParagraphs(path)[i], rule.paragraphs[i].text)
    ensures var r := GetRouteValuesSpec(rule, Some(path), queries);
      && (r == Ok(None) || r == Err(Argument("")))
      && (DistinctKeys(KeysOf(rule.staticValues) + DynamicNames(rule.paragraphs)) ==> r == Ok(None))
  {
    var parts := PathParagraphs(path);
    var statics := Lift(rule.staticValues);
    MatchSome(rule.paragraphs, parts, statics);
    if DistinctKeys(KeysOf(rule.staticValues) + DynamicNames(rule.paragraphs)) {
      assert KeysOf(statics) == KeysOf(rule.staticValues);
      MatchNoError(rule.paragraphs, parts, statics);
    }
  }

  /** The values a rule reads bind each dynamic name to the path paragraph at its position and
      each request query key with values to those values; the static paragraphs agree. */
  lemma AppliesContents(rule: Rule, path: string, queries: Query)
    requires StartsWith(path, "~/")
    requires GetRouteValuesSpec(rule, Some(path), queries).Ok?
    requires GetRouteValuesSpec(rule, Some(path), queries).value.Some?
    ensures var parts := PathParagraphs(path);
      var values := GetRouteValuesSpec(rule, Some(path), queries).value.value;
      && |parts| == |rule.paragraphs|
      && ParagraphsAgree(rule.paragraphs, parts)
      && (forall i :: 0 <= i < |parts| && rule.paragraphs[i].Dynamic? ==>
            Find(values, rule.paragraphs[i].name) == Some(Some(parts[i])))
      && (forall j :: 0 <= j < |queries| && queries[j].key.Some? && |QueryLookup(queries, queries[j].key.value)| > 0 ==>
            Find(values, queries[j].key.value) == Some(StringValuesText(QueryLookup(queries, queries[j].key.value))))
  {
    var parts := PathParagraphs(path);
    var statics := Lift(rule.staticValues);
    var values := GetRouteValuesSpec(rule, Some(path), queries).value.value;
    AppliesIff(rule, path, queries);
    var matched := MatchParagraphs(rule.paragraphs, parts, statics).value.value;
    assert AddQueryValues(queries, queries, matched) == Ok(values);
    forall i | 0 <= i < |parts| && rule.paragraphs[i].Dynamic?
      ensures Find(values, rule.paragraphs[i].name) == Some(Some(parts[i]))
    {
      MatchBinds(rule.paragraphs, parts, statics, i);
      FindKept(values, matched, rule.paragraphs[i].name);
    }
    forall j | 0 <= j < |queries| && queries[j].key.Some? && |QueryLookup(queries, queries[j].key.value)| > 0
      ensures Find(values, queries[j].key.value) == Some(StringValuesText(QueryLookup(queries, queries[j].key.value)))
    {
      QueryBinds(queries, queries, matched, j);
    }
  }
}

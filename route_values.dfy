/**
  * SimpleRouteRule.GetRouteValues: reading a request against a rule. The app-relative path is
  * normalised (runs of '/' collapsed, the extension of its last segment removed, the "~/" root and
  * trailing '/' dropped) and split into paragraphs; the rule applies when the paragraphs line up
  * with its pattern, static ones equal ignoring case. The route values are then the rule's static
  * values, one value per dynamic paragraph, and the request's query parameters.
  */
module RouteValues {
  import opened Wrappers
  import opened Text
  import opened Keys
  import opened UrlPattern
  import opened Framework
  import opened RouteRule
  import opened VirtualPaths
  import opened HttpExtensions

  /** The extension Path.GetExtension finds never reaches back into the "~/" root. */
  lemma ExtensionAfterRoot(path: string)
    requires StartsWith(path, "~/")
    ensures |path| - |GetExtension(path)| >= 2
  {
    var ext := GetExtension(path);
    var start := |path| - |ext|;
    assert forall k :: start <= k < |path| ==> path[k] == ext[k - start];
    assert path[1] == '/';
  }

  /** The path after "~/" with runs of '/' collapsed, the last segment's extension removed and
      trailing '/' trimmed. */
  function PathBody(virtualPath: string): string
    requires StartsWith(virtualPath, "~/")
  {
    var collapsed := CollapseSlashes(virtualPath);
    CollapseKeepsRoot(virtualPath);
    var ext := GetExtension(collapsed);
    ExtensionAfterRoot(collapsed);
    var stripped := if |ext| > 0 then collapsed[..|collapsed| - |ext|] else collapsed;
    TrimEnd(stripped[2..], '/')
  }

  /** The request's path paragraphs: none for the root, otherwise the body split at '/'. */
  function PathParagraphs(virtualPath: string): (parts: seq<string>)
    requires StartsWith(virtualPath, "~/")
    ensures forall i :: 0 <= i < |parts| ==> '/' !in parts[i]
  {
    var body := PathBody(virtualPath);
    if body == "" then [] else Split(body, '/')
  }

  /** The loop over the paragraphs: a static paragraph must equal the path's ignoring case (else
      the rule does not apply, None); a dynamic one adds its name and the path's paragraph to the
      values, and a name already there makes Dictionary.Add throw. */
  function MatchParagraphs(segs: seq<Segment>, parts: seq<string>, acc: RouteValues): (r: Result<Option<RouteValues>, Error>)
    requires |segs| == |parts|
    ensures r.Err? ==> r.error == Argument("")
    ensures r.Ok? && r.value.Some? ==> |acc| <= |r.value.value| && r.value.value[..|acc|] == acc
  {
    if |segs| == 0 then Ok(Some(acc))
    else
      match segs[0]
      case Static(text) =>
        if !EqualsIgnoreCase(parts[0], text) then Ok(None)
        else MatchParagraphs(segs[1..], parts[1..], acc)
      case Dynamic(name) =>
        match Add(acc, name, Some(parts[0]))
        case Err(e) => Err(e)
        case Ok(next) =>
          var r := MatchParagraphs(segs[1..], parts[1..], next);
          assert r.Ok? && r.value.Some? ==> r.value.value[..|acc|] == next[..|acc|];
          r
  }

  /** queries[key]: the values of the first parameter whose key equals `key` ignoring case, or no
      values. */
  function QueryLookup(queries: Query, key: string): seq<Option<string>> {
    if |queries| == 0 then []
    else if queries[0].key.Some? && EqualsIgnoreCase(queries[0].key.value, key) then queries[0].values
    else QueryLookup(queries[1..], key)
  }

  /** The implicit conversion of StringValues to string: a single value as it is, several joined
      by ','. */
  function StringValuesText(values: seq<Option<string>>): Option<string>
    requires |values| > 0
  {
    if |values| == 1 then values[0]
    else Some(Join(",", seq(|values|, i requires 0 <= i < |values| => values[i].GetOr(""))))
  }

  /** The loop over the query keys: a null key is skipped, a key with no values too; every other
      key is added with its values, and a key already among the values makes Dictionary.Add
      throw. */
  function AddQueryValues(params: Query, queries: Query, acc: RouteValues): (r: Result<RouteValues, Error>)
    ensures r.Err? ==> r.error == Argument("")
    ensures r.Ok? ==> |acc| <= |r.value| && r.value[..|acc|] == acc
  {
    if |params| == 0 then Ok(acc)
    else
      var key := params[0].key;
      if key.None? then AddQueryValues(params[1..], queries, acc)
      else
        var v := QueryLookup(queries, key.value);
        if |v| == 0 then AddQueryValues(params[1..], queries, acc)
        else
          match Add(acc, key.value, StringValuesText(v))
          case Err(e) => Err(e)
          case Ok(next) =>
            var r := AddQueryValues(params[1..], queries, next);
            assert r.Ok? ==> r.value[..|acc|] == next[..|acc|];
            r
  }

  /** queryKeySet.IsSupersetOf(requestQueryKeySet): every request key, null included, is a query
      key of the rule. */
  predicate CoversKeys(queryKeys: seq<string>, queries: Query) {
    forall i :: 0 <= i < |queries| ==> queries[i].key.Some? && HasKey(queryKeys, queries[i].key.value)
  }

  /** requestQueryKeySet.IntersectWith(RouteKeys).Any() */
  predicate ClashesWithRoute(routeKeys: seq<string>, queries: Query) {
    exists i :: 0 <= i < |queries| && queries[i].key.Some? && HasKey(routeKeys, queries[i].key.value)
  }

  /** What GetRouteValues computes: the route values, None when the rule does not apply, or the
      exception raised. */
  function GetRouteValuesSpec(rule: Rule, virtualPath: Option<string>, queries: Query): (r: Result<Option<RouteValues>, Error>)
    ensures r == Err(ArgumentNull("virtualPath")) <==> virtualPath.None?
    ensures r == Err(Argument("virtualPath")) <==> virtualPath.Some? && !StartsWith(virtualPath.value, "~/")
  {
    if virtualPath.None? then Err(ArgumentNull("virtualPath"))
    else if !StartsWith(virtualPath.value, "~/") then Err(Argument("virtualPath"))
    else if rule.limitedQueries && !CoversKeys(rule.queryKeys, queries) then Ok(None)
    else
      var parts := PathParagraphs(virtualPath.value);
      if |parts| != |rule.paragraphs| then Ok(None)
      else
        match MatchParagraphs(rule.paragraphs, parts, Lift(rule.staticValues))
        case Err(e) => Err(e)
        case Ok(None) => Ok(None)
        case Ok(Some(values)) =>
          if !rule.limitedQueries && ClashesWithRoute(rule.routeKeys, queries) then Ok(None)
          else
            match AddQueryValues(queries, queries, values)
            case Err(e) => Err(e)
            case Ok(all) => Ok(Some(all))
  }

  /** When a rule applies, the request's query keys are all query keys of a rule that limits them,
      and none is a route key of a rule that does not; the path has as many paragraphs as the
      pattern; and the values begin with the rule's static values. */
  lemma AppliesWhen(rule: Rule, virtualPath: Option<string>, queries: Query)
    requires GetRouteValuesSpec(rule, virtualPath, queries).Ok?
    requires GetRouteValuesSpec(rule, virtualPath, queries).value.Some?
    ensures var values := GetRouteValuesSpec(rule, virtualPath, queries).value.value;
      && StartsWith(virtualPath.value, "~/")
      && (rule.limitedQueries ==> CoversKeys(rule.queryKeys, queries))
      && (!rule.limitedQueries ==> !ClashesWithRoute(rule.routeKeys, queries))
      && |PathParagraphs(virtualPath.value)| == |rule.paragraphs|
      && |rule.staticValues| <= |values|
      && values[..|rule.staticValues|] == Lift(rule.staticValues)
  {
    var statics := Lift(rule.staticValues);
    assert StartsWith(virtualPath.value, "~/");
    assert rule.limitedQueries ==> CoversKeys(rule.queryKeys, queries);
    var parts := PathParagraphs(virtualPath.value);
    assert |parts| == |rule.paragraphs|;
    var m := MatchParagraphs(rule.paragraphs, parts, statics);
    assert m.Ok? && m.value.Some?;
    assert !rule.limitedQueries ==> !ClashesWithRoute(rule.routeKeys, queries);
    var matched := m.value.value;
    var q := AddQueryValues(queries, queries, matched);
    assert q.Ok?;
    var values := GetRouteValuesSpec(rule, virtualPath, queries).value.value;
    assert values == q.value;
    assert values[..|statics|] == matched[..|statics|];
  }

  /** GetRouteValues: the checks, then the two loops. */
  method GetRouteValues(rule: Rule, virtualPath: Option<string>, queries: Query) returns (res: Result<Option<RouteValues>, Error>)
    ensures res == GetRouteValuesSpec(rule, virtualPath, queries)
  {
    if virtualPath.None? {
      return Err(ArgumentNull("virtualPath"));
    }
    var path := virtualPath.value;
    if !StartsWith(path, "~/") {
      return Err(Argument("virtualPath"));
    }
    if rule.limitedQueries && !CoversKeys(rule.queryKeys, queries) {
      return Ok(None);
    }
    var parts := PathParagraphs(path);
    if |parts| != |rule.paragraphs| {
      return Ok(None);
    }
    var matched := MatchPath(rule.paragraphs, parts, Lift(rule.staticValues));
    if matched.Err? {
      return Err(matched.error);
    }
    if matched.value.None? {
      return Ok(None);
    }
    if !rule.limitedQueries && ClashesWithRoute(rule.routeKeys, queries) {
      return Ok(None);
    }
    var collected := CollectQueryValues(queries, matched.value.value);
    if collected.Err? {
      return Err(collected.error);
    }
    return Ok(Some(collected.value));
  }

  /** The loop over the paragraphs. */
  method MatchPath(segs: seq<Segment>, parts: seq<string>, statics: RouteValues) returns (res: Result<Option<RouteValues>, Error>)
    requires |segs| == |parts|
    ensures res == MatchParagraphs(segs, parts, statics)
  {
    var values := statics;
    var i := 0;
    while i < |parts|
      invariant 0 <= i <= |parts|
      invariant MatchParagraphs(segs, parts, statics) == MatchParagraphs(segs[i..], parts[i..], values)
    {
      assert segs[i..][1..] == segs[i + 1..] && parts[i..][1..] == parts[i + 1..];
      match segs[i] {
        case Static(text) =>
          if !EqualsIgnoreCase(parts[i], text) {
            return Ok(None);
          }
        case Dynamic(name) =>
          var added := Add(values, name, Some(parts[i]));
          if added.Err? {
            return Err(added.error);
          }
          values := added.value;
      }
      i := i + 1;
    }
    return Ok(Some(values));
  }

  /** The loop over the query keys. */
  method CollectQueryValues(queries: Query, matched: RouteValues) returns (res: Result<RouteValues, Error>)
    ensures res == AddQueryValues(queries, queries, matched)
  {
    var values := matched;
    var j := 0;
    while j < |queries|
      invariant 0 <= j <= |queries|
      invariant AddQueryValues(queries, queries, matched) == AddQueryValues(queries[j..], queries, values)
    {
      assert queries[j..][1..] == queries[j + 1..];
      var key := queries[j].key;
      if key.Some? {
        var v := QueryLookup(queries, key.value);
        if |v| > 0 {
          var added := Add(values, key.value, StringValuesText(v));
          if added.Err? {
            return Err(added.error);
          }
          values := added.value;
        }
      }
      j := j + 1;
    }
    return Ok(values);
  }

  /** A lookup of a key the first entries hold is not affected by what follows them. */
  lemma FindInPrefix<V>(d: seq<Entry<V>>, n: nat, k: string)
    requires n <= |d| && HasKey(KeysOf(d[..n]), k)
    ensures Find(d, k) == Find(d[..n], k)
  {
    assert KeysOf(d[..n]) == KeysOf(d)[..n];
    PrefixIndex(KeysOf(d), n, k);
  }

  lemma {:induction false} PrefixIndex(ks: seq<string>, n: nat, k: string)
    requires n <= |ks| && HasKey(ks[..n], k)
    ensures IndexOfKey(ks, k) == IndexOfKey(ks[..n], k)
  {
    if Fold(ks[0]) != Fold(k) {
      assert ks[..n][1..] == ks[1..][..n - 1];
      PrefixIndex(ks[1..], n - 1, k);
    }
  }

  /** The route values a rule reads from a request satisfy that rule: every static value is there,
      as IsMatch requires. */
  lemma RouteValuesSatisfyRule(rule: Rule, virtualPath: Option<string>, queries: Query)
    requires IsDict(rule.staticValues)
    requires GetRouteValuesSpec(rule, virtualPath, queries).Ok?
    requires GetRouteValuesSpec(rule, virtualPath, queries).value.Some?
    ensures IsMatch(rule, GetRouteValuesSpec(rule, virtualPath, queries).value) == Ok(true)
  {
    var values := GetRouteValuesSpec(rule, virtualPath, queries).value.value;
    var statics := rule.staticValues;
    var n := |statics|;
    AppliesWhen(rule, virtualPath, queries);
    forall i | 0 <= i < n ensures MatchesValue(statics[i].value, Find(values, statics[i].key)) {
      assert KeysOf(values[..n])[i] == statics[i].key;
      FindInPrefix(values, n, statics[i].key);
      FindAt(Lift(statics), i, statics[i].key);
    }
  }

  /** The route values a rule reads have keys distinct ignoring case, so copying them into
      RouteData.Values never throws. */
  lemma RouteValuesAreDict(rule: Rule, virtualPath: Option<string>, queries: Query)
    requires IsDict(rule.staticValues)
    requires GetRouteValuesSpec(rule, virtualPath, queries).Ok?
    requires GetRouteValuesSpec(rule, virtualPath, queries).value.Some?
    ensures IsDict(GetRouteValuesSpec(rule, virtualPath, queries).value.value)
  {
    var statics := Lift(rule.staticValues);
    assert KeysOf(statics) == KeysOf(rule.staticValues);
    var parts := PathParagraphs(virtualPath.value);
    MatchKeepsDict(rule.paragraphs, parts, statics);
    var matched := MatchParagraphs(rule.paragraphs, parts, statics).value.value;
    AddQueryKeepsDict(queries, queries, matched);
  }

  lemma {:induction false} MatchKeepsDict(segs: seq<Segment>, parts: seq<string>, acc: RouteValues)
    requires |segs| == |parts| && IsDict(acc)
    ensures var r := MatchParagraphs(segs, parts, acc); r.Ok? && r.value.Some? ==> IsDict(r.value.value)
  {
    if |segs| > 0 {
      match segs[0]
      case Static(_) => MatchKeepsDict(segs[1..], parts[1..], acc);
      case Dynamic(name) =>
        var next := Add(acc, name, Some(parts[0]));
        if next.Ok? {
          MatchKeepsDict(segs[1..], parts[1..], next.value);
        }
    }
  }

  lemma {:induction false} AddQueryKeepsDict(params: Query, queries: Query, acc: RouteValues)
    requires IsDict(acc)
    ensures var r := AddQueryValues(params, queries, acc); r.Ok? ==> IsDict(r.value)
  {
    if |params| > 0 {
      var key := params[0].key;
      if key.None? || |QueryLookup(queries, key.value)| == 0 {
        AddQueryKeepsDict(params[1..], queries, acc);
      } else {
        var next := Add(acc, key.value, StringValuesText(QueryLookup(queries, key.value)));
        if next.Ok? {
          AddQueryKeepsDict(params[1..], queries, next.value);
        }
      }
    }
  }
}

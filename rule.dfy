/**
  * A compiled routing rule (SimpleRouteRule): its pattern's segments, its static route values and
  * the key collections the constructor derives from them. A rule never changes once compiled, so
  * it is a value; `Compile` is the constructor and `CompileSpec` what it computes.
  */
module RouteRule {
  import opened Wrappers
  import opened Text
  import opened Keys
  import opened UrlPattern

  datatype Rule = Rule(
    name: string,
    urlPattern: string,
    verb: Option<string>,
    /** Stored by the constructor and never read. */
    oneway: bool,
    limitedQueries: bool,
    paragraphs: seq<Segment>,
    staticValues: seq<Entry<string>>,
    dynamicKeys: seq<string>,
    routeKeys: seq<string>,
    queryKeys: seq<string>,
    allKeys: seq<string>)

  /** The names of the dynamic segments, in pattern order, repeats included. */
  function DynamicNames(segs: seq<Segment>): (names: seq<string>)
    ensures |names| <= |segs|
    ensures forall i :: 0 <= i < |names| ==> Dynamic(names[i]) in segs
    ensures forall j :: 0 <= j < |segs| && segs[j].Dynamic? ==> segs[j].name in names
  {
    if |segs| == 0 then []
    else
      var rest := DynamicNames(segs[1..]);
      assert forall j :: 1 <= j < |segs| ==> segs[j] == segs[1..][j - 1];
      (if segs[0].Dynamic? then [segs[0].name] else []) + rest
  }

  /** new Dictionary<string, string>(values, OrdinalIgnoreCase): the copy throws on two keys
      equal ignoring case. */
  function CopyDict(values: seq<Entry<string>>): (r: Result<seq<Entry<string>>, Error>)
    ensures r.Ok? <==> IsDict(values)
    ensures r.Ok? ==> r.value == values
    ensures r.Err? ==> r.error == Argument("")
  {
    if |values| == 0 then Ok([])
    else
      var init := values[..|values| - 1];
      var last := values[|values| - 1];
      assert values == init + [last];
      assert KeysOf(values) == KeysOf(init) + [last.key];
      match CopyDict(init)
      case Err(e) => Err(e)
      case Ok(d) => Add(d, last.key, last.value)
  }

  /** Intersect(a, b, OrdinalIgnoreCase).Any() */
  predicate Overlaps(a: seq<string>, b: seq<string>) {
    exists i :: 0 <= i < |a| && HasKey(b, a[i])
  }

  /** The constructor's loop over the dynamic names: each is added to the route keys, and a name
      that already is one (a static key or an earlier name, ignoring case) makes it fail. */
  function AddKeys(keys: seq<string>, names: seq<string>): (r: Option<seq<string>>)
    ensures r.Some? <==> !Overlaps(names, keys) && DistinctKeys(names)
    ensures r.Some? ==> r.value == keys + names
  {
    if |names| == 0 then Some(keys)
    else
      var init := names[..|names| - 1];
      var last := names[|names| - 1];
      assert names == init + [last];
      SnocKeys(keys, init, last);
      HasKeyConcat(keys, init, last);
      match AddKeys(keys, init)
      case None => None
      case Some(ks) => if HasKey(ks, last) then None else Some(ks + [last])
  }

  /** How overlapping and distinctness change when one name is appended. */
  lemma SnocKeys(keys: seq<string>, init: seq<string>, last: string)
    ensures Overlaps(init + [last], keys) <==> Overlaps(init, keys) || HasKey(keys, last)
    ensures DistinctKeys(init + [last]) <==> DistinctKeys(init) && !HasKey(init, last)
  {
    var names := init + [last];
    if Overlaps(names, keys) {
      var i :| 0 <= i < |names| && HasKey(keys, names[i]);
      if i < |init| {
        assert names[i] == init[i];
      }
    }
    if Overlaps(init, keys) {
      var i :| 0 <= i < |init| && HasKey(keys, init[i]);
      assert names[i] == init[i];
    }
    if HasKey(keys, last) {
      assert names[|init|] == last;
    }
    if DistinctKeys(names) {
      forall i, j | 0 <= i < j < |init| ensures Fold(init[i]) != Fold(init[j]) {
        assert names[i] == init[i] && names[j] == init[j];
      }
      forall j | 0 <= j < |init| ensures Fold(init[j]) != Fold(last) {
        assert names[j] == init[j] && names[|init|] == last;
      }
    }
    if DistinctKeys(init) && !HasKey(init, last) {
      forall i, j | 0 <= i < j < |names| ensures Fold(names[i]) != Fold(names[j]) {
        if j == |init| {
          assert names[i] == init[i];
        } else {
          assert names[i] == init[i] && names[j] == init[j];
        }
      }
    }
  }

  /** After the pattern has matched and the static values are copied: the dynamic names are added
      to the route keys (FormatException on a clash), and the route keys must not be query keys
      (FormatException). */
  function Assemble(name: string, pattern: string, verb: Option<string>, oneway: bool, segs: seq<Segment>,
                    statics: seq<Entry<string>>, dynamics: seq<string>, queryKeys: Option<seq<string>>): Result<Rule, Error>
  {
    var qks := queryKeys.GetOr([]);
    match AddKeys(KeysOf(statics), dynamics)
    case None => Err(Format)
    case Some(routeKeys) =>
      if Overlaps(routeKeys, qks) then Err(Format)
      else Ok(Rule(name, pattern, verb, oneway, queryKeys.Some?, segs, statics, dynamics,
                   routeKeys, Distinct(qks), Distinct(routeKeys + qks)))
  }

  /** What the constructor computes: FormatException for a pattern outside the grammar,
      ArgumentException for static keys equal ignoring case, FormatException for a dynamic name
      that is a static key or for a route key that is also a query key. The dynamic names go
      through a case-insensitive HashSet first, so a name the pattern repeats is kept once and is
      not an error. */
  function CompileSpec(name: string, pattern: string, verb: Option<string>, oneway: bool,
                       values: seq<Entry<string>>, queryKeys: Option<seq<string>>): (r: Result<Rule, Error>)
    ensures r.Err? ==> r.error == Format || r.error == Argument("")
    ensures ParsePattern(pattern).None? ==> r == Err(Format)
    ensures r.Ok? ==> && r.value.name == name && r.value.urlPattern == pattern && r.value.verb == verb
                      && r.value.oneway == oneway && r.value.staticValues == values
                      && ParsePattern(pattern) == Some(r.value.paragraphs)
                      && r.value.limitedQueries == queryKeys.Some?
  {
    match ParsePattern(pattern)
    case None => Err(Format)
    case Some(segs) =>
      match CopyDict(values)
      case Err(e) => Err(e)
      case Ok(statics) => Assemble(name, pattern, verb, oneway, segs, statics, Distinct(DynamicNames(segs)), queryKeys)
  }

  /** The constructor: matches the pattern, copies the static values, then adds the dynamic names
      one by one to the route keys. */
  method Compile(name: string, pattern: string, verb: Option<string>, oneway: bool,
                 values: seq<Entry<string>>, queryKeys: Option<seq<string>>) returns (res: Result<Rule, Error>)
    ensures res == CompileSpec(name, pattern, verb, oneway, values, queryKeys)
  {
    var limited := queryKeys.Some?;
    var qks := queryKeys.GetOr([]);
    var parsed := ParsePattern(pattern);
    if parsed.None? {
      return Err(Format);
    }
    var segs := parsed.value;
    var copied := CopyDict(values);
    if copied.Err? {
      return Err(copied.error);
    }
    var statics := copied.value;
    var dynamics := Distinct(DynamicNames(segs));
    var added := AddDynamicKeys(KeysOf(statics), dynamics);
    if added.None? {
      return Err(Format);
    }
    var routeKeys := added.value;
    if Overlaps(routeKeys, qks) {
      return Err(Format);
    }
    return Ok(Rule(name, pattern, verb, oneway, limited, segs, statics, dynamics,
                   routeKeys, Distinct(qks), Distinct(routeKeys + qks)));
  }

  /** The constructor's loop: adds the dynamic names one by one to the static keys, failing on a
      name that is already among them. */
  method AddDynamicKeys(staticKeys: seq<string>, dynamics: seq<string>) returns (res: Option<seq<string>>)
    ensures res == AddKeys(staticKeys, dynamics)
  {
    var routeKeys := staticKeys;
    var i := 0;
    while i < |dynamics|
      invariant 0 <= i <= |dynamics|
      invariant AddKeys(staticKeys, dynamics[..i]) == Some(routeKeys)
    {
      var key := dynamics[i];
      assert dynamics[..i + 1][..i] == dynamics[..i];
      if HasKey(routeKeys, key) {
        AddKeysFailed(staticKeys, dynamics, i + 1);
        return None;
      }
      routeKeys := routeKeys + [key];
      i := i + 1;
    }
    assert dynamics[..i] == dynamics;
    return Some(routeKeys);
  }

  /** A clash among the first names is a clash among all of them. */
  lemma AddKeysFailed(keys: seq<string>, names: seq<string>, n: nat)
    requires n <= |names| && AddKeys(keys, names[..n]).None?
    ensures AddKeys(keys, names).None?
  {
    var p := names[..n];
    if Overlaps(p, keys) {
      var i :| 0 <= i < |p| && HasKey(keys, p[i]);
      assert names[i] == p[i];
    } else {
      var i, j :| 0 <= i < j < |p| && Fold(p[i]) == Fold(p[j]);
      assert names[i] == p[i] && names[j] == p[j];
    }
  }

  /** What every compiled rule satisfies. */
  ghost predicate Valid(rule: Rule) {
    && ParsePattern(rule.urlPattern) == Some(rule.paragraphs)
    && ValidSegments(rule.paragraphs)
    && IsDict(rule.staticValues)
    && rule.dynamicKeys == Distinct(DynamicNames(rule.paragraphs))
    && rule.routeKeys == KeysOf(rule.staticValues) + rule.dynamicKeys
    && DistinctKeys(rule.routeKeys)
    && DistinctKeys(rule.queryKeys)
    && !Overlaps(rule.routeKeys, rule.queryKeys)
    && rule.allKeys == rule.routeKeys + rule.queryKeys
    && (!rule.limitedQueries ==> rule.queryKeys == [])
  }

  /** Oneway: the rule only routes requests. It looks at the verb alone (anything but GET); the
      constructor's `oneway` argument plays no part. */
  predicate Oneway(rule: Rule): (r: bool)
    ensures rule.verb.None? ==> !r
    ensures rule.verb.Some? ==> (r <==> Fold(rule.verb.value) != "GET")
  {
    assert Fold("GET") == "GET";
    rule.verb.Some? && !EqualsIgnoreCase(rule.verb.value, "GET")
  }

  /** StaticPrefix: the pattern up to the '/' before its first '{', or the whole pattern when it
      has none. */
  function StaticPrefix(rule: Rule): (prefix: string)
    requires ParsePattern(rule.urlPattern).Some?
    ensures StartsWith(rule.urlPattern, prefix)
  {
    ParsedPatternRoot(rule.urlPattern);
    var i := IndexOfChar(rule.urlPattern, '{');
    if i < 0 then rule.urlPattern
    else rule.urlPattern[..i - 1]
  }

  /** The static prefix is the pattern without its dynamic segments: the whole pattern when there
      are none, and otherwise "~" and the static segments, which the dynamic ones then follow. */
  lemma PrefixShape(rule: Rule)
    requires ParsePattern(rule.urlPattern).Some?
    ensures var segs := ParsePattern(rule.urlPattern).value; var n := StaticCount(segs);
      && (n == |segs| ==> StaticPrefix(rule) == rule.urlPattern)
      && (n < |segs| ==>
            && StaticPrefix(rule) == "~" + Slashed(Renders(segs[..n]))
            && DropFinalNewline(rule.urlPattern) == StaticPrefix(rule) + Slashed(Renders(segs[n..])))
  {
    var p := rule.urlPattern;
    var segs := ParsePattern(p).value;
    var n := StaticCount(segs);
    ParsedPatternShape(p);
    StaticsHaveNoBrace(segs, n);
    if n == |segs| {
      NoDynamicNoBrace(p, segs);
    } else {
      DynamicShape(p, segs, n);
    }
  }

  lemma NoDynamicNoBrace(p: string, segs: seq<Segment>)
    requires ValidSegments(segs) && StaticCount(segs) == |segs|
    requires p == PatternOf(segs) || p == PatternOf(segs) + "\n"
    ensures '{' !in p
  {
    StaticsHaveNoBrace(segs, |segs|);
    if |segs| > 0 {
      PatternSlashed(segs);
      assert segs[..|segs|] == segs;
    }
  }

  lemma DynamicShape(p: string, segs: seq<Segment>, n: nat)
    requires ValidSegments(segs) && n == StaticCount(segs) && n < |segs|
    requires p == PatternOf(segs) || p == PatternOf(segs) + "\n"
    ensures var a := "~" + Slashed(Renders(segs[..n]));
      && IndexOfChar(p, '{') == |a| + 1
      && p[..|a|] == a
      && DropFinalNewline(p) == a + Slashed(Renders(segs[n..]))
  {
    StaticsHaveNoBrace(segs, n);
    var a := "~" + Slashed(Renders(segs[..n]));
    var b := Slashed(Renders(segs[n..]));
    PatternParts(segs, n);
    DynamicTail(segs, n);
    SplitAtBrace(p, a, b);
  }

  /** A pattern is "~", its static segments, then its dynamic ones. */
  lemma PatternParts(segs: seq<Segment>, n: nat)
    requires 0 <= n < |segs|
    ensures PatternOf(segs) == "~" + Slashed(Renders(segs[..n])) + Slashed(Renders(segs[n..]))
  {
    assert Renders(segs) == Renders(segs[..n]) + Renders(segs[n..]);
    SlashedConcat(Renders(segs[..n]), Renders(segs[n..]));
    PatternSlashed(segs);
  }

  /** The dynamic part of a pattern starts with "/{" and ends with "}". */
  lemma DynamicTail(segs: seq<Segment>, n: nat)
    requires ValidSegments(segs) && n == StaticCount(segs) && n < |segs|
    ensures var b := Slashed(Renders(segs[n..]));
      |b| >= 2 && b[0] == '/' && b[1] == '{' && b[|b| - 1] == '}'
  {
    var dyn := Renders(segs[n..]);
    var first, last := segs[n], segs[|segs| - 1];
    LastDynamic(segs, n);
    RenderedDynamic(first);
    RenderedDynamic(last);
    assert dyn[0] == Render(first) && dyn[|dyn| - 1] == Render(last);
    SlashedBraces(dyn);
  }

  /** In grammar order, a pattern with a dynamic segment ends with one. */
  lemma LastDynamic(segs: seq<Segment>, n: nat)
    requires ValidSegments(segs) && n == StaticCount(segs) && n < |segs|
    ensures segs[|segs| - 1].Dynamic?
  {
    if n < |segs| - 1 {
      assert segs[n].Dynamic?;
    }
  }

  lemma SlashedBraces(dyn: seq<string>)
    requires |dyn| > 0 && |dyn[0]| >= 2 && dyn[0][0] == '{'
    requires |dyn[|dyn| - 1]| > 0 && dyn[|dyn| - 1][|dyn[|dyn| - 1]| - 1] == '}'
    ensures var b := Slashed(dyn); |b| >= 2 && b[0] == '/' && b[1] == '{' && b[|b| - 1] == '}'
  {
    var b := Slashed(dyn);
    assert b == "/" + dyn[0] + Slashed(dyn[1..]);
    assert b[1] == dyn[0][0];
    LastSlashed(dyn);
  }

  lemma RenderedDynamic(seg: Segment)
    requires seg.Dynamic?
    ensures var s := Render(seg); |s| >= 2 && s[0] == '{' && s[|s| - 1] == '}'
  {
    var s := Render(seg);
    assert s == "{" + seg.name + "}";
  }

  lemma StaticsHaveNoBrace(segs: seq<Segment>, n: nat)
    requires ValidSegments(segs) && n == StaticCount(segs)
    ensures '{' !in "~" + Slashed(Renders(segs[..n]))
  {
    var statics := Renders(segs[..n]);
    forall i | 0 <= i < |statics| ensures '{' !in statics[i] {
      assert segs[..n][i] == segs[i];
      assert ValidSegment(segs[i]);
      assert !IsStaticChar('{');
    }
    SlashedNoChar(statics, '{');
  }

  lemma SplitAtBrace(p: string, a: string, b: string)
    requires '{' !in a && |b| >= 2 && b[0] == '/' && b[1] == '{' && b[|b| - 1] == '}'
    requires p == a + b || p == a + b + "\n"
    ensures IndexOfChar(p, '{') == |a| + 1
    ensures p[..|a|] == a
    ensures DropFinalNewline(p) == a + b
  {
    assert p[|a| + 1] == '{';
    assert p[..|a| + 1] == a + "/";
    assert p[..|a|] == a;
  }

  /** The last character of a slashed list is the last character of its last piece. */
  lemma {:induction false} LastSlashed(parts: seq<string>)
    requires |parts| > 0 && |parts[|parts| - 1]| > 0
    ensures var s := Slashed(parts); s[|s| - 1] == parts[|parts| - 1][|parts[|parts| - 1]| - 1]
  {
    if |parts| > 1 {
      LastSlashed(parts[1..]);
    }
  }

  /** Distinct(a + b) for a fold-distinct `a` none of whose keys is in `b`: `a`, then `b`'s keys. */
  lemma {:induction false} DistinctAppend(a: seq<string>, b: seq<string>)
    requires DistinctKeys(a)
    requires forall i :: 0 <= i < |b| ==> !HasKey(a, b[i])
    ensures Distinct(a + b) == a + Distinct(b)
  {
    if |b| == 0 {
      assert a + b == a;
    } else {
      var b' := b[..|b| - 1];
      var x := b[|b| - 1];
      assert (a + b)[..|a + b| - 1] == a + b' && (a + b)[|a + b| - 1] == x;
      DistinctSnoc(a + b);
      DistinctSnoc(b);
      DistinctAppend(a, b');
      HasKeyConcat(a, Distinct(b'), x);
      AppendAssoc(a, Distinct(b'), [x]);
    }
  }

  /** Distinct keeps the last key exactly when it is new to the distinct keys before it. */
  lemma DistinctSnoc(ks: seq<string>)
    requires |ks| > 0
    ensures var d := Distinct(ks[..|ks| - 1]); var last := ks[|ks| - 1];
      Distinct(ks) == if HasKey(d, last) then d else d + [last]
  {
  }

  lemma OverlapsSym(a: seq<string>, b: seq<string>)
    ensures Overlaps(a, b) <==> Overlaps(b, a)
  {
    if Overlaps(a, b) {
      var i :| 0 <= i < |a| && HasKey(b, a[i]);
      var j := IndexOfKey(b, a[i]);
      assert HasKey(a, b[j]) by {
        assert Fold(a[i]) == Fold(b[j]);
      }
    }
    if Overlaps(b, a) {
      var i :| 0 <= i < |b| && HasKey(a, b[i]);
      var j := IndexOfKey(a, b[i]);
      assert HasKey(b, a[j]) by {
        assert Fold(b[i]) == Fold(a[j]);
      }
    }
  }

  /** A list of keys is distinct exactly when both halves are and no key of the second half is one
      of the first. */
  lemma DistinctConcat(a: seq<string>, b: seq<string>)
    ensures DistinctKeys(a + b) <==> DistinctKeys(a) && DistinctKeys(b) && !Overlaps(b, a)
  {
    var ab := a + b;
    if DistinctKeys(ab) {
      forall i, j | 0 <= i < j < |a| ensures Fold(a[i]) != Fold(a[j]) {
        assert ab[i] == a[i] && ab[j] == a[j];
      }
      forall i, j | 0 <= i < j < |b| ensures Fold(b[i]) != Fold(b[j]) {
        assert ab[|a| + i] == b[i] && ab[|a| + j] == b[j];
      }
      forall i, k | 0 <= i < |b| && 0 <= k < |a| ensures Fold(a[k]) != Fold(b[i]) {
        assert ab[k] == a[k] && ab[|a| + i] == b[i];
      }
    }
    if DistinctKeys(a) && DistinctKeys(b) && !Overlaps(b, a) {
      forall i, j | 0 <= i < j < |ab| ensures Fold(ab[i]) != Fold(ab[j]) {
        if j < |a| {
          assert ab[i] == a[i] && ab[j] == a[j];
        } else if i < |a| {
          assert !HasKey(a, b[j - |a|]);
          assert ab[i] == a[i] && ab[j] == b[j - |a|];
        } else {
          assert ab[i] == b[i - |a|] && ab[j] == b[j - |a|];
        }
      }
    }
  }

  /** The constructor succeeds exactly when the pattern is in the grammar, the static keys are
      distinct ignoring case, no dynamic name is a static key and no route key is a query key; each
      failure raises the exception the source throws. */
  lemma CompileOutcome(name: string, pattern: string, verb: Option<string>, oneway: bool,
                       values: seq<Entry<string>>, queryKeys: Option<seq<string>>)
    ensures var r := CompileSpec(name, pattern, verb, oneway, values, queryKeys);
      && (ParsePattern(pattern).None? ==> r == Err(Format))
      && (ParsePattern(pattern).Some? && !IsDict(values) ==> r == Err(Argument("")))
      && ((ParsePattern(pattern).Some? && IsDict(values)
           && Overlaps(DynamicNames(ParsePattern(pattern).value), KeysOf(values))) ==> r == Err(Format))
      && (r.Ok? <==>
            && ParsePattern(pattern).Some?
            && IsDict(values)
            && !Overlaps(DynamicNames(ParsePattern(pattern).value), KeysOf(values))
            && !Overlaps(KeysOf(values) + DynamicNames(ParsePattern(pattern).value), queryKeys.GetOr([])))
  {
    if ParsePattern(pattern).Some? && IsDict(values) {
      var names := DynamicNames(ParsePattern(pattern).value);
      var dynamics := Distinct(names);
      OverlapsFolded(dynamics, names, KeysOf(values));
      var qks := queryKeys.GetOr([]);
      OverlapsSym(KeysOf(values) + dynamics, qks);
      OverlapsSym(KeysOf(values) + names, qks);
      OverlapsConcat(qks, KeysOf(values), dynamics);
      OverlapsConcat(qks, KeysOf(values), names);
      OverlapsFoldedRight(qks, dynamics, names);
    }
  }

  /** A pattern that repeats a dynamic name is accepted, with the name kept once, although the
      FormatException message names repeated dynamic parameter names as an error. */
  lemma RepeatedNameAccepted()
    ensures CompileSpec("r", "~/{a}/{a}", None, false, [], None).Ok?
    ensures CompileSpec("r", "~/{a}/{a}", None, false, [], None).value.dynamicKeys == ["a"]
  {
    var segs := [Dynamic("a"), Dynamic("a")];
    RepeatedNamePattern();
    assert IsDict<string>([]);
    Assembles("r", "~/{a}/{a}", None, false, [], None, segs);
    RepeatedNames();
    DistinctOfRepeated();
    AssembleRepeated(segs);
  }

  /** The constructor, once the pattern has matched and the static values are distinct. */
  lemma Assembles(name: string, pattern: string, verb: Option<string>, oneway: bool,
                  values: seq<Entry<string>>, queryKeys: Option<seq<string>>, segs: seq<Segment>)
    requires ParsePattern(pattern) == Some(segs) && IsDict(values)
    ensures CompileSpec(name, pattern, verb, oneway, values, queryKeys)
         == Assemble(name, pattern, verb, oneway, segs, values, Distinct(DynamicNames(segs)), queryKeys)
  {
  }

  lemma DistinctOfRepeated()
    ensures Distinct(["a", "a"]) == ["a"]
  {
    assert ["a", "a"][..1] == ["a"];
    assert Distinct(["a"]) == ["a"];
    assert HasKey(["a"], "a");
  }

  lemma AssembleRepeated(segs: seq<Segment>)
    ensures Assemble("r", "~/{a}/{a}", None, false, segs, [], ["a"], None).Ok?
    ensures Assemble("r", "~/{a}/{a}", None, false, segs, [], ["a"], None).value.dynamicKeys == ["a"]
  {
    assert KeysOf<string>([]) == [];
    AddOneKey();
    assert !Overlaps(["a"], []) by {
      assert !HasKey([], "a");
    }
  }

  lemma AddOneKey()
    ensures AddKeys([], ["a"]) == Some(["a"])
  {
    assert !HasKey([], "a");
    assert !Overlaps(["a"], []);
    assert DistinctKeys(["a"]);
    assert [] + ["a"] == ["a"];
  }

  lemma RepeatedNames()
    ensures DynamicNames([Dynamic("a"), Dynamic("a")]) == ["a", "a"]
  {
    var one := [Dynamic("a")];
    assert one[1..] == [];
    assert DynamicNames(one) == ["a"];
    assert [Dynamic("a"), Dynamic("a")][1..] == one;
  }

  lemma RepeatedNamePattern()
    ensures ParsePattern("~/{a}/{a}") == Some([Dynamic("a"), Dynamic("a")])
  {
    var segs := [Dynamic("a"), Dynamic("a")];
    assert ValidSegment(Dynamic("a"));
    assert Render(Dynamic("a")) == "{a}";
    assert Renders(segs) == ["{a}", "{a}"];
    assert PatternOf(segs) == "~/{a}/{a}";
    PatternRoundTrip(segs);
  }

  /** Overlapping depends only on the keys of the left list as the comparer sees them. */
  lemma OverlapsFolded(a: seq<string>, b: seq<string>, c: seq<string>)
    requires Folded(a) == Folded(b)
    ensures Overlaps(a, c) <==> Overlaps(b, c)
  {
    if Overlaps(a, c) {
      var i :| 0 <= i < |a| && HasKey(c, a[i]);
      HasKeyFolded(b, a[i]);
      var j := IndexOfKey(b, a[i]);
      HasKeyFolded(c, a[i]);
      HasKeyFolded(c, b[j]);
    }
    if Overlaps(b, c) {
      var i :| 0 <= i < |b| && HasKey(c, b[i]);
      HasKeyFolded(a, b[i]);
      var j := IndexOfKey(a, b[i]);
      HasKeyFolded(c, b[i]);
      HasKeyFolded(c, a[j]);
    }
  }

  lemma OverlapsFoldedRight(a: seq<string>, b: seq<string>, c: seq<string>)
    requires Folded(b) == Folded(c)
    ensures Overlaps(a, b) <==> Overlaps(a, c)
  {
    forall k ensures HasKey(b, k) <==> HasKey(c, k) {
      HasKeyFolded(b, k);
      HasKeyFolded(c, k);
    }
  }

  lemma OverlapsConcat(a: seq<string>, b: seq<string>, c: seq<string>)
    ensures Overlaps(a, b + c) <==> Overlaps(a, b) || Overlaps(a, c)
  {
    forall k ensures HasKey(b + c, k) <==> HasKey(b, k) || HasKey(c, k) {
      HasKeyConcat(b, c, k);
    }
  }

  /** What a compiled rule holds: the pattern's segments in order, the static values as given,
      RouteKeys = static keys + dynamic names, AllKeys = RouteKeys + QueryKeys (as key sets),
      LimitedQueries iff query keys were given, and the Valid invariant. */
  lemma CompiledRule(name: string, pattern: string, verb: Option<string>, oneway: bool,
                     values: seq<Entry<string>>, queryKeys: Option<seq<string>>)
    requires CompileSpec(name, pattern, verb, oneway, values, queryKeys).Ok?
    ensures var rule := CompileSpec(name, pattern, verb, oneway, values, queryKeys).value;
      && Valid(rule)
      && rule.name == name && rule.urlPattern == pattern && rule.verb == verb
      && rule.paragraphs == ParsePattern(pattern).value
      && rule.staticValues == values
      && Folded(rule.dynamicKeys) == Folded(DynamicNames(rule.paragraphs))
      && Folded(rule.routeKeys) == Folded(KeysOf(values)) + Folded(rule.dynamicKeys)
      && Folded(rule.queryKeys) == Folded(queryKeys.GetOr([]))
      && Folded(rule.allKeys) == Folded(rule.routeKeys) + Folded(rule.queryKeys)
      && (rule.limitedQueries <==> queryKeys.Some?)
  {
    var rule := CompileSpec(name, pattern, verb, oneway, values, queryKeys).value;
    var qks := queryKeys.GetOr([]);
    ParsedPatternShape(pattern);
    DistinctConcat(KeysOf(values), rule.dynamicKeys);
    forall i | 0 <= i < |qks| ensures !HasKey(rule.routeKeys, qks[i]) {
      OverlapsSym(rule.routeKeys, qks);
    }
    DistinctAppend(rule.routeKeys, qks);
    OverlapsFoldedRight(rule.routeKeys, qks, rule.queryKeys);
    FoldedConcat(KeysOf(values), rule.dynamicKeys);
    FoldedConcat(rule.routeKeys, rule.queryKeys);
  }

  /** A rule's static values as the nullable values of a route-value dictionary. */
  function Lift(d: seq<Entry<string>>): (r: seq<Entry<Option<string>>>)
    ensures |r| == |d| && KeysOf(r) == KeysOf(d)
    ensures forall i :: 0 <= i < |d| ==> r[i] == Entry(d[i].key, Some(d[i].value))
  {
    seq(|d|, i requires 0 <= i < |d| => Entry(d[i].key, Some(d[i].value)))
  }

  /** A value found for a static key satisfies the rule's constraint on it. */
  predicate MatchesValue(expected: string, found: Option<Option<string>>) {
    found.Some? && found.value.Some? && EqualsIgnoreCase(expected, found.value.value)
  }

  /** Every static value is supplied, equal ignoring case. */
  ghost predicate Satisfies(statics: seq<Entry<string>>, values: seq<Entry<Option<string>>>) {
    forall i :: 0 <= i < |statics| ==> MatchesValue(statics[i].value, Find(values, statics[i].key))
  }

  function MatchAll(statics: seq<Entry<string>>, values: seq<Entry<Option<string>>>): (r: bool)
    ensures r <==> Satisfies(statics, values)
  {
    if |statics| == 0 then true
    else if !MatchesValue(statics[0].value, Find(values, statics[0].key)) then false
    else
      var r := MatchAll(statics[1..], values);
      assert forall i :: 1 <= i < |statics| ==> statics[i] == statics[1..][i - 1];
      r
  }

  /** IsMatch: ArgumentNullException for null values; otherwise whether every static value is
      supplied with a value equal ignoring case. */
  function IsMatch(rule: Rule, values: Option<seq<Entry<Option<string>>>>): (r: Result<bool, Error>)
    ensures r.Err? <==> values.None?
    ensures r.Err? ==> r.error == ArgumentNull("values")
    ensures r.Ok? ==> (r.value <==> Satisfies(rule.staticValues, values.value))
  {
    match values
    case None => Err(ArgumentNull("values"))
    case Some(vs) => Ok(MatchAll(rule.staticValues, vs))
  }

  /** EqualsConstraints: ArgumentNullException for a null rule; otherwise equal static-value
      counts and IsMatch against the other rule's static values. */
  function EqualsConstraints(rule: Rule, other: Option<Rule>): (r: Result<bool, Error>)
    ensures r.Err? <==> other.None?
    ensures r.Err? ==> r.error == ArgumentNull("rule")
    ensures r.Ok? && r.value ==> |rule.staticValues| == |other.value.staticValues|
    ensures r.Ok? ==> (r.value <==> |rule.staticValues| == |other.value.staticValues|
                                     && Satisfies(rule.staticValues, Lift(other.value.staticValues)))
  {
    match other
    case None => Err(ArgumentNull("rule"))
    case Some(o) =>
      if |o.staticValues| != |rule.staticValues| then Ok(false)
      else IsMatch(rule, Some(Lift(o.staticValues)))
  }

  /** The two dictionaries hold the same keys with values equal ignoring case. */
  ghost predicate SameConstraints(a: seq<Entry<string>>, b: seq<Entry<string>>) {
    && Folded(KeysOf(a)) == Folded(KeysOf(b))
    && forall i, j :: 0 <= i < |a| && 0 <= j < |b| && Fold(a[i].key) == Fold(b[j].key)
         ==> EqualsIgnoreCase(a[i].value, b[j].value)
  }

  /** Between compiled rules EqualsConstraints means: the same static keys, with values equal
      ignoring case. */
  lemma EqualsConstraintsMeaning(a: Rule, b: Rule)
    requires IsDict(a.staticValues) && IsDict(b.staticValues)
    ensures EqualsConstraints(a, Some(b)) == Ok(SameConstraints(a.staticValues, b.staticValues))
  {
    var sa, sb := a.staticValues, b.staticValues;
    if EqualsConstraints(a, Some(b)) == Ok(true) {
      assert Folded(KeysOf(sa)) <= Folded(KeysOf(sb)) by {
        forall k | k in Folded(KeysOf(sa)) ensures k in Folded(KeysOf(sb)) {
          var x :| x in KeysOf(sa) && Fold(x) == k;
          var i :| 0 <= i < |sa| && KeysOf(sa)[i] == x;
          assert MatchesValue(sa[i].value, Find(Lift(sb), sa[i].key));
          HasKeyFolded(KeysOf(sb), x);
        }
      }
      SubsetSameCount(KeysOf(sa), KeysOf(sb));
      forall i, j | 0 <= i < |sa| && 0 <= j < |sb| && Fold(sa[i].key) == Fold(sb[j].key)
        ensures EqualsIgnoreCase(sa[i].value, sb[j].value)
      {
        assert MatchesValue(sa[i].value, Find(Lift(sb), sa[i].key));
        FindAt(Lift(sb), j, sa[i].key);
      }
    } else if SameConstraints(sa, sb) {
      DistinctKeysCount(KeysOf(sa));
      DistinctKeysCount(KeysOf(sb));
      forall i | 0 <= i < |sa| ensures MatchesValue(sa[i].value, Find(Lift(sb), sa[i].key)) {
        assert Fold(sa[i].key) in Folded(KeysOf(sa)) by { assert KeysOf(sa)[i] == sa[i].key; }
        var x :| x in KeysOf(sb) && Fold(x) == Fold(sa[i].key);
        var j :| 0 <= j < |sb| && KeysOf(sb)[j] == x;
        FindAt(Lift(sb), j, sa[i].key);
      }
      assert false;
    }
  }

  /** EqualsConstraints is symmetric between compiled rules. */
  lemma EqualsConstraintsSymmetric(a: Rule, b: Rule)
    requires IsDict(a.staticValues) && IsDict(b.staticValues)
    ensures EqualsConstraints(a, Some(b)) == EqualsConstraints(b, Some(a))
  {
    EqualsConstraintsMeaning(a, b);
    EqualsConstraintsMeaning(b, a);
  }

  /** Mutex: some key that both rules fix has values that differ ignoring case. */
  function Mutex(rule1: Rule, rule2: Rule): (r: bool)
    ensures r <==> exists i :: 0 <= i < |rule1.staticValues|
                     && Differs(rule1.staticValues[i].value, Find(rule2.staticValues, rule1.staticValues[i].key))
  {
    ConflictingKey(rule1.staticValues, rule2.staticValues)
  }

  /** The other rule fixes the key, to a value that differs ignoring case. */
  predicate Differs(value: string, found: Option<string>) {
    found.Some? && !EqualsIgnoreCase(value, found.value)
  }

  function ConflictingKey(a: seq<Entry<string>>, b: seq<Entry<string>>): (r: bool)
    ensures r <==> exists i :: 0 <= i < |a| && Differs(a[i].value, Find(b, a[i].key))
  {
    if |a| == 0 then false
    else
      var rest := ConflictingKey(a[1..], b);
      assert forall i :: 1 <= i < |a| ==> a[i] == a[1..][i - 1];
      Differs(a[0].value, Find(b, a[0].key)) || rest
  }

  lemma FindFold<V>(d: seq<Entry<V>>, k1: string, k2: string)
    requires Fold(k1) == Fold(k2)
    ensures Find(d, k1) == Find(d, k2)
  {
    IndexOfKeyFold(KeysOf(d), k1, k2);
  }

  /** Two mutually exclusive rules: no route values satisfy both. */
  lemma MutexExcludes(rule1: Rule, rule2: Rule, values: seq<Entry<Option<string>>>)
    requires IsDict(rule2.staticValues)
    requires Mutex(rule1, rule2)
    ensures !(Satisfies(rule1.staticValues, values) && Satisfies(rule2.staticValues, values))
  {
    var a, b := rule1.staticValues, rule2.staticValues;
    var i :| 0 <= i < |a| && Differs(a[i].value, Find(b, a[i].key));
    var j :| 0 <= j < |b| && Fold(b[j].key) == Fold(a[i].key) && b[j].value == Find(b, a[i].key).value;
    FindFold(values, a[i].key, b[j].key);
    if Satisfies(a, values) {
      assert MatchesValue(a[i].value, Find(values, a[i].key));
      assert !MatchesValue(b[j].value, Find(values, b[j].key));
    }
  }

  /** Mutex is symmetric between compiled rules. */
  lemma MutexSymmetric(rule1: Rule, rule2: Rule)
    requires IsDict(rule1.staticValues) && IsDict(rule2.staticValues)
    ensures Mutex(rule1, rule2) == Mutex(rule2, rule1)
  {
    MutexOneWay(rule1, rule2);
    MutexOneWay(rule2, rule1);
  }

  lemma MutexOneWay(rule1: Rule, rule2: Rule)
    requires IsDict(rule1.staticValues) && IsDict(rule2.staticValues)
    ensures Mutex(rule1, rule2) ==> Mutex(rule2, rule1)
  {
    var a, b := rule1.staticValues, rule2.staticValues;
    if Mutex(rule1, rule2) {
      var i :| 0 <= i < |a| && Differs(a[i].value, Find(b, a[i].key));
      var j :| 0 <= j < |b| && Fold(b[j].key) == Fold(a[i].key) && b[j].value == Find(b, a[i].key).value;
      FindAt(a, i, b[j].key);
      assert Differs(b[j].value, Find(a, b[j].key));
    }
  }

  /** No rule is mutually exclusive with itself. */
  lemma MutexIrreflexive(rule: Rule)
    requires IsDict(rule.staticValues)
    ensures !Mutex(rule, rule)
  {
    var a := rule.staticValues;
    forall i | 0 <= i < |a| ensures !Differs(a[i].value, Find(a, a[i].key)) {
      FindAt(a, i, a[i].key);
    }
  }
}

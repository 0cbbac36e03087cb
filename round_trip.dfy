/**
  * The router is two-way: the virtual path a rule creates from route values reads back, through
  * the same rule, as those route values. This module proves it for the path part of the virtual
  * path (the query string is covered by VirtualPaths.QueryReadsBack).
  */
module RoundTrip {
  import opened Wrappers
  import opened Text
  import opened Keys
  import opened UrlPattern
  import opened Framework
  import opened RouteRule
  import opened VirtualPaths
  import opened RouteValues

  /** Path pieces as CreateVirtualPath writes them and GetRouteValues reads them back: not empty,
      no '/', and no '.' that Path.GetExtension would take for an extension. */
  predicate PlainParts(parts: seq<string>) {
    forall i :: 0 <= i < |parts| ==> |parts[i]| > 0 && '/' !in parts[i] && '.' !in parts[i]
  }

  lemma NoDoubleSlashConcat(a: string, b: string)
    requires NoDoubleSlash(a) && NoDoubleSlash(b)
    requires |a| == 0 || |b| == 0 || a[|a| - 1] != '/' || b[0] != '/'
    ensures NoDoubleSlash(a + b)
  {
    var s := a + b;
    forall i | 0 <= i < |s| - 1 ensures !(s[i] == '/' && s[i + 1] == '/') {
      if i + 1 < |a| {
        assert s[i] == a[i] && s[i + 1] == a[i + 1];
      } else if i >= |a| {
        assert s[i] == b[i - |a|] && s[i + 1] == b[i + 1 - |a|];
      }
    }
  }

  /** "/piece" for plain pieces never holds "//" and does not end with '/'. */
  lemma {:induction false} SlashedPlain(parts: seq<string>)
    requires PlainParts(parts)
    ensures NoDoubleSlash(Slashed(parts))
    ensures '.' !in Slashed(parts)
    ensures |parts| > 0 ==> Slashed(parts)[|Slashed(parts)| - 1] != '/'
  {
    if |parts| > 0 {
      var p := parts[0];
      var rest := Slashed(parts[1..]);
      SlashedPlain(parts[1..]);
      NoDoubleSlashConcat("/", p);
      NoDoubleSlashConcat("/" + p, rest);
      assert Slashed(parts) == "/" + p + rest;
      if |parts| > 1 {
        assert rest[|rest| - 1] == Slashed(parts)[|Slashed(parts)| - 1];
      }
    }
  }

  lemma TrimEndKeeps(s: string, c: char)
    requires |s| > 0 && s[|s| - 1] != c
    ensures TrimEnd(s, c) == s
  {
  }

  /** GetRouteValues reads "~/piece/.../piece" back as its pieces. */
  lemma ParagraphsOfSlashed(parts: seq<string>)
    requires |parts| > 0 && PlainParts(parts)
    ensures StartsWith("~" + Slashed(parts), "~/")
    ensures PathParagraphs("~" + Slashed(parts)) == parts
  {
    var s := "~" + Slashed(parts);
    SlashedPlain(parts);
    SlashedJoin(parts);
    NoDoubleSlashConcat("~", Slashed(parts));
    assert CollapseSlashes(s) == s;
    assert '.' !in s;
    assert GetExtension(s) == "";
    var joined := Join("/", parts);
    assert s[2..] == joined;
    assert joined[|joined| - 1] == s[|s| - 1];
    TrimEndKeeps(joined, '/');
    assert PathBody(s) == joined;
    SplitJoin(parts, '/');
  }

  /** The root path has no paragraphs. */
  lemma RootParagraphs()
    ensures PathParagraphs("~/") == []
  {
    assert CollapseSlashes("~/") == "~/";
  }

  /** The dynamic segments for a list of names. */
  function DynamicSegments(names: seq<string>): (segs: seq<Segment>)
    ensures |segs| == |names|
    ensures forall i :: 0 <= i < |names| ==> segs[i] == Dynamic(names[i])
  {
    seq(|names|, i requires 0 <= i < |names| => Dynamic(names[i]))
  }

  /** The route values the dynamic paragraphs add, in pattern order. */
  function Entries(names: seq<string>, texts: seq<string>): (r: VirtualPaths.RouteValues)
    requires |names| == |texts|
    ensures |r| == |names| && KeysOf(r) == names
    ensures forall i :: 0 <= i < |names| ==> r[i] == Entry(names[i], Some(texts[i]))
  {
    seq(|names|, i requires 0 <= i < |names| => Entry(names[i], Some(texts[i])))
  }

  /** After its static segments, a well-ordered pattern holds exactly its dynamic names. */
  lemma {:induction false} DynamicSuffix(segs: seq<Segment>)
    requires WellOrdered(segs)
    ensures segs[StaticCount(segs)..] == DynamicSegments(DynamicNames(segs))
  {
    if |segs| > 0 {
      var rest := segs[1..];
      assert WellOrdered(rest) by {
        forall i, j | 0 <= i < j < |rest| && rest[i].Dynamic? ensures rest[j].Dynamic? {
          assert segs[i + 1] == rest[i] && segs[j + 1] == rest[j];
        }
      }
      DynamicSuffix(rest);
      DynamicSuffixStep(segs);
    }
  }

  lemma DynamicSuffixStep(segs: seq<Segment>)
    requires |segs| > 0 && WellOrdered(segs)
    requires segs[1..][StaticCount(segs[1..])..] == DynamicSegments(DynamicNames(segs[1..]))
    ensures segs[StaticCount(segs)..] == DynamicSegments(DynamicNames(segs))
  {
    var rest := segs[1..];
    if segs[0].Static? {
      StaticHead(segs);
    } else {
      if |rest| > 0 {
        assert segs[1] == rest[0];
      }
      assert [segs[0]] + rest == segs;
      DynamicHead(segs[0], rest);
    }
  }

  lemma StaticHead(segs: seq<Segment>)
    requires |segs| > 0 && segs[0].Static?
    requires segs[1..][StaticCount(segs[1..])..] == DynamicSegments(DynamicNames(segs[1..]))
    ensures segs[StaticCount(segs)..] == DynamicSegments(DynamicNames(segs))
  {
    var rest := segs[1..];
    var k := StaticCount(rest);
    assert StaticCount(segs) == 1 + k;
    assert DynamicNames(segs) == DynamicNames(rest);
    assert segs[1 + k..] == rest[k..];
  }

  lemma DynamicHead(first: Segment, rest: seq<Segment>)
    requires first.Dynamic?
    requires |rest| > 0 ==> rest[0].Dynamic?
    requires rest[StaticCount(rest)..] == DynamicSegments(DynamicNames(rest))
    ensures var segs := [first] + rest; segs[StaticCount(segs)..] == DynamicSegments(DynamicNames(segs))
  {
    var segs := [first] + rest;
    assert segs[1..] == rest;
    assert StaticCount(rest) == 0;
    assert DynamicNames(segs) == [first.name] + DynamicNames(rest);
    var names := DynamicNames(rest);
    DynamicSegmentsCons(first.name, names);
  }

  lemma DynamicSegmentsCons(name: string, names: seq<string>)
    ensures DynamicSegments([name] + names) == [Dynamic(name)] + DynamicSegments(names)
  {
    var a := DynamicSegments([name] + names);
    var b := [Dynamic(name)] + DynamicSegments(names);
    forall i | 0 <= i < |a| ensures a[i] == b[i] {
      if i > 0 {
        assert ([name] + names)[i] == names[i - 1];
      }
    }
  }

  /** Static paragraphs spelled as the pattern spells them are passed over. */
  lemma {:induction false} MatchStatics(segs: seq<Segment>, parts: seq<string>, acc: VirtualPaths.RouteValues, n: nat)
    requires |segs| == |parts| && n <= |segs|
    requires forall i :: 0 <= i < n ==> segs[i] == Static(parts[i])
    ensures MatchParagraphs(segs, parts, acc) == MatchParagraphs(segs[n..], parts[n..], acc)
  {
    if n > 0 {
      assert segs[1..][n - 1..] == segs[n..] && parts[1..][n - 1..] == parts[n..];
      assert EqualsIgnoreCase(parts[0], segs[0].text);
      MatchStatics(segs[1..], parts[1..], acc, n - 1);
    }
  }

  /** Dynamic paragraphs under distinct new names add one entry each, in order. */
  lemma {:induction false} MatchDynamics(names: seq<string>, texts: seq<string>, acc: VirtualPaths.RouteValues)
    requires |names| == |texts|
    requires DistinctKeys(KeysOf(acc) + names)
    ensures MatchParagraphs(DynamicSegments(names), texts, acc) == Ok(Some(acc + Entries(names, texts)))
  {
    if |names| > 0 {
      var next := acc + [Entry(names[0], Some(texts[0]))];
      FirstNameNew(acc, names);
      MatchDynamicStep(names, texts, acc);
      KeysStep(acc, names[0], Some(texts[0]), names);
      EntriesStep(acc, names, texts);
      MatchDynamics(names[1..], texts[1..], next);
    } else {
      assert acc + Entries(names, texts) == acc;
    }
  }

  /** The first name's entry, then the entries of the other names, are the entries of all. */
  lemma EntriesStep(acc: VirtualPaths.RouteValues, names: seq<string>, texts: seq<string>)
    requires |names| == |texts| && |names| > 0
    ensures (acc + [Entry(names[0], Some(texts[0]))]) + Entries(names[1..], texts[1..]) == acc + Entries(names, texts)
  {
    EntriesCons(names, texts);
    AppendAssoc(acc, [Entry(names[0], Some(texts[0]))], Entries(names[1..], texts[1..]));
  }

  /** Adding the first name's entry moves that name from the names still to come into the keys. */
  lemma KeysStep(acc: VirtualPaths.RouteValues, name: string, v: Option<string>, names: seq<string>)
    requires |names| > 0 && names[0] == name
    ensures KeysOf(acc + [Entry(name, v)]) + names[1..] == KeysOf(acc) + names
  {
    KeysOfConcat(acc, [Entry(name, v)]);
    assert KeysOf([Entry(name, v)]) == [name];
    assert [name] + names[1..] == names;
  }

  lemma EntriesCons(names: seq<string>, texts: seq<string>)
    requires |names| == |texts| && |names| > 0
    ensures Entries(names, texts) == [Entry(names[0], Some(texts[0]))] + Entries(names[1..], texts[1..])
  {
    var r := [Entry(names[0], Some(texts[0]))] + Entries(names[1..], texts[1..]);
    forall i | 0 <= i < |names| ensures r[i] == Entry(names[i], Some(texts[i])) {
      if i > 0 {
        assert r[i] == Entries(names[1..], texts[1..])[i - 1];
      }
    }
  }

  lemma FirstNameNew(acc: VirtualPaths.RouteValues, names: seq<string>)
    requires |names| > 0 && DistinctKeys(KeysOf(acc) + names)
    ensures !HasKey(KeysOf(acc), names[0])
  {
    var ks := KeysOf(acc) + names;
    forall j | 0 <= j < |acc| ensures Fold(KeysOf(acc)[j]) != Fold(names[0]) {
      assert ks[j] == KeysOf(acc)[j] && ks[|acc|] == names[0];
    }
  }

  /** A first dynamic paragraph under a new name adds its entry and leaves the rest to match. */
  lemma MatchDynamicStep(names: seq<string>, texts: seq<string>, acc: VirtualPaths.RouteValues)
    requires |names| == |texts| && |names| > 0 && !HasKey(KeysOf(acc), names[0])
    ensures MatchParagraphs(DynamicSegments(names), texts, acc)
      == MatchParagraphs(DynamicSegments(names[1..]), texts[1..], acc + [Entry(names[0], Some(texts[0]))])
  {
    var segs := DynamicSegments(names);
    assert Add(acc, names[0], Some(texts[0])) == Ok(acc + [Entry(names[0], Some(texts[0]))]);
    assert segs[0] == Dynamic(names[0]);
    assert segs[1..] == DynamicSegments(names[1..]);
  }

  /** The paragraphs of the virtual path a rule creates: its static segments, then the values of
      its dynamic keys. */
  function PathTexts(rule: Rule, values: VirtualPaths.RouteValues): seq<string>
    requires AllUsable(rule.dynamicKeys, values)
  {
    var n := StaticCount(rule.paragraphs);
    Renders(rule.paragraphs[..n]) + DynamicValues(rule.dynamicKeys, values)
  }

  /** A compiled rule whose pattern has no final newline and repeats no dynamic name, and route
      values for which CreateVirtualPath succeeds with an empty query string. */
  ghost predicate Creates(rule: Rule, values: VirtualPaths.RouteValues) {
    && Valid(rule)
    && rule.urlPattern == PatternOf(rule.paragraphs)
    && DistinctKeys(DynamicNames(rule.paragraphs))
    && AllUsable(rule.dynamicKeys, values)
    && QueryEntries(rule, values) == []
  }

  /** The virtual path CreateVirtualPath builds is "~" followed by "/paragraph" for each of the
      rule's static segments and dynamic values, or the root when there are none. */
  lemma CreatedPath(rule: Rule, values: VirtualPaths.RouteValues)
    requires ParsePattern(rule.urlPattern) == Some(rule.paragraphs)
    requires rule.urlPattern == PatternOf(rule.paragraphs)
    requires WellOrdered(rule.paragraphs)
    requires rule.dynamicKeys == DynamicNames(rule.paragraphs)
    requires AllUsable(rule.dynamicKeys, values)
    requires QueryEntries(rule, values) == []
    ensures var parts := PathTexts(rule, values);
      && |parts| == |rule.paragraphs|
      && CreateVirtualPathSpec(rule, values) == Ok(if |parts| == 0 then "~/" else "~" + Slashed(parts))
  {
    var segs := rule.paragraphs;
    var n := StaticCount(segs);
    var dv := DynamicValues(rule.dynamicKeys, values);
    DynamicSuffix(segs);
    assert |dv| == |segs| - n;
    CreatedPathText(rule, values);
    var prefix := StaticPrefix(rule);
    PrefixShape(rule);
    if n < |segs| {
      DynamicPart(prefix, Renders(segs[..n]), dv);
    } else {
      assert segs[..n] == segs;
      StaticOnlyPath(segs, prefix, dv);
    }
  }

  /** With every dynamic key usable and no query entries, CreateVirtualPath yields the static
      prefix followed by the dynamic values. */
  lemma CreatedPathText(rule: Rule, values: VirtualPaths.RouteValues)
    requires ParsePattern(rule.urlPattern).Some?
    requires AllUsable(rule.dynamicKeys, values)
    requires QueryEntries(rule, values) == []
    ensures CreateVirtualPathSpec(rule, values)
      == Ok(StaticPrefix(rule) + Slashed(DynamicValues(rule.dynamicKeys, values)) + "")
  {
    DynamicPathValue(rule.dynamicKeys, values);
    assert QueryText([]) == "";
  }

  lemma StaticOnlyPath(segs: seq<Segment>, prefix: string, dv: seq<string>)
    requires prefix == PatternOf(segs) && dv == []
    ensures var parts := Renders(segs) + dv;
      prefix + Slashed(dv) + "" == if |parts| == 0 then "~/" else "~" + Slashed(parts)
  {
    assert Renders(segs) + dv == Renders(segs);
    if |segs| > 0 {
      PatternSlashed(segs);
    }
  }

  lemma DynamicPart(prefix: string, texts: seq<string>, dv: seq<string>)
    requires prefix == "~" + Slashed(texts) && |dv| > 0
    ensures var parts := texts + dv;
      prefix + Slashed(dv) + "" == if |parts| == 0 then "~/" else "~" + Slashed(parts)
  {
    SlashedConcat(texts, dv);
  }

  /** Reading the created path back through the rule yields its static values, then one value per
      dynamic key, in pattern order. */
  lemma ReadBack(rule: Rule, values: VirtualPaths.RouteValues)
    requires ParsePattern(rule.urlPattern) == Some(rule.paragraphs)
    requires rule.urlPattern == PatternOf(rule.paragraphs)
    requires WellOrdered(rule.paragraphs)
    requires rule.dynamicKeys == DynamicNames(rule.paragraphs)
    requires rule.routeKeys == KeysOf(rule.staticValues) + rule.dynamicKeys
    requires DistinctKeys(rule.routeKeys)
    requires AllUsable(rule.dynamicKeys, values)
    requires QueryEntries(rule, values) == []
    requires PlainParts(PathTexts(rule, values))
    ensures CreateVirtualPathSpec(rule, values).Ok?
    ensures GetRouteValuesSpec(rule, Some(CreateVirtualPathSpec(rule, values).value), [])
      == Ok(Some(Lift(rule.staticValues) + Entries(rule.dynamicKeys, DynamicValues(rule.dynamicKeys, values))))
  {
    var parts := PathTexts(rule, values);
    var acc := Lift(rule.staticValues);
    CreatedPath(rule, values);
    var path := CreateVirtualPathSpec(rule, values).value;
    if |parts| == 0 {
      RootParagraphs();
    } else {
      ParagraphsOfSlashed(parts);
    }
    assert StartsWith(path, "~/") && PathParagraphs(path) == parts;
    var dv := DynamicValues(rule.dynamicKeys, values);
    MatchCreated(rule.paragraphs, dv, acc);
    ReadMatched(rule, path, acc + Entries(rule.dynamicKeys, dv));
  }

  /** With no query parameters, a path whose paragraphs match yields what the match collected. */
  lemma ReadMatched(rule: Rule, path: string, matched: VirtualPaths.RouteValues)
    requires StartsWith(path, "~/") && |PathParagraphs(path)| == |rule.paragraphs|
    requires MatchParagraphs(rule.paragraphs, PathParagraphs(path), Lift(rule.staticValues)) == Ok(Some(matched))
    ensures GetRouteValuesSpec(rule, Some(path), []) == Ok(Some(matched))
  {
    assert !ClashesWithRoute(rule.routeKeys, []) && CoversKeys(rule.queryKeys, []);
    assert AddQueryValues([], [], matched) == Ok(matched);
  }

  /** The paragraphs of a created path match the pattern they were created from. */
  lemma MatchCreated(segs: seq<Segment>, dv: seq<string>, acc: VirtualPaths.RouteValues)
    requires WellOrdered(segs)
    requires |dv| == |DynamicNames(segs)|
    requires DistinctKeys(KeysOf(acc) + DynamicNames(segs))
    ensures var parts := Renders(segs[..StaticCount(segs)]) + dv;
      && |parts| == |segs|
      && MatchParagraphs(segs, parts, acc) == Ok(Some(acc + Entries(DynamicNames(segs), dv)))
  {
    var n := StaticCount(segs);
    var names := DynamicNames(segs);
    var parts := Renders(segs[..n]) + dv;
    DynamicSuffix(segs);
    assert |segs[n..]| == |names|;
    forall i | 0 <= i < n ensures segs[i] == Static(parts[i]) {
      assert parts[i] == Render(segs[..n][i]);
      assert segs[..n][i] == segs[i];
    }
    MatchStatics(segs, parts, acc, n);
    assert parts[n..] == dv;
    MatchDynamics(names, dv, acc);
  }

  /** The two directions of the router agree: for a compiled rule whose pattern names no dynamic
      key twice, and route values that give each dynamic key a value without '/' or '.' and leave
      nothing for the query string, GetRouteValues reads the virtual path CreateVirtualPath builds back as the
      rule's static values and exactly the values given for the dynamic keys, and they satisfy the
      rule. */
  lemma VirtualPathRoundTrip(rule: Rule, values: VirtualPaths.RouteValues)
    requires Creates(rule, values)
    requires forall i :: 0 <= i < |rule.paragraphs| && rule.paragraphs[i].Static? ==> '.' !in rule.paragraphs[i].text
    requires forall i :: 0 <= i < |rule.dynamicKeys| ==> '.' !in DynamicValues(rule.dynamicKeys, values)[i]
    ensures CreateVirtualPathSpec(rule, values).Ok?
    ensures var read := GetRouteValuesSpec(rule, Some(CreateVirtualPathSpec(rule, values).value), []);
      && read.Ok? && read.value.Some?
      && IsDict(read.value.value)
      && KeysOf(read.value.value) == rule.routeKeys
      && (forall i :: 0 <= i < |rule.dynamicKeys| ==>
            Find(read.value.value, rule.dynamicKeys[i]) == Find(values, rule.dynamicKeys[i]))
      && IsMatch(rule, read.value) == Ok(true)
  {
    assert rule.dynamicKeys == DynamicNames(rule.paragraphs);
    PlainPathTexts(rule, values);
    ReadBack(rule, values);
    var path := CreateVirtualPathSpec(rule, values).value;
    ReadValues(rule.staticValues, rule.dynamicKeys, values);
    RouteValuesSatisfyRule(rule, Some(path), []);
  }

  /** The created paragraphs are plain when the static segments and the dynamic values hold no
      '.'. */
  lemma PlainPathTexts(rule: Rule, values: VirtualPaths.RouteValues)
    requires ValidSegments(rule.paragraphs)
    requires AllUsable(rule.dynamicKeys, values)
    requires forall i :: 0 <= i < |rule.paragraphs| && rule.paragraphs[i].Static? ==> '.' !in rule.paragraphs[i].text
    requires forall i :: 0 <= i < |rule.dynamicKeys| ==> '.' !in DynamicValues(rule.dynamicKeys, values)[i]
    ensures PlainParts(PathTexts(rule, values))
  {
    var segs := rule.paragraphs;
    var n := StaticCount(segs);
    var dv := DynamicValues(rule.dynamicKeys, values);
    var parts := PathTexts(rule, values);
    forall i | 0 <= i < |parts| ensures |parts[i]| > 0 && '/' !in parts[i] && '.' !in parts[i] {
      if i < n {
        assert segs[..n][i] == segs[i];
        assert parts[i] == Render(segs[i]) == segs[i].text;
      } else {
        assert parts[i] == dv[i - n];
      }
    }
  }

  /** In the values read back, each dynamic key has the value it was created from. */
  lemma ReadValues(statics: seq<Entry<string>>, names: seq<string>, values: VirtualPaths.RouteValues)
    requires DistinctKeys(KeysOf(statics) + names)
    requires AllUsable(names, values)
    ensures var read := Lift(statics) + Entries(names, DynamicValues(names, values));
      && IsDict(read) && KeysOf(read) == KeysOf(statics) + names
      && forall i :: 0 <= i < |names| ==> Find(read, names[i]) == Find(values, names[i])
  {
    var dv := DynamicValues(names, values);
    var read := Lift(statics) + Entries(names, dv);
    assert KeysOf(read) == KeysOf(statics) + names;
    forall i | 0 <= i < |names| ensures Find(read, names[i]) == Find(values, names[i]) {
      assert read[|statics| + i] == Entry(names[i], Some(dv[i]));
      FindAt(read, |statics| + i, names[i]);
    }
  }

  /** The rule the constructor compiles from "~/{a}/{a}" breaks the round trip: it
      creates "~/x" from a = x, which has too few paragraphs to read back, and reading "~/x/x"
      throws ArgumentException when the second paragraph adds "a" again. */
  lemma RepeatedNameBreaksRoundTrip()
    ensures CompileSpec("r", "~/{a}/{a}", None, false, [], None).Ok?
    ensures var rule := CompileSpec("r", "~/{a}/{a}", None, false, [], None).value;
      && ParsePattern(rule.urlPattern).Some?
      && CreateVirtualPathSpec(rule, [Entry("a", Some("x"))]) == Ok("~/x")
      && GetRouteValuesSpec(rule, Some("~/x"), []) == Ok(None)
      && GetRouteValuesSpec(rule, Some("~/x/x"), []) == Err(Argument(""))
  {
    RepeatedNameAccepted();
    RepeatedNamePattern();
    var rule := CompileSpec("r", "~/{a}/{a}", None, false, [], None).value;
    RepeatedNameRule();
    CreatesShortPath(rule);
    ReadsRepeatedName(rule);
  }

  lemma RepeatedNameRule()
    ensures CompileSpec("r", "~/{a}/{a}", None, false, [], None)
         == Ok(Rule("r", "~/{a}/{a}", None, false, false, [Dynamic("a"), Dynamic("a")], [], ["a"], ["a"], [], ["a"]))
  {
    var segs := [Dynamic("a"), Dynamic("a")];
    RepeatedNamePattern();
    assert IsDict<string>([]);
    Assembles("r", "~/{a}/{a}", None, false, [], None, segs);
    RepeatedNames();
    DistinctOfRepeated();
    AssembleOneKey(segs);
  }

  lemma AssembleOneKey(segs: seq<Segment>)
    ensures Assemble("r", "~/{a}/{a}", None, false, segs, [], ["a"], None)
         == Ok(Rule("r", "~/{a}/{a}", None, false, false, segs, [], ["a"], ["a"], [], ["a"]))
  {
    assert KeysOf<string>([]) == [];
    AddOneKey();
    assert !Overlaps(["a"], []) by {
      assert !HasKey([], "a");
    }
    assert Distinct([]) == [];
    assert ["a"] + [] == ["a"];
    assert DistinctKeys(["a"]);
  }

  lemma CreatesShortPath(rule: Rule)
    requires rule.paragraphs == [Dynamic("a"), Dynamic("a")]
    requires ParsePattern(rule.urlPattern) == Some(rule.paragraphs)
    requires rule.dynamicKeys == ["a"] && rule.routeKeys == ["a"]
    ensures CreateVirtualPathSpec(rule, [Entry("a", Some("x"))]) == Ok("~/x")
  {
    var values := [Entry("a", Some("x"))];
    ShortDynamicPath(values);
    ShortPrefix(rule);
    NoQueryEntries(rule, values);
    CreatedWithoutQuery(rule, values, "/x");
    ShortPathText();
  }

  lemma ShortPathText()
    ensures "~" + "/x" == "~/x"
  {
  }

  lemma CreatedWithoutQuery(rule: Rule, values: VirtualPaths.RouteValues, path: string)
    requires ParsePattern(rule.urlPattern).Some?
    requires DynamicPath(rule.dynamicKeys, values) == Ok(path)
    requires QueryEntries(rule, values) == []
    ensures CreateVirtualPathSpec(rule, values) == Ok(StaticPrefix(rule) + path)
  {
    assert QueryText([]) == "";
    assert StaticPrefix(rule) + path + "" == StaticPrefix(rule) + path;
  }

  lemma ShortDynamicPath(values: VirtualPaths.RouteValues)
    requires values == [Entry("a", Some("x"))]
    ensures DynamicPath(["a"], values) == Ok("/x")
  {
    assert Find(values, "a") == Some(Some("x")) by {
      FindAt(values, 0, "a");
    }
    assert AllUsable(["a"], values);
    DynamicPathValue(["a"], values);
    assert DynamicValues(["a"], values) == ["x"];
    assert Slashed(["x"]) == "/x";
  }

  lemma ShortPrefix(rule: Rule)
    requires ParsePattern(rule.urlPattern) == Some(rule.paragraphs)
    requires rule.paragraphs == [Dynamic("a"), Dynamic("a")]
    ensures StaticPrefix(rule) == "~"
  {
    PrefixShape(rule);
    assert StaticCount(rule.paragraphs) == 0;
  }

  lemma NoQueryEntries(rule: Rule, values: VirtualPaths.RouteValues)
    requires rule.routeKeys == ["a"] && values == [Entry("a", Some("x"))]
    ensures QueryEntries(rule, values) == []
  {
    assert !InQuery(rule, "a") by {
      assert HasKey(["a"], "a");
    }
    assert forall i :: 0 <= i < |values| ==> !InQuery(rule, values[i].key);
  }

  lemma ReadsRepeatedName(rule: Rule)
    requires rule == Rule("r", "~/{a}/{a}", None, false, false, [Dynamic("a"), Dynamic("a")], [], ["a"], ["a"], [], ["a"])
    ensures GetRouteValuesSpec(rule, Some("~/x"), []) == Ok(None)
    ensures GetRouteValuesSpec(rule, Some("~/x/x"), []) == Err(Argument(""))
  {
    ReadsTooShort(rule);
    ReadsTwice(rule);
  }

  lemma ReadsTooShort(rule: Rule)
    requires rule.paragraphs == [Dynamic("a"), Dynamic("a")] && !rule.limitedQueries
    ensures GetRouteValuesSpec(rule, Some("~/x"), []) == Ok(None)
  {
    assert "~" + Slashed(["x"]) == "~/x";
    ParagraphsOfSlashed(["x"]);
  }

  lemma ReadsTwice(rule: Rule)
    requires rule.paragraphs == [Dynamic("a"), Dynamic("a")] && !rule.limitedQueries && rule.staticValues == []
    ensures GetRouteValuesSpec(rule, Some("~/x/x"), []) == Err(Argument(""))
  {
    assert "~" + Slashed(["x", "x"]) == "~/x/x";
    ParagraphsOfSlashed(["x", "x"]);
    assert Lift([]) == [];
    MatchTwice();
  }

  lemma MatchTwice()
    ensures MatchParagraphs([Dynamic("a"), Dynamic("a")], ["x", "x"], []) == Err(Argument(""))
  {
    var first := [Entry("a", Some("x"))];
    var empty: VirtualPaths.RouteValues := [];
    assert KeysOf(empty) == [] && !HasKey([], "a");
    assert empty + [Entry("a", Some("x"))] == first;
    assert Add(empty, "a", Some("x")) == Ok(first);
    assert HasKey(KeysOf(first), "a");
    assert [Dynamic("a"), Dynamic("a")][1..] == [Dynamic("a")];
  }
}

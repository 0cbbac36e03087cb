/**
  * The two strings by which the conflict table recognises a rule. The path-shape descriptor is the
  * verb, the static prefix and one "/{dynamic}" per dynamic key: two rules with equal shapes
  * produce the same virtual paths. The value-contract descriptor is the verb and the route keys in
  * case-insensitive order, each with its static value or "dynamic": two rules with equal contracts
  * accept the same route values. The source memoises both strings; as functions of an immutable
  * rule they need no memo.
  */
module RuleDescriptors {
  import opened Wrappers
  import opened Text
  import opened Keys
  import opened UrlPattern
  import opened RouteRule
  import opened Sorting

  /** A null verb concatenates as "". */
  function VerbText(verb: Option<string>): string {
    verb.GetOr("")
  }

  /** GetVirtualPathDescriptor */
  function VirtualPathDescriptor(rule: Rule): (r: string)
    requires ParsePattern(rule.urlPattern).Some?
    ensures var v := VerbText(rule.verb); |r| > |v| && r[..|v|] == v && r[|v|] == '@' && '@' !in r[|v| + 1..]
  {
    PrefixChars(rule);
    RepeatHasNoAt("/{dynamic}", |rule.dynamicKeys|);
    VerbText(rule.verb) + "@" + StaticPrefix(rule) + Repeat("/{dynamic}", |rule.dynamicKeys|)
  }

  /** Fold never produces a character that is not an upper-case letter unless it was there. */
  lemma FoldKeepsOut(s: string, c: char)
    requires c !in s && !('A' <= c <= 'Z')
    ensures c !in Fold(s)
  {
  }

  lemma {:induction false} FoldRepeat(n: nat)
    ensures Fold(Repeat("/{dynamic}", n)) == Repeat("/{DYNAMIC}", n)
  {
    if n > 0 {
      FoldConcat("/{dynamic}", Repeat("/{dynamic}", n - 1));
      FoldRepeat(n - 1);
    }
  }

  /** A pattern the grammar accepts holds no '@'. */
  lemma PatternHasNoAt(p: string)
    requires ParsePattern(p).Some?
    ensures '@' !in p
  {
    var segs := ParsePattern(p).value;
    ParsedPatternShape(p);
    SegmentsHaveNoAt(segs);
    JoinNoChar(Renders(segs), '/', '@');
  }

  /** The static prefix holds neither '@' nor '{'. */
  lemma PrefixChars(rule: Rule)
    requires ParsePattern(rule.urlPattern).Some?
    ensures '@' !in StaticPrefix(rule) && '{' !in StaticPrefix(rule)
  {
    var p := rule.urlPattern;
    PatternHasNoAt(p);
    var i := IndexOfChar(p, '{');
    if i >= 0 {
      ParsedPatternRoot(p);
      SliceAvoids(p, i - 1, '@');
      SliceAvoids(p[..i], i - 1, '{');
      assert p[..i][..i - 1] == p[..i - 1] == StaticPrefix(rule);
    }
  }

  /** A character missing from a string is missing from each of its prefixes. */
  lemma SliceAvoids(s: string, j: int, c: char)
    requires 0 <= j <= |s| && c !in s
    ensures c !in s[..j]
  {
    forall k | 0 <= k < j ensures s[..j][k] != c {
      assert s[..j][k] == s[k] && s[k] in s;
    }
  }

  lemma SegmentsHaveNoAt(segs: seq<Segment>)
    requires forall i :: 0 <= i < |segs| ==> ValidSegment(segs[i])
    ensures forall i :: 0 <= i < |Renders(segs)| ==> '@' !in Renders(segs)[i]
  {
    forall i | 0 <= i < |segs| ensures '@' !in Render(segs[i]) {
      assert !IsStaticChar('@') && !IsLetterOrDigit('@');
    }
  }

  /** The character between two strings sits at the first one's length. */
  lemma CharBetween(a: string, c: char, b: string)
    ensures (a + [c] + b)[|a|] == c
  {
  }

  /** The last '@' splits the descriptor: the verb may hold '@', the rest may not. */
  lemma SplitAtLastAt(v1: string, q1: string, v2: string, q2: string)
    requires '@' !in q1 && '@' !in q2
    requires v1 + "@" + q1 == v2 + "@" + q2
    ensures v1 == v2 && q1 == q2
  {
    var s := v1 + "@" + q1;
    if |v1| < |v2| {
      CharBetween(v2, '@', q2);
      assert false;
    } else if |v2| < |v1| {
      CharBetween(v1, '@', q1);
      assert false;
    } else {
      assert v1 == s[..|v1|] == v2;
      assert q1 == s[|v1| + 1..] == q2;
    }
  }

  /** A position holding `c` with no `c` before it is the first index of `c`. */
  lemma {:induction false} FirstIndexAt(s: string, c: char, k: int)
    requires 0 <= k < |s| && s[k] == c && c !in s[..k]
    ensures IndexOfChar(s, c) == k
  {
    if k > 0 {
      assert s[0] == s[..k][0];
      assert s[1..][..k - 1] == s[..k][1..];
      FirstIndexAt(s[1..], c, k - 1);
    }
  }

  /** After a '{'-free prefix, a tail starting with "/{" puts the first '{' just past the '/'. */
  lemma BraceAfterPrefix(p: string, t: string)
    requires '{' !in p && |t| >= 2 && t[..2] == "/{"
    ensures IndexOfChar(p + t, '{') == |p| + 1
  {
    var s := p + t;
    assert s[..|p| + 1] == p + "/";
    assert s[|p| + 1] == t[1];
    FirstIndexAt(s, '{', |p| + 1);
  }

  /** In a '{'-free prefix followed by copies of "/{DYNAMIC}", the first '{' is the second
      character of the first copy. */
  lemma FirstBrace(p: string, n: nat)
    requires '{' !in p
    ensures IndexOfChar(p + Repeat("/{DYNAMIC}", n), '{') == if n > 0 then |p| + 1 else -1
  {
    if n == 0 {
      assert p + Repeat("/{DYNAMIC}", n) == p;
    } else {
      var t := Repeat("/{DYNAMIC}", n);
      assert t == "/{DYNAMIC}" + Repeat("/{DYNAMIC}", n - 1);
      assert t[..2] == "/{";
      BraceAfterPrefix(p, t);
    }
  }

  /** A '{'-free prefix followed by copies of "/{DYNAMIC}" determines both. */
  lemma SplitAtBraces(p1: string, n1: nat, p2: string, n2: nat)
    requires '{' !in p1 && '{' !in p2
    requires p1 + Repeat("/{DYNAMIC}", n1) == p2 + Repeat("/{DYNAMIC}", n2)
    ensures p1 == p2 && n1 == n2
  {
    var s := p1 + Repeat("/{DYNAMIC}", n1);
    FirstBrace(p1, n1);
    FirstBrace(p2, n2);
    assert (n1 > 0) == (n2 > 0);
    if n1 == 0 {
      assert p1 == s == p2;
    } else {
      assert |p1| == |p2|;
      assert p1 == s[..|p1|] == p2;
    }
  }

  /** Two rules have path-shape descriptors equal ignoring case exactly when their verbs, their
      static prefixes (both ignoring case) and their numbers of dynamic keys are equal: they would
      produce the same virtual paths. */
  lemma ShapeDescriptorMeaning(r1: Rule, r2: Rule)
    requires ParsePattern(r1.urlPattern).Some? && ParsePattern(r2.urlPattern).Some?
    ensures Fold(VirtualPathDescriptor(r1)) == Fold(VirtualPathDescriptor(r2)) <==>
      && Fold(VerbText(r1.verb)) == Fold(VerbText(r2.verb))
      && Fold(StaticPrefix(r1)) == Fold(StaticPrefix(r2))
      && |r1.dynamicKeys| == |r2.dynamicKeys|
  {
    var v1, v2 := Fold(VerbText(r1.verb)), Fold(VerbText(r2.verb));
    var p1, p2 := Fold(StaticPrefix(r1)), Fold(StaticPrefix(r2));
    var n1, n2 := |r1.dynamicKeys|, |r2.dynamicKeys|;
    FoldedDescriptor(r1);
    FoldedDescriptor(r2);
    if Fold(VirtualPathDescriptor(r1)) == Fold(VirtualPathDescriptor(r2)) {
      SplitAtLastAt(v1, p1 + Repeat("/{DYNAMIC}", n1), v2, p2 + Repeat("/{DYNAMIC}", n2));
      SplitAtBraces(p1, n1, p2, n2);
    }
  }

  lemma FoldedDescriptor(rule: Rule)
    requires ParsePattern(rule.urlPattern).Some?
    ensures var p := Fold(StaticPrefix(rule)); var q := p + Repeat("/{DYNAMIC}", |rule.dynamicKeys|);
      && Fold(VirtualPathDescriptor(rule)) == Fold(VerbText(rule.verb)) + "@" + q
      && '@' !in q && '{' !in p
  {
    var p := StaticPrefix(rule);
    FoldDescriptorParts(VerbText(rule.verb), p, Repeat("/{dynamic}", |rule.dynamicKeys|));
    FoldRepeat(|rule.dynamicKeys|);
    PrefixChars(rule);
    FoldKeepsOut(p, '@');
    FoldKeepsOut(p, '{');
    RepeatHasNoAt("/{DYNAMIC}", |rule.dynamicKeys|);
  }

  /** Folding a descriptor folds its verb, prefix and dynamic part one by one. */
  lemma FoldDescriptorParts(v: string, p: string, r: string)
    ensures Fold(v + "@" + p + r) == Fold(v) + "@" + (Fold(p) + Fold(r))
  {
    FoldConcat(v + "@" + p, r);
    FoldConcat(v + "@", p);
    FoldConcat(v, "@");
    assert Fold("@") == "@";
  }

  lemma {:induction false} RepeatHasNoAt(s: string, n: nat)
    requires '@' !in s
    ensures '@' !in Repeat(s, n)
  {
    if n > 0 {
      RepeatHasNoAt(s, n - 1);
    }
  }

  /** Escapes '"' as \". */
  function Escape(s: string): string {
    ReplaceAll(s, '"', "\\\"")
  }

  /** One route key of the value contract: its static value, or "dynamic". */
  function ContractItem(statics: seq<Entry<string>>, key: string): string {
    match Find(statics, key)
    case Some(v) => "<\"" + Escape(key) + "\",\"" + Escape(v) + "\">"
    case None => "<\"" + Escape(key) + "\",dynamic>"
  }

  /** The order StringComparer.OrdinalIgnoreCase sorts keys in. */
  function KeyOrder(key: string): seq<int> {
    Codes(Fold(key))
  }

  function ContractItems(statics: seq<Entry<string>>, keys: seq<string>): (items: seq<string>)
    ensures |items| == |keys|
  {
    seq(|keys|, i requires 0 <= i < |keys| => ContractItem(statics, keys[i]))
  }

  /** GetRouteValuesDescriptor */
  function RouteValuesDescriptor(rule: Rule): (r: string)
    ensures var v := VerbText(rule.verb); |r| > |v| && r[..|v|] == v && r[|v|] == '@'
  {
    VerbText(rule.verb) + "@" + Join(",", ContractItems(rule.staticValues, SortBy(rule.routeKeys, KeyOrder)))
  }

  /** The value-contract descriptor is the verb, '@' and one item per route key, the keys in
      case-insensitive order. */
  lemma ContractDescriptorShape(rule: Rule)
    ensures exists keys ::
      && SortedBy(keys, KeyOrder) && multiset(keys) == multiset(rule.routeKeys)
      && RouteValuesDescriptor(rule) == VerbText(rule.verb) + "@" + Join(",", ContractItems(rule.staticValues, keys))
  {
    var keys := SortBy(rule.routeKeys, KeyOrder);
    assert RouteValuesDescriptor(rule) == VerbText(rule.verb) + "@" + Join(",", ContractItems(rule.staticValues, keys));
  }

  lemma KeyOrderInjective(keys: seq<string>)
    requires DistinctKeys(keys)
    ensures KeyInjective(keys, KeyOrder)
  {
    forall x, y | x in keys && y in keys && KeyOrder(x) == KeyOrder(y) ensures x == y {
      CodesInjective(Fold(x), Fold(y));
      var i :| 0 <= i < |keys| && keys[i] == x;
      var j :| 0 <= j < |keys| && keys[j] == y;
      assert i == j || Fold(keys[i]) != Fold(keys[j]) by {
        if i < j {} else if j < i {}
      }
    }
  }

  /** The value contract does not depend on the order in which the route keys were collected:
      two rules with the same verb, the same route keys and the same static values have the same
      value-contract descriptor. */
  lemma ContractDescriptorOrderFree(r1: Rule, r2: Rule)
    requires r1.verb == r2.verb
    requires DistinctKeys(r1.routeKeys)
    requires multiset(r1.routeKeys) == multiset(r2.routeKeys)
    requires forall k :: k in r1.routeKeys ==> Find(r1.staticValues, k) == Find(r2.staticValues, k)
    ensures RouteValuesDescriptor(r1) == RouteValuesDescriptor(r2)
  {
    KeyOrderInjective(r1.routeKeys);
    SortPermutationInvariant(r1.routeKeys, r2.routeKeys, KeyOrder);
    var sorted := SortBy(r1.routeKeys, KeyOrder);
    assert forall k :: k in sorted ==> k in multiset(r1.routeKeys);
    SameContractItems(r1.staticValues, r2.staticValues, sorted);
  }

  /** Keys looked up alike in two sets of static values give the same contract items. */
  lemma SameContractItems(s1: seq<Entry<string>>, s2: seq<Entry<string>>, keys: seq<string>)
    requires forall k :: k in keys ==> Find(s1, k) == Find(s2, k)
    ensures ContractItems(s1, keys) == ContractItems(s2, keys)
  {
    forall i | 0 <= i < |keys| ensures ContractItem(s1, keys[i]) == ContractItem(s2, keys[i]) {
      assert keys[i] in keys;
    }
  }

  /** Each key appears in the contract as static or dynamic, as the rule defines it. */
  lemma ContractItemKind(statics: seq<Entry<string>>, key: string)
    ensures Find(statics, key).Some? ==>
      ContractItem(statics, key) == "<\"" + Escape(key) + "\",\"" + Escape(Find(statics, key).value) + "\">"
    ensures Find(statics, key).None? ==> ContractItem(statics, key) == "<\"" + Escape(key) + "\",dynamic>"
    ensures Find(statics, key).Some? <==> EndsWith(ContractItem(statics, key), "\">")
  {
    var e := Escape(key);
    if Find(statics, key).None? {
      var s := ContractItem(statics, key);
      assert s == "<\"" + e + "\",dynamic>";
      assert s[|s| - 2..] == "c>";
    }
  }
}

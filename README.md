# SimpleRouter core in Dafny

A model of the routing core of Ivony's SimpleRouter: a two-way URL router for ASP.NET Core.

A **route rule** (`SimpleRouteRule`) has:
- a URL pattern such as `~/news/{year}/{id}`;
- static route values;
- an optional verb;
- an optional list of query keys.

A rule works in two directions:
- **forward**: it reads a request's app-relative path and query into route values (`GetRouteValues`);
- **reverse**: it builds a virtual path from route values (`CreateVirtualPath`).

A **route table** (`SimpleRouteTable`) holds rules in registration order and does four things:
- routes a request to the first rule that applies, trying rules with fewer dynamic keys first;
- chooses the best rule for a set of route values;
- caches both answers in a process-wide memory cache;
- refuses a rule that conflicts with one already registered. Conflicts are tracked in a process-wide **conflict table** (`SimpleRouteConflictTable`). Two rules conflict when they produce the same virtual paths (same path-shape descriptor) or accept the same route values (same value-contract descriptor).

A **route collection** (`SimpleRouteCollection`) is an append-only rule list with a conflict table of its own. `HttpExtensions` holds the request helpers the table uses.

## Layout

| module (file) | what it holds |
|---|---|
| `Wrappers` (`wrappers.dfy`) | `Option`, `Result` and the `Error` datatype. `Error` has one constructor per .NET exception the core throws, with its parameter name or message parts. |
| `Text` (`text.dfy`) | Ordinal case folding (`OrdinalIgnoreCase`), plus the string methods the core calls: `StartsWith`, `IndexOf`, `Split`, `Join`, `TrimEnd`, `TrimStart`, `Replace`, and `Regex.Replace("/+", "/")`. |
| `Framework` (`framework.dfy`) | Stand-ins for `Path.GetExtension` and `HttpUtility.UrlEncode`. |
| `Sorting` (`sorting.dfy`) | Sorting by a key, used for the orderings the core asks LINQ for. |
| `Keys` (`keys.dfy`) | Key collections and dictionaries with the `OrdinalIgnoreCase` comparer. A dictionary is an insertion-ordered list of entries whose keys differ ignoring case. |
| `UrlPattern` (`url_pattern.dfy`) | The URL-pattern grammar (the rule's regular expression) and the normalisation `AddRule` applies. |
| `RouteRule` (`rule.dfy`) | The compiled rule as an immutable value, and its constructor. Also `StaticPrefix`, `IsMatch`, `EqualsConstraints` and `Mutex`. |
| `RuleDescriptors` (`descriptors.dfy`) | The two conflict descriptors. |
| `ContractReading` (`contract_reading.dfy`) | Reading the value-contract descriptor back, and what two equal descriptors say about their rules. |
| `VirtualPaths` (`virtual_paths.dfy`) | `CreateVirtualPath`. |
| `RouteValues` (`route_values.dfy`) | `GetRouteValues`. |
| `RouteReading` (`route_reading.dfy`) | What `GetRouteValues` reads: when a rule applies to a request, and what the values it reads bind. |
| `RoundTrip` (`round_trip.dfy`) | Proof that a created path reads back as its route values. |
| `HttpExtensions` (`http_extensions.dfy`) | `ToDirectory`, `ToQueryString` and `GetAppRelativePath`. |
| `CacheKeys` (`cache_keys.dfy`) | The cache keys of both directions, `CreateCacheKey` among them. |
| `ConflictTables` (`conflict_tables.dfy`) | The rule object, which holds the mutable back-reference to its table, and the conflict table class. |
| `RuleSelection` (`rule_selection.dfy`) | The pure parts of the table: the `GetRouteData` pipeline, the candidate filters, `BestRule` and `PreprocessVirtualPath`. |
| `Registration` (`registration.dfy`) | The argument checks and normalisation shared by both `AddRule(name, …)` overloads. |
| `RouteTables` (`route_tables.dfy`) | The table class with its shared statics: the conflict table and the cache. |
| `RouteCollections` (`route_collections.dfy`) | The collection class. |

Representation choices:
- **Rules are values.** A rule never changes after construction. Only its `SimpleRouteTable` back-reference is mutable, and that lives in the `RuleObject` class.
- **Absent values.** A null argument, or a null dictionary value, is `None`.
- **Exceptions.** A thrown exception is an `Err` of the matching `Error`.
- **The cache.** It is two maps, one for forward entries and one for reverse entries. `CacheKeys.CacheKeysApart` proves their keys never meet.
- **Shared state.** The static cache and the static conflict table are one `Statics` object, shared by every table.

### Behaviour of the code as written

The proofs establish these behaviours of the source:

- **Only the root pattern survives registration.**
  - `AddRule(name, …)` appends a `/` to every non-empty pattern that lacks one. The grammar accepts a final `/` only in the root pattern `~/`.
  - So every rule registered through the string overloads has the pattern `~/` and no dynamic key (`Registration.OnlyRootRegisters`). Patterns with segments can only come in through `AddRule(SimpleRouteRule)`.
- **Only one string-registered rule per process.**
  - The table's conflict table is static, and a string-registered rule has a null verb and the root shape.
  - So after the first such rule, every later one is refused in every table, naming the first (`RouteTables.OneStringRulePerProcess`).
  - Collections each have their own conflict table (`RouteCollections.SeparateCollections`).
- **Repeated dynamic names are accepted.**
  - The constructor collects dynamic names in a `HashSet`, so a pattern such as `~/{a}/{a}` is accepted with one dynamic key (`RouteRule.RepeatedNameAccepted`). This is so even though the message of the `FormatException` at `Ivony.Web.Route/SimpleRouteRule.cs:77` names repeated dynamic parameter names as one of its causes. The model follows the code.
  - Such a rule creates `~/x` from `{a: x}`. Reading `~/x` back yields nothing, and reading `~/x/x` throws `ArgumentException` (`RoundTrip.RepeatedNameBreaksRoundTrip`).
  - The round-trip theorem `RoundTrip.VirtualPathRoundTrip` therefore assumes distinct dynamic names. Its other assumptions are listed in its row and under "## Left out".
- **Extensions are stripped before matching.** `GetRouteValues` removes the path's extension before splitting it. A static last segment containing `.` (allowed by the grammar) therefore never matches a request spelled like it, and the round trip assumes no `.` in static segments or dynamic values.
- **Cache entries are shared between tables.**
  - A forward cache entry belongs to the table that routed it. Another table asking for the same request gets null without trying its own rules (`RouteTables.RouteTable.GetRouteData`).
  - A reverse cache entry is returned to any table.
- **`SimpleRouteTable.AddRuleAndCheckConflict` calls a method the conflict table lacks.** It calls `conflictTable.AddRuleAndCheckConflict`, which `SimpleRouteConflictTable` does not declare. It is modelled as the conflict table's `TryAddRule`.
- **A conflict with an unowned rule throws `NullReferenceException`.** The table formats its `InvalidOperationException` message with the conflicting rule's table name. When that rule has no table, this throws `NullReferenceException`; the collection handles the case.
- **`GetAppRelativePath` may cut too much.** It removes `PathBase`'s length from `Path`, which ASP.NET Core already gives relative to `PathBase`.
- **The route-table test does not run as written.**
  - `new SimpleRouteTable("Default")` (`Ivony.Web.Route.Test/RouteTest.cs:23`) passes no logger factory, so the factory is the default `null` (`Ivony.Web.Route/SimpleRouteTable.cs:411`). The constructor calls `loggerFactory.CreateLogger<SimpleRouteTable>()` on it (`:416`), and that extension method throws `ArgumentNullException` for a null factory. The test fails there, before it adds a rule.
  - Its call `AddRule("Default", "", dictionary)` (`Ivony.Web.Route.Test/RouteTest.cs:32`) matches no overload in the source. The `AddRule` methods of the table (`Ivony.Web.Route/SimpleRouteTable.cs:285`, `321`), of the collection (`Ivony.Web.Route/SimpleRouteCollection.cs:24`, `60`) and of `ISimpleRouteBuilder` (`Ivony.Web.Route/ISimpleRouteBuilder.cs:11`) take six arguments or a rule.
  - The one method of that shape is `MapRoute(name, urlPattern, routeValues)` (`Ivony.Web.Route/SimpleRouteExtensions.cs:151-154`). It passes a null verb, `oneway` false and no query keys.
  - `Registration.DefaultRule`, `RouteTables.DefaultTable` and `RouteTables.DefaultRoute` model what the test evidently means: a table built with a logger factory, and the rule added through that `MapRoute` overload.

## Model

| member | source | states |
|---|---|---|
| Text.CollapseSlashes | Ivony.Web.Route/SimpleRouteRule.cs:420 | `Regex.Replace(s, "/+", "/")`: the result has no `//`, keeps the first character, the character set and the other characters in order, and is the input when the input had no `//` |
| Text.CollapseSnoc | Ivony.Web.Route/SimpleRouteRule.cs:420 | read left to right, each character is appended to the result except a `/` right after a `/`; this fixes the result of every input |
| Text.Split | Ivony.Web.Route/SimpleRouteRule.cs:430 | `Split('/')`: pieces free of the separator that join back to the input |
| Text.SplitJoin | Ivony.Web.Route/SimpleRouteRule.cs:430 | splitting a joined list of separator-free pieces gives the pieces back |
| Text.TrimEnd | Ivony.Web.Route/SimpleRouteRule.cs:427 | a prefix of the input, not ending with the character, with only that character removed |
| Text.TrimStart | Ivony.Web.Route/HttpExtensions.cs:67 | a suffix of the input, not starting with the character, with only that character removed |
| Framework.GetExtension | Ivony.Web.Route/SimpleRouteRule.cs:421 | `Path.GetExtension`: a suffix of the path that is empty or `.` plus a non-empty tail with no `.` or `/`; empty for a path without `.` |
| Framework.UrlEncode | Ivony.Web.Route/SimpleRouteRule.cs:258-260 | `HttpUtility.UrlEncode`: only URL-safe characters, `+` and `%` in the output; safe text is unchanged |
| Sorting.SortBy | Ivony.Web.Route/SimpleRouteRule.cs:336 | `OrderBy`: the result is sorted by the key and is a permutation of the input |
| Sorting.SortPermutationInvariant | Ivony.Web.Route/HttpExtensions.cs:47 | sorting by a key that tells elements apart gives the same result for every permutation of the input |
| Keys.Distinct | Ivony.Web.Route/SimpleRouteRule.cs:70 | `HashSet` / `Distinct` with `OrdinalIgnoreCase`: distinct keys, the same keys as the comparer sees them, taken from the input, the input itself when already distinct |
| Keys.DistinctKeysCount | Ivony.Web.Route/SimpleRouteRule.cs:86 | a case-distinct key list has as many elements as distinct folded keys |
| Keys.IndexOfKey | Ivony.Web.Route/SimpleRouteRule.cs:296 | the first position of a key equal ignoring case, or -1 exactly when there is none |
| Keys.Find | Ivony.Web.Route/SimpleRouteRule.cs:296 | `TryGetValue`: absent exactly when no key equals the key ignoring case; otherwise the value of such an entry |
| Keys.FindAt | Ivony.Web.Route/SimpleRouteRule.cs:296 | in a dictionary, a lookup of any spelling of an entry's key finds that entry's value |
| Keys.Add | Ivony.Web.Route/SimpleRouteRule.cs:445 | `Dictionary.Add`: fails exactly when the key is already there; otherwise appends the entry and keeps the dictionary invariant |
| Keys.Remove | Ivony.Web.Route/SimpleRouteTable.cs:187 | `Remove`: every entry it keeps is one whose key differs ignoring case, and it keeps every such entry |
| Keys.RemoveFromDict | Ivony.Web.Route/SimpleRouteTable.cs:187 | on a dictionary, `Remove` drops just the one entry whose key equals the key ignoring case, if there is one, and keeps the others in order |
| Keys.RemoveKeepsDict | Ivony.Web.Route/SimpleRouteTable.cs:187 | removing a key keeps a dictionary a dictionary and the key is gone |
| UrlPattern.ParseSegment | Ivony.Web.Route/SimpleRouteRule.cs:22-24 | a captured paragraph is a valid static or dynamic segment that renders back to the text |
| UrlPattern.ParseRenderedSegment | Ivony.Web.Route/SimpleRouteRule.cs:22-24 | every valid segment is read back from its rendering |
| UrlPattern.ParseSegments | Ivony.Web.Route/SimpleRouteRule.cs:60 | the paragraphs captured, one valid segment per piece, each rendering back to its piece |
| UrlPattern.ParsePattern | Ivony.Web.Route/SimpleRouteRule.cs:26 | the regular expression: the captured segments are valid and in grammar order |
| UrlPattern.PatternRoundTrip | Ivony.Web.Route/SimpleRouteRule.cs:26 | every list of valid segments in grammar order is a pattern the regular expression accepts, with exactly those captures |
| UrlPattern.ParsedPatternShape | Ivony.Web.Route/SimpleRouteRule.cs:55-60 | whatever the regular expression accepts is the pattern of its captured segments (optionally followed by the newline `$` admits), in grammar order |
| UrlPattern.ParsedPatternRoot | Ivony.Web.Route/SimpleRouteRule.cs:26 | every accepted pattern starts with `~/` |
| UrlPattern.RootAccepted | Ivony.Web.Route/SimpleRouteRule.cs:26 | `~/` is accepted with no paragraphs |
| UrlPattern.StaticCount | Ivony.Web.Route/SimpleRouteRule.cs:26 | the leading static segments; the segment after them, if any, is dynamic |
| UrlPattern.Normalize | Ivony.Web.Route/SimpleRouteTable.cs:298-310 | `ArgumentException("urlPattern")` exactly for a pattern starting with `/` but not `~/`; otherwise a pattern starting with `~/`, ending with `/`, without `//` |
| UrlPattern.CollapseKeepsRoot | Ivony.Web.Route/SimpleRouteTable.cs:307 | collapsing slashes keeps the `~/` root |
| UrlPattern.NormalizedRejected | Ivony.Web.Route/SimpleRouteTable.cs:309-312 | every normalised pattern other than `~/` is refused by the grammar |
| UrlPattern.EmptyPatternIsRoot | Ivony.Web.Route.Test/RouteTest.cs:32 | the test's pattern `""` normalises to `~/` |
| RouteRule.DynamicNames | Ivony.Web.Route/SimpleRouteRule.cs:70 | the names of the dynamic paragraphs: each is a dynamic segment of the pattern and every dynamic segment's name is among them |
| RouteRule.CopyDict | Ivony.Web.Route/SimpleRouteRule.cs:65 | copying the static values with `OrdinalIgnoreCase` succeeds exactly when no two keys are equal ignoring case, and then keeps them; otherwise `ArgumentException` |
| RouteRule.AddKeys | Ivony.Web.Route/SimpleRouteRule.cs:74-81 | the loop succeeds exactly when no dynamic name is a route key and the names are distinct, and then appends them |
| RouteRule.AddDynamicKeys | Ivony.Web.Route/SimpleRouteRule.cs:74-81 | the constructor's loop computes `AddKeys` |
| RouteRule.AddKeysFailed | Ivony.Web.Route/SimpleRouteRule.cs:76-77 | a clash found among the first names is a clash of the whole loop |
| RouteRule.Compile | Ivony.Web.Route/SimpleRouteRule.cs:40-91 | the constructor computes `CompileSpec` |
| RouteRule.CompileSpec | Ivony.Web.Route/SimpleRouteRule.cs:40-91 | `FormatException` for a pattern outside the grammar; otherwise only `FormatException` or `ArgumentException`; a rule keeps the name, pattern, verb, `oneway` argument and static values, its paragraphs are the pattern's captures, and it limits queries exactly when query keys were given |
| RouteRule.Oneway | Ivony.Web.Route/SimpleRouteRule.cs:121-124 | a rule without a verb is not one-way; a rule with one is one-way exactly when the verb is not `GET` ignoring case |
| RouteRule.CompileOutcome | Ivony.Web.Route/SimpleRouteRule.cs:40-91 | the constructor succeeds exactly when the pattern matches, the static keys are case-distinct, no dynamic name is a static key and no route key is a query key; a failed match or a name clash is `FormatException`, duplicate static keys `ArgumentException` |
| RouteRule.CompiledRule | Ivony.Web.Route/SimpleRouteRule.cs:40-91 | a compiled rule keeps the name, pattern, verb and static values; its paragraphs are the captures; RouteKeys are the static keys plus dynamic names, AllKeys RouteKeys plus QueryKeys (as case-insensitive sets); LimitedQueries iff query keys were given |
| RouteRule.RepeatedNameAccepted | Ivony.Web.Route/SimpleRouteRule.cs:70-77 | `~/{a}/{a}` compiles, with the single dynamic key `a` |
| RouteRule.DistinctConcat | Ivony.Web.Route/SimpleRouteRule.cs:83 | a key list is distinct exactly when both halves are and they do not intersect |
| RouteRule.StaticPrefix | Ivony.Web.Route/SimpleRouteRule.cs:179-195 | the static prefix is a prefix of the pattern |
| RouteRule.PrefixShape | Ivony.Web.Route/SimpleRouteRule.cs:179-195 | the prefix is the whole pattern when there is no dynamic segment, otherwise `~` and `/static` for each static segment |
| RouteRule.IsMatch | Ivony.Web.Route/SimpleRouteRule.cs:285-304 | `ArgumentNullException("values")` exactly for null values; otherwise true iff every static value is present with a value equal ignoring case |
| RouteRule.EqualsConstraints | Ivony.Web.Route/SimpleRouteRule.cs:376-388 | `ArgumentNullException("rule")` exactly for a null rule; otherwise true iff as many static values and the other rule's values all match this rule |
| RouteRule.EqualsConstraintsMeaning | Ivony.Web.Route/SimpleRouteRule.cs:376-388 | between compiled rules: true iff both have the same static keys with values equal ignoring case |
| RouteRule.EqualsConstraintsSymmetric | Ivony.Web.Route/SimpleRouteRule.cs:376-388 | `a.EqualsConstraints(b) == b.EqualsConstraints(a)` for compiled rules |
| RouteRule.Mutex | Ivony.Web.Route/SimpleRouteRule.cs:359-368 | true iff some key both rules fix has values that differ ignoring case |
| RouteRule.MutexExcludes | Ivony.Web.Route/SimpleRouteRule.cs:359-368 | no route values satisfy two mutually exclusive rules |
| RouteRule.MutexSymmetric | Ivony.Web.Route/SimpleRouteRule.cs:359-368 | `Mutex(a, b) == Mutex(b, a)` for compiled rules |
| RouteRule.MutexIrreflexive | Ivony.Web.Route/SimpleRouteRule.cs:359-368 | no rule excludes itself |
| RuleDescriptors.ShapeDescriptorMeaning | Ivony.Web.Route/SimpleRouteRule.cs:313-322 | two path-shape descriptors are equal ignoring case iff the verbs and the static prefixes are equal ignoring case and the dynamic key counts are equal |
| RuleDescriptors.PatternHasNoAt | Ivony.Web.Route/SimpleRouteRule.cs:320 | an accepted pattern holds no `@`, so the descriptor's last `@` separates the verb |
| RuleDescriptors.PrefixChars | Ivony.Web.Route/SimpleRouteRule.cs:320 | the static prefix holds neither `@` nor `{` |
| RuleDescriptors.ContractDescriptorOrderFree | Ivony.Web.Route/SimpleRouteRule.cs:327-349 | the value-contract descriptor depends only on the verb, the set of route keys and their static values, not on the order the keys were collected in |
| RuleDescriptors.ContractItemKind | Ivony.Web.Route/SimpleRouteRule.cs:340-344 | the item text: `<"key","value">` with `"` escaped when the key has a static value, `<"key",dynamic>` otherwise; it ends in `">` exactly when the key has a static value |
| RuleDescriptors.ContractItems | Ivony.Web.Route/SimpleRouteRule.cs:336-345 | one item per route key |
| RuleDescriptors.VirtualPathDescriptor | Ivony.Web.Route/SimpleRouteRule.cs:313-322 | `GetVirtualPathDescriptor`: the verb, then `@`, and no `@` after it |
| RuleDescriptors.RouteValuesDescriptor | Ivony.Web.Route/SimpleRouteRule.cs:327-349 | `GetRouteValuesDescriptor`: the verb, then `@` |
| RuleDescriptors.ContractDescriptorShape | Ivony.Web.Route/SimpleRouteRule.cs:327-349 | the descriptor is the verb, `@` and the items of the route keys joined by `,`, the keys in `OrdinalIgnoreCase` order |
| ContractReading.ReadContractText | Ivony.Web.Route/SimpleRouteRule.cs:336-347 | a folded descriptor with a quote-free verb and quote-free items reads back as that verb and those items |
| ContractReading.FoldedContract | Ivony.Web.Route/SimpleRouteRule.cs:336-347 | with quote-free keys and values, folding the descriptor folds the verb, each key and each value, and turns `dynamic` into `DYNAMIC` |
| ContractReading.RouteKeysQuoteFree | Ivony.Web.Route/SimpleRouteRule.cs:70-81 | every route key is a static key or a dynamic name, and dynamic names are letters and digits |
| ContractReading.ContractDescriptorMeaning | Ivony.Web.Route/SimpleRouteRule.cs:327-349 | two compiled rules whose value-contract descriptors are equal ignoring case have the same verb, the same route keys and, key by key, the same static value or both none, all ignoring case |
| VirtualPaths.DynamicValues | Ivony.Web.Route/SimpleRouteRule.cs:220-235 | the value of each dynamic key, in key order |
| VirtualPaths.DynamicPath | Ivony.Web.Route/SimpleRouteRule.cs:220-235 | succeeds exactly when every dynamic key has a present, non-empty value without `/`; a missing key is `KeyNotFoundException`, a bad value `ArgumentException("routeValues")`, and only the latter when all keys are present |
| VirtualPaths.DynamicPathValue | Ivony.Web.Route/SimpleRouteRule.cs:220-235 | on success the dynamic part is `/value` for each dynamic key, in order |
| VirtualPaths.DynamicPathError | Ivony.Web.Route/SimpleRouteRule.cs:220-235 | on failure the exception is the one the first unusable key raises |
| VirtualPaths.BuildDynamicPath | Ivony.Web.Route/SimpleRouteRule.cs:220-235 | the first loop computes `DynamicPath` |
| VirtualPaths.QueryEntries | Ivony.Web.Route/SimpleRouteRule.cs:240-247 | exactly the route values that are not route keys and are query keys (or the rule does not limit queries) |
| VirtualPaths.QueryEntriesConcat | Ivony.Web.Route/SimpleRouteRule.cs:240-247 | the filter works entry by entry: on two runs of values one after the other it gives the two results one after the other, so the query keeps dictionary order |
| VirtualPaths.QueryPairs | Ivony.Web.Route/SimpleRouteRule.cs:258-260 | one encoded pair per query entry |
| VirtualPaths.BuildQuery | Ivony.Web.Route/SimpleRouteRule.cs:238-263 | the second loop writes `?` and the encoded pairs of `QueryEntries` joined by `&` |
| VirtualPaths.QueryTextJoin | Ivony.Web.Route/SimpleRouteRule.cs:251-256 | the query text is empty, or `?` followed by the pairs joined by `&` |
| VirtualPaths.PairSplits | Ivony.Web.Route/SimpleRouteRule.cs:258-260 | an encoded pair splits at its one `=` into the encoded key and value and holds no `&`, `?` or `#` |
| VirtualPaths.QueryReadsBack | Ivony.Web.Route/SimpleRouteRule.cs:238-263 | the query text reads back as exactly the admitted route values: `?`, then pairs separated by `&`, each splitting at `=` into the encoded key and value |
| VirtualPaths.QueryKeepsToRule | Ivony.Web.Route/SimpleRouteRule.cs:240-246 | no route key reaches the query string, and a rule that limits queries admits only its query keys |
| VirtualPaths.CreateVirtualPath | Ivony.Web.Route/SimpleRouteRule.cs:215-267 | `CreateVirtualPath` computes `CreateVirtualPathSpec` |
| VirtualPaths.CreateVirtualPathSpec | Ivony.Web.Route/SimpleRouteRule.cs:215-267 | succeeds exactly when every dynamic key has a usable value; fails only with `KeyNotFoundException` or `ArgumentException("routeValues")`; a path starts with the static prefix |
| VirtualPaths.VirtualPathShape | Ivony.Web.Route/SimpleRouteRule.cs:215-267 | succeeds exactly when every dynamic key is usable; the path is the static prefix, `/value` per dynamic key, and a query text that is empty or starts with `?` |
| RouteValues.ExtensionAfterRoot | Ivony.Web.Route/SimpleRouteRule.cs:421-423 | stripping the extension never cuts into the `~/` root |
| RouteValues.PathParagraphs | Ivony.Web.Route/SimpleRouteRule.cs:420-434 | the request's paragraphs contain no `/` |
| RouteValues.MatchParagraphs | Ivony.Web.Route/SimpleRouteRule.cs:444-462 | the paragraph loop extends the values it starts from, and only fails with `ArgumentException` from `Add` |
| RouteValues.MatchPath | Ivony.Web.Route/SimpleRouteRule.cs:444-462 | the paragraph loop computes `MatchParagraphs` |
| RouteValues.AddQueryValues | Ivony.Web.Route/SimpleRouteRule.cs:474-482 | the query loop extends the values it starts from, and only fails with `ArgumentException` from `Add` |
| RouteValues.CollectQueryValues | Ivony.Web.Route/SimpleRouteRule.cs:474-482 | the query loop computes `AddQueryValues` |
| RouteValues.GetRouteValuesSpec | Ivony.Web.Route/SimpleRouteRule.cs:404-408 | `ArgumentNullException("virtualPath")` exactly for a null path, `ArgumentException("virtualPath")` exactly for a path not starting with `~/`; what happens to the other paths is stated by `RouteReading.AppliesIff` |
| RouteValues.GetRouteValues | Ivony.Web.Route/SimpleRouteRule.cs:401-486 | `GetRouteValues` computes `GetRouteValuesSpec` |
| RouteValues.AppliesWhen | Ivony.Web.Route/SimpleRouteRule.cs:412-471 | when the rule applies: the path starts with `~/`, a limiting rule covers every request query key, a non-limiting rule shares no key with them, the paragraph counts agree, and the values begin with the static values (the converse is `RouteReading.AppliesIff`) |
| RouteValues.RouteValuesSatisfyRule | Ivony.Web.Route/SimpleRouteRule.cs:440-462 | the route values a rule reads satisfy that rule's `IsMatch` |
| RouteValues.RouteValuesAreDict | Ivony.Web.Route/SimpleRouteRule.cs:440-482 | the route values a rule reads have case-distinct keys |
| RouteReading.MatchSome | Ivony.Web.Route/SimpleRouteRule.cs:444-462 | when the paragraph loop does not throw, it yields values exactly when every static paragraph equals the path's ignoring case |
| RouteReading.MatchNoError | Ivony.Web.Route/SimpleRouteRule.cs:457-461 | the paragraph loop never throws when the static keys and the dynamic names are all distinct |
| RouteReading.MatchBinds | Ivony.Web.Route/SimpleRouteRule.cs:457-461 | each dynamic name is bound to the path paragraph at its position |
| RouteReading.QueryBinds | Ivony.Web.Route/SimpleRouteRule.cs:474-482 | each request query key with values is bound to those values as `StringValues` converts them to a string |
| RouteReading.AppliesIff | Ivony.Web.Route/SimpleRouteRule.cs:401-486 | for a path starting with `~/`: when nothing throws, values come back exactly when the query keys pass, the paragraph counts agree, every static paragraph agrees ignoring case and no request key clashes with a route key; the only exception is `ArgumentException` from `Add` |
| RouteReading.StaticMismatchDeclines | Ivony.Web.Route/SimpleRouteRule.cs:452-455 | a static paragraph that differs ignoring case gives null, or `ArgumentException` for a repeated dynamic name; with distinct static keys and dynamic names, null |
| RouteReading.AppliesContents | Ivony.Web.Route/SimpleRouteRule.cs:444-482 | the values read bind each dynamic name to the path paragraph at its position and each request query key with values to those values |
| RoundTrip.ParagraphsOfSlashed | Ivony.Web.Route/SimpleRouteRule.cs:420-434 | `~/p1/…/pn` with plain pieces reads back as its pieces |
| RoundTrip.RootParagraphs | Ivony.Web.Route/SimpleRouteRule.cs:432-433 | `~/` has no paragraphs |
| RoundTrip.DynamicSuffix | Ivony.Web.Route/SimpleRouteRule.cs:26 | after its static segments, a well-ordered pattern holds exactly its dynamic names as dynamic segments |
| RoundTrip.MatchDynamics | Ivony.Web.Route/SimpleRouteRule.cs:457-461 | dynamic paragraphs under new distinct names add one entry each, in order |
| RoundTrip.MatchCreated | Ivony.Web.Route/SimpleRouteRule.cs:444-462 | the paragraphs of a created path match the pattern and add the dynamic values |
| RoundTrip.CreatedPath | Ivony.Web.Route/SimpleRouteRule.cs:215-235 | a path created without query entries is `~` and `/paragraph` for each static segment and dynamic value |
| RoundTrip.ReadBack | Ivony.Web.Route/SimpleRouteRule.cs:401-486 | reading a created path yields the static values followed by one entry per dynamic key with its value |
| RoundTrip.ReadValues | Ivony.Web.Route/SimpleRouteRule.cs:440-461 | the values read back are a dictionary over the route keys, and each dynamic key finds the value it was created from |
| RoundTrip.VirtualPathRoundTrip | Ivony.Web.Route/SimpleRouteRule.cs:215-267 | two-way routing: for a compiled rule whose pattern has no final newline and names no dynamic key twice, no `.` in its static segments, and route values that give every dynamic key a usable value without `.` and leave nothing for the query string, the path it creates reads back through the same rule as a dictionary over its route keys, giving each dynamic key its value and satisfying the rule |
| RoundTrip.RepeatedNameBreaksRoundTrip | Ivony.Web.Route/SimpleRouteRule.cs:70-81 | the rule compiled from `~/{a}/{a}` creates `~/x` from `{a: x}`; reading `~/x` back yields nothing and reading `~/x/x` throws `ArgumentException` |
| HttpExtensions.ToDirectory | Ivony.Web.Route/HttpExtensions.cs:26-36 | null exactly for a path without a value; a path ending with `/` is returned unchanged, any other gets one `/` appended |
| HttpExtensions.ToDirectoryIdempotent | Ivony.Web.Route/HttpExtensions.cs:26-36 | a directory is its own directory |
| HttpExtensions.FlattenMembers | Ivony.Web.Route/HttpExtensions.cs:46 | `SelectMany` gives exactly the key/value combinations of the parameters |
| HttpExtensions.PairOrderInjective | Ivony.Web.Route/HttpExtensions.cs:47 | the `OrderBy(key).ThenBy(value)` order tells different pairs apart, so sorting leaves no trace of the input order |
| HttpExtensions.ToQueryString | Ivony.Web.Route/HttpExtensions.cs:39-55 | `ArgumentNullException("query")` exactly for null; the empty query string exactly when there are no pairs; otherwise `?` and the pairs in sorted order, a permutation of all pairs, joined by `&` |
| HttpExtensions.QueryStringOrderFree | Ivony.Web.Route/HttpExtensions.cs:39-55 | two collections holding the same parameters in any order give the same query string, so they share a cache key |
| HttpExtensions.ToUriComponent | Ivony.Web.Route/SimpleRouteTable.cs:89 | the query string as written into the key: no `#`, the value itself when it has none, empty without a value |
| HttpExtensions.GetAppRelativePath | Ivony.Web.Route/HttpExtensions.cs:59-68 | null exactly without a path; `ArgumentOutOfRangeException` exactly when `PathBase` is longer than the path; otherwise `~/` followed by what comes after `PathBase`'s length, with only its leading `/` characters removed |
| HttpExtensions.AppRelativeRoundTrip | Ivony.Web.Route/HttpExtensions.cs:59-68 | `PathBase`, one or more `/` and a rest not starting with `/` give `~/` and the rest |
| CacheKeys.CreateCacheKey | Ivony.Web.Route/SimpleRouteTable.cs:253-275 | the key loop builds `CacheKey`, the prefix followed by one escaped entry per route value |
| CacheKeys.CacheKey | Ivony.Web.Route/SimpleRouteTable.cs:253-275 | the key starts with `RouteValues_`; it is just that prefix for no values, and ends in `;` otherwise |
| CacheKeys.RouteDataKey | Ivony.Web.Route/SimpleRouteTable.cs:89 | the key is `RouteVirtualPath_`, the verb (a null one as nothing), `@` and then the rest |
| CacheKeys.EscapeKeyEscapes | Ivony.Web.Route/SimpleRouteTable.cs:262 | the chain of `Replace` calls puts one `\` before each `\`, `:` and `;` of a key, and nothing else |
| CacheKeys.EscapeValueEscapes | Ivony.Web.Route/SimpleRouteTable.cs:269 | the same for a value, whose `@` is escaped too |
| CacheKeys.ReadEscaped | Ivony.Web.Route/SimpleRouteTable.cs:262-271 | escaped text followed by its stop character reads back as the text |
| CacheKeys.DecodeTexts | Ivony.Web.Route/SimpleRouteTable.cs:258-272 | the entry texts read back as the route values |
| CacheKeys.CacheKeyRoundTrip | Ivony.Web.Route/SimpleRouteTable.cs:253-275 | a reverse cache key decodes to the route values it was made from, in order, with null values kept apart from empty ones |
| CacheKeys.CacheKeyInjective | Ivony.Web.Route/SimpleRouteTable.cs:253-275 | different route values (content, order, spelling, null against empty) never share a reverse cache key |
| CacheKeys.CacheKeysApart | Ivony.Web.Route/SimpleRouteTable.cs:89 | a forward cache key never equals a reverse cache key |
| ConflictTables.RuleObject.constructor | Ivony.Web.Route/SimpleRouteRule.cs:40-91 | a new rule object holds the compiled rule and belongs to no table |
| ConflictTables.ConflictIn | Ivony.Web.Route/SimpleRouteConflictTable.cs:60-77 | no conflict exactly when neither descriptor is registered; the rule under the path-shape descriptor when there is one, else the one under the value-contract descriptor |
| ConflictTables.ConflictMeaning | Ivony.Web.Route/SimpleRouteConflictTable.cs:60-77 | the lookup in terms of rules: none exactly when no registered rule has the same shape or contract; a reported rule shares one of them, and the shape when some rule does |
| ConflictTables.RegisteredIsFound | Ivony.Web.Route/SimpleRouteConflictTable.cs:40-41 | once registered, a rule is what its own descriptors look up |
| ConflictTables.SecondSameShapeFails | Ivony.Web.Route/SimpleRouteConflictTable.cs:26-44 | after a rule is registered, a rule with the same verb and static prefix (ignoring case) and as many dynamic keys conflicts with it |
| ConflictTables.SameContractFails | Ivony.Web.Route/SimpleRouteConflictTable.cs:26-44 | after a rule is registered, a rule with the same value contract conflicts with some registered rule |
| ConflictTables.RegisterKeepsKeyed | Ivony.Web.Route/SimpleRouteConflictTable.cs:40-41 | registering under free descriptors keeps both dictionaries case-distinct and keyed by descriptor |
| ConflictTables.ConflictTable.constructor | Ivony.Web.Route/SimpleRouteConflictTable.cs:14-15 | a new conflict table has both dictionaries empty |
| ConflictTables.ConflictTable.GetConflictRule | Ivony.Web.Route/SimpleRouteConflictTable.cs:52-58 | null exactly when no registered rule has the same path shape or value contract; otherwise a rule sharing one, one sharing the shape when there is such a rule |
| ConflictTables.ConflictTable.TryAddRule | Ivony.Web.Route/SimpleRouteConflictTable.cs:26-44 | reports `GetConflictRule`; on a conflict nothing changes; otherwise the rule is appended under both descriptors and becomes the conflict for its own rule |
| RuleSelection.VerbIndices | Ivony.Web.Route/SimpleRouteTable.cs:111 | the `Where` on the verb: exactly the positions of rules without a verb or with the verb ignoring case |
| RuleSelection.Order | Ivony.Web.Route/SimpleRouteTable.cs:111-112 | exactly the rules that take the verb, in stable order by dynamic key count |
| RuleSelection.FirstDecisive | Ivony.Web.Route/SimpleRouteTable.cs:113-119 | the first position from `k` whose rule does not decline; every rule tried before it declines |
| RuleSelection.Route | Ivony.Web.Route/SimpleRouteTable.cs:110-122 | null iff every rule taking the verb declines; otherwise the first rule to apply, with its values, or the exception its `GetRouteValues` throws |
| RuleSelection.FirstToApplyUnique | Ivony.Web.Route/SimpleRouteTable.cs:110-122 | at most one rule is the first to apply, so the pipeline's answer is determined |
| RuleSelection.RoutePicksFewest | Ivony.Web.Route/SimpleRouteTable.cs:112 | the routed rule has the fewest dynamic keys of all applicable rules, the earliest among equals |
| RuleSelection.DefaultRequest | Ivony.Web.Route.Test/RouteTest.cs:29-37 | the test's rule routes GET `~/` with `Test = Default` |
| RuleSelection.Candidates | Ivony.Web.Route/SimpleRouteTable.cs:200-205 | exactly the rules that are not one-way, have every route key supplied, admit every supplied key (or do not limit queries) and match the values |
| RuleSelection.Candidate | Ivony.Web.Route/SimpleRouteTable.cs:200-205 | a candidate is not one-way, so it has no verb or the verb `GET`; every route key is supplied |
| RuleSelection.KeepHighest | Ivony.Web.Route/SimpleRouteTable.cs:364 | `GroupBy(...).OrderByDescending(...).First()`: exactly the elements with the highest score, never empty |
| RuleSelection.BestRule | Ivony.Web.Route/SimpleRouteTable.cs:360-392 | the rule chosen is a candidate |
| RuleSelection.BestRuleCascade | Ivony.Web.Route/SimpleRouteTable.cs:360-392 | the early returns change nothing: the result is the last step applied to what the three filters leave |
| RuleSelection.SurvivorsUnbeaten | Ivony.Web.Route/SimpleRouteTable.cs:364-378 | the three filters leave exactly the candidates nothing outranks (more static values, then more route keys, then fewer dynamic keys) |
| RuleSelection.Survivors | Ivony.Web.Route/SimpleRouteTable.cs:364-378 | the three filters leave at least one rule, all of them candidates |
| RuleSelection.Choose | Ivony.Web.Route/SimpleRouteTable.cs:384-390 | the only survivor when there is one; otherwise a GET survivor, or null |
| RuleSelection.BestRuleIsUnbeaten | Ivony.Web.Route/SimpleRouteTable.cs:360-392 | the chosen rule is unbeaten, and any other unbeaten candidate is not a GET rule while the chosen one is |
| RuleSelection.BestRuleNull | Ivony.Web.Route/SimpleRouteTable.cs:384-390 | null exactly when two or more candidates tie on all three counts and not exactly one of them is a GET rule |
| RuleSelection.SingleCandidate | Ivony.Web.Route/SimpleRouteTable.cs:366-367 | a single candidate is always chosen |
| RuleSelection.Reverse | Ivony.Web.Route/SimpleRouteTable.cs:197-213 | the rule chosen is one of the table's rules |
| RuleSelection.ReverseDeclines | Ivony.Web.Route/SimpleRouteTable.cs:207-213 | null exactly when no rule is a candidate; `NullReferenceException` exactly when there are candidates and `BestRule` returns null |
| RuleSelection.ReverseChooses | Ivony.Web.Route/SimpleRouteTable.cs:211-213 | a returned path comes from an unbeaten candidate through `CreateVirtualPath`; any other exception is the one `CreateVirtualPath` throws for the rule `BestRule` chose |
| RuleSelection.CandidatePathError | Ivony.Web.Route/SimpleRouteTable.cs:202-213 | a candidate has every dynamic key supplied, so `CreateVirtualPath` can only fail with `ArgumentException("routeValues")` |
| RuleSelection.PreprocessVirtualPath | Ivony.Web.Route/SimpleRouteTable.cs:143-157 | `ArgumentNullException` exactly for null; otherwise the path without its extension, unchanged when that is empty or ends with `/` and with one `/` appended otherwise; the result has no extension |
| RuleSelection.PreprocessIdempotent | Ivony.Web.Route/SimpleRouteTable.cs:143-157 | preprocessing a preprocessed path changes nothing |
| Registration.PrepareRule | Ivony.Web.Route/SimpleRouteTable.cs:285-315 | `ArgumentNullException` for the first null of name, pattern and route values, each exactly in its case; a prepared rule is compiled with the given name, verb, values and one-way flag, and its pattern starts with `~/` and ends with `/` |
| Registration.OnlyRootRegisters | Ivony.Web.Route/SimpleRouteTable.cs:298-312 | every rule `AddRule(name, …)` builds has the pattern `~/`, no paragraphs and no dynamic keys |
| Registration.SlashPatternRefused | Ivony.Web.Route/SimpleRouteTable.cs:298-302 | a pattern starting with `/` is refused with `ArgumentException("urlPattern")` |
| Registration.DefaultRule | Ivony.Web.Route.Test/RouteTest.cs:32 | the test's `AddRule("Default", "", {Test: Default})`, read as `MapRoute(name, urlPattern, routeValues)`, builds the root rule with that one static value |
| RouteTables.RoutedMeaning | Ivony.Web.Route/SimpleRouteTable.cs:110-139 | a cache miss answers null exactly when every rule declines; otherwise the first rule to apply gives the error, or the RouteData with its values, its name and this table as the only router |
| RouteTables.Routed | Ivony.Web.Route/SimpleRouteTable.cs:110-139 | a RouteData found is owned by the table alone and carries the name of one of its rules |
| RouteTables.RulesOf | Ivony.Web.Route/SimpleRouteTable.cs:427-433 | the rules of the rule objects, in order |
| RouteTables.WithoutEmptyArea | Ivony.Web.Route/SimpleRouteTable.cs:186-187 | an `area` whose value is `""` is removed; other values are untouched; a dictionary stays a dictionary |
| RouteTables.RemovedKeyGone | Ivony.Web.Route/SimpleRouteTable.cs:187 | after `Remove` the key is gone and the dictionary stays a dictionary |
| RouteTables.Statics.constructor | Ivony.Web.Route/SimpleRouteTable.cs:345 | the process starts with an empty conflict table and an empty cache |
| RouteTables.RouteTable.constructor | Ivony.Web.Route/SimpleRouteTable.cs:411-418 | a new table has its name, the shared statics and no rules |
| RouteTables.RouteTable.Rules | Ivony.Web.Route/SimpleRouteTable.cs:427-433 | the rules, in registration order |
| RouteTables.RouteTable.AddRuleObject | Ivony.Web.Route/SimpleRouteTable.cs:321-333 | no conflict: the rule is appended, owned by this table and registered under both descriptors; a conflict: nothing changes and `InvalidOperationException` names the rule, the conflicting rule's table and the conflicting rule, or `NullReferenceException` when that rule has no table |
| RouteTables.RouteTable.Adopt | Ivony.Web.Route/SimpleRouteTable.cs:330-332 | the rule is appended and this table becomes its owner |
| RouteTables.RouteTable.AddRule | Ivony.Web.Route/SimpleRouteTable.cs:285-315 | a failed check changes nothing and reports its exception; otherwise the rule with a null verb is registered as `AddRule(rule)` does |
| RouteTables.RouteTable.Register | Ivony.Web.Route/SimpleRouteTable.cs:321-333 | `AddRule` of a new rule object, stated by the rule's contents |
| RouteTables.RouteTable.GetRouteData | Ivony.Web.Route/SimpleRouteTable.cs:81-141 | null for an ignored path; on a cache hit the cached RouteData, or null when another table cached it; on a miss `Routed`, cached when found; reverse entries untouched |
| RouteTables.RouteTable.RouteAndCache | Ivony.Web.Route/SimpleRouteTable.cs:110-139 | a miss answers `Routed` and caches exactly a found RouteData |
| RouteTables.RouteTable.CacheRouteData | Ivony.Web.Route/SimpleRouteTable.cs:125-136 | the RouteData is copied and cached under the key |
| RouteTables.CopyValues | Ivony.Web.Route/SimpleRouteTable.cs:127-128 | the `Add` loop copies a dictionary unchanged, never throwing |
| RouteTables.MatchIsDict | Ivony.Web.Route/SimpleRouteTable.cs:127-128 | the values a table's rules match are a dictionary, so the copy never throws |
| RouteTables.RouteTable.GetVirtualPath | Ivony.Web.Route/SimpleRouteTable.cs:181-225 | an empty `area` is dropped; a reverse cache hit answers the cached path whichever table cached it; a miss answers `Reverse`, null for an ignored path, and caches a path it returns; forward entries untouched |
| RouteTables.RouteTable.CachePath | Ivony.Web.Route/SimpleRouteTable.cs:207-224 | the end of a miss: the exception, null, null for an ignored path, or the path cached with its rule |
| RouteTables.ChooseVirtualPath | Ivony.Web.Route/SimpleRouteTable.cs:197-213 | the candidate filter, `BestRule` and `CreateVirtualPath` compute `Reverse` |
| RouteTables.DefaultTable | Ivony.Web.Route.Test/RouteTest.cs:23 | the test's table `Default` holds the one rule the test adds, owned by it and registered in the conflict table |
| RouteTables.DefaultRoute | Ivony.Web.Route.Test/RouteTest.cs:29-37 | the route-table test: GET `~/` gives RouteData with `Test = Default` from rule `Default` |
| RouteTables.OneStringRulePerProcess | Ivony.Web.Route/SimpleRouteTable.cs:345 | after the test's rule, any rule another table registers through `AddRule(name, …)` is refused with the conflict naming table `Default` and rule `Default` |
| RouteCollections.RouteCollection.constructor | Ivony.Web.Route/SimpleRouteCollection.cs:102 | a new collection has no rules and an empty conflict table of its own |
| RouteCollections.RouteCollection.TryAddRule | Ivony.Web.Route/SimpleRouteCollection.cs:84-95 | the rule is appended exactly when its own conflict table accepts it; the conflict is reported otherwise |
| RouteCollections.RouteCollection.AddRuleObject | Ivony.Web.Route/SimpleRouteCollection.cs:60-74 | on a conflict nothing is added, the conflict table is unchanged and `InvalidOperationException` names the conflicting rule's table, or the route set when it has none; otherwise the rule is appended and registered under its two descriptors |
| RouteCollections.RouteCollection.AddRule | Ivony.Web.Route/SimpleRouteCollection.cs:24-54 | the checks and normalisation of the table's `AddRule`, keeping the given verb; then success exactly when the collection's own conflict table has no conflict for the rule: the new rule is appended, belongs to no table and is registered under its two descriptors; on a conflict nothing changes and `InvalidOperationException` names the conflicting rule's table or the route set |
| RouteCollections.RouteCollection.Register | Ivony.Web.Route/SimpleRouteCollection.cs:50-52 | `new SimpleRouteRule(...)` followed by `AddRule(rule)`, stated by the rule's contents: the same outcome as above for a compiled rule |
| RouteCollections.SeparateCollections | Ivony.Web.Route/SimpleRouteCollection.cs:102 | two collections both accept the same rule |

## Left out

- `HttpExtensions.GetUrl`: it only assembles a `Uri` from request fields and computes nothing the router uses.
- `RouteAsync`, the `IRouter` glue: it reads the HTTP context and hands over to `GetRouteData`. Requests are given as verb, path and query instead.
- `GetVirtualPath(VirtualPathContext)`'s first conversion: the context's values are given directly as a string dictionary.
- `CreateVirtualPathData`: it replaces `~` by the request's `PathBase` and copies data tokens. The model returns the virtual path and the rule name.
- Loggers, and the table constructor's handler, encoder and default router. The logger only logs, and the others are only stored. The constructor's `CreateLogger` call throws `ArgumentNullException` when no logger factory is given (`Ivony.Web.Route/SimpleRouteTable.cs:411`, `416`). The model's constructor takes no factory and stands for a call that supplies one.
- `DataTokens`: every rule's are empty, and nothing in the core sets them except `RoutingRuleName`, which is modelled.
- Locks in the conflict table and the descriptors: the model is sequential.
- Memoisation of `StaticPrefix` and the two descriptors: they are functions of an immutable rule, so memoising changes nothing.
- `MemoryCache` eviction, priorities and the type check of `Cache.Get<T>`: each entry kind has its own map, and entries are never evicted.
- `SimpleRouteExtensions`, `ISimpleRouteBuilder` and the collection's enumerator: they are thin wrappers. Enumeration yields the `rules` field.
- `IsIgnoredPath` is a function the table is given; the source's own version ignores nothing.
- `RouteValues.GetRouteValues`: a null `queries` collection is not modelled; the source dereferences it.
- `HttpExtensions.ToQueryString`: orders keys and values ordinally, where `Comparer<string>.Default` uses culture-sensitive ordering.
- `Text.Fold`: case folding covers ASCII letters only, where `OrdinalIgnoreCase` folds all of Unicode. `UrlPattern.IsLetterOrDigit` likewise restricts `\p{Lu}`, `\p{Ll}` and `\p{Nd}` to ASCII.
- `HttpExtensions.ToDirectory`: `PathString`'s escaping of unusual characters is not modelled.
- `Framework.UrlEncode` and `Framework.GetExtension` are written-out stand-ins for the .NET calls, covering the facts the router relies on.
- `CacheKeys.CreateCacheKey`: each route value's appends are gathered into one string before being added, which gives the same text.
- Static route values are non-null strings: `AddRule` builds its descriptors from them and would throw on a null one.
- `StartsWith` and `EndsWith` with a string argument compare culture-sensitively in .NET (`Ivony.Web.Route/SimpleRouteTable.cs:298`, `300`, `309`, `Ivony.Web.Route/SimpleRouteCollection.cs:37`, `39`, `48`, `Ivony.Web.Route/SimpleRouteRule.cs:407`). The model compares ordinally. Under ICU, characters the culture ignores make a difference: `"\u200B/a".StartsWith("/")` is true there and false in the model.
- `ContractReading.ContractDescriptorMeaning`: proved only for rules whose verbs, static keys and static values hold no `"`. `Replace("\"", "\\\"")` leaves backslashes alone, so a general reading of the descriptor is not proved, though no two readings of one descriptor are known either.
- `RouteReading.StaticMismatchDeclines`: null is proved only when the static keys and the dynamic names are distinct. Otherwise the result is null or `ArgumentException`, depending on which comes first.
- `RoundTrip.VirtualPathRoundTrip`: proved only when nothing goes to the query string. Otherwise the round trip fails in the source. For the unlimited rule `~/{a}` and the values `{a: x, b: y}`, `CreateVirtualPath` builds `~/x?b=y`, and `GetRouteValues` reads `a` as `x?b=y`, because it splits the whole text it is given. The theorem also assumes a pattern without the final newline that `$` admits, distinct dynamic names, and no `.` in static segments or dynamic values.
- `RuleSelection.BestRule`: its own contract states only that the result is a candidate; the lemmas beside it state the ranking.
- `RuleSelection.Reverse`: its own contract states only that the chosen rule is one of the rules; `ReverseDeclines` and `ReverseChooses` state the rest.

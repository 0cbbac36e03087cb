/**
  * HttpExtensions: the helpers over ASP.NET Core's request types that the route table uses. A
  * PathString or QueryString is modelled by its Value (None for null); an IQueryCollection by its
  * parameters, each a key and the values of its StringValues.
  */
module HttpExtensions {
  import opened Wrappers
  import opened Text
  import opened Sorting

  /** PathString.HasValue / QueryString.HasValue: not null and not empty. */
  predicate HasValue(value: Option<string>) {
    value.Some? && value.value != ""
  }

  /** ToDirectory: a path without a value becomes the null path; otherwise a '/' is appended unless
      the path already ends with one. */
  function ToDirectory(virtualPath: Option<string>): (r: Option<string>)
    ensures r.None? <==> !HasValue(virtualPath)
    ensures r.Some? ==> (EndsWith(r.value, "/")
      && (r.value == virtualPath.value || r.value == virtualPath.value + "/"))
    ensures r.Some? && EndsWith(virtualPath.value, "/") ==> r == virtualPath
    ensures r.Some? && !EndsWith(virtualPath.value, "/") ==> r.value == virtualPath.value + "/"
  {
    if !HasValue(virtualPath) then None
    else if EndsWith(virtualPath.value, "/") then virtualPath
    else Some(virtualPath.value + "/")
  }

  /** A directory is its own directory. */
  lemma ToDirectoryIdempotent(virtualPath: Option<string>)
    ensures ToDirectory(ToDirectory(virtualPath)) == ToDirectory(virtualPath)
  {
  }

  /** One parameter of an IQueryCollection: its key and the strings of its StringValues. */
  datatype QueryParam = QueryParam(key: Option<string>, values: seq<Option<string>>)

  type Query = seq<QueryParam>

  datatype KeyValue = KeyValue(key: Option<string>, value: Option<string>)

  /** SelectMany: one key/value pair per value, parameter by parameter. */
  function Flatten(query: Query): seq<KeyValue> {
    if |query| == 0 then []
    else Spread(query[0]) + Flatten(query[1..])
  }

  /** The pairs of one parameter. */
  function Spread(param: QueryParam): (pairs: seq<KeyValue>)
    ensures |pairs| == |param.values|
    ensures forall j :: 0 <= j < |pairs| ==> pairs[j] == KeyValue(param.key, param.values[j])
  {
    seq(|param.values|, j requires 0 <= j < |param.values| => KeyValue(param.key, param.values[j]))
  }

  /** The pairs are exactly the parameters' key/value combinations. */
  lemma {:induction false} FlattenMembers(query: Query)
    ensures forall i, j :: 0 <= i < |query| && 0 <= j < |query[i].values| ==>
      KeyValue(query[i].key, query[i].values[j]) in Flatten(query)
    ensures forall p :: p in Flatten(query) ==>
      exists i :: 0 <= i < |query| && p.key == query[i].key && p.value in query[i].values
  {
    if |query| > 0 {
      FlattenMembers(query[1..]);
      var rest := Flatten(query[1..]);
      forall i, j | 0 <= i < |query| && 0 <= j < |query[i].values|
        ensures KeyValue(query[i].key, query[i].values[j]) in Flatten(query)
      {
        if i == 0 {
          assert Spread(query[0])[j] == KeyValue(query[i].key, query[i].values[j]);
        } else {
          assert query[1..][i - 1] == query[i];
        }
      }
      forall p | p in Flatten(query)
        ensures exists i :: 0 <= i < |query| && p.key == query[i].key && p.value in query[i].values
      {
        if p in rest {
          var i :| 0 <= i < |query[1..]| && p.key == query[1..][i].key && p.value in query[1..][i].values;
          assert query[1..][i] == query[i + 1];
        } else {
          var j :| 0 <= j < |Spread(query[0])| && Spread(query[0])[j] == p;
          assert p.value == query[0].values[j];
        }
      }
    }
  }

  lemma FlattenConcat(a: Query, b: Query)
    ensures Flatten(a + b) == Flatten(a) + Flatten(b)
  {
    if |a| > 0 {
      assert (a + b)[1..] == a[1..] + b;
      FlattenConcat(a[1..], b);
    } else {
      assert a + b == b;
    }
  }

  /** The order Comparer<string>.Default gives, taken ordinally: null first, then strings by
      character; each string ends with a marker below every character, so that a pair's order is
      its key's order, then its value's. */
  function Encode(s: Option<string>): (r: seq<int>)
    ensures |r| > 0 && r[|r| - 1] == (if s.Some? then 1 else 0)
    ensures forall i :: 0 <= i < |r| - 1 ==> r[i] >= 2
  {
    match s
    case None => [0]
    case Some(t) => seq(|t|, i requires 0 <= i < |t| => t[i] as int + 2) + [1]
  }

  lemma EncodeInjective(a: Option<string>, b: Option<string>)
    requires Encode(a) == Encode(b)
    ensures a == b
  {
    if a.Some? && b.Some? {
      assert |a.value| == |b.value|;
      forall i | 0 <= i < |a.value| ensures a.value[i] == b.value[i] {
        assert Encode(a)[i] == Encode(b)[i];
      }
      assert a.value == b.value;
    }
  }

  /** OrderBy(key).ThenBy(value) */
  function PairOrder(p: KeyValue): seq<int> {
    Encode(p.key) + Encode(p.value)
  }

  /** The first key encoding ends at its first marker, so a pair's order splits back into its
      parts. */
  lemma PairOrderInjective(p: KeyValue, q: KeyValue)
    requires PairOrder(p) == PairOrder(q)
    ensures p == q
  {
    var a, b := Encode(p.key), Encode(q.key);
    var s := PairOrder(p);
    MarkerEnds(p.key, Encode(p.value));
    MarkerEnds(q.key, Encode(q.value));
    if |a| < |b| {
      assert false;
    } else if |b| < |a| {
      assert false;
    }
    assert a == s[..|a|] == b;
    EncodeInjective(p.key, q.key);
    assert Encode(p.value) == s[|a|..] == Encode(q.value);
    EncodeInjective(p.value, q.value);
  }

  /** In an encoding followed by anything, the first marker is the encoding's last element. */
  lemma MarkerEnds(x: Option<string>, rest: seq<int>)
    ensures var e := Encode(x); var s := e + rest;
      && s[|e| - 1] < 2
      && forall i :: 0 <= i < |e| - 1 ==> s[i] >= 2
  {
  }

  function Formatted(s: Option<string>): string {
    s.GetOr("")
  }

  /** $"{key}={value}", a null part formatting as nothing. */
  function Render(p: KeyValue): string {
    Formatted(p.key) + "=" + Formatted(p.value)
  }

  function Renders(pairs: seq<KeyValue>): (r: seq<string>)
    ensures |r| == |pairs|
    ensures forall i :: 0 <= i < |pairs| ==> r[i] == Render(pairs[i])
  {
    seq(|pairs|, i requires 0 <= i < |pairs| => Render(pairs[i]))
  }

  /** ToQueryString: ArgumentNullException for a null collection; the empty QueryString (a null
      value) when there are no pairs; otherwise '?' and the sorted pairs joined by '&'. */
  function ToQueryString(query: Option<Query>): (r: Result<Option<string>, Error>)
    ensures r.Err? <==> query.None?
    ensures r.Err? ==> r.error == ArgumentNull("query")
    ensures r.Ok? ==> (r.value.None? <==> |Flatten(query.value)| == 0)
    ensures r.Ok? && r.value.Some? ==> exists sorted ::
      && SortedBy(sorted, PairOrder)
      && multiset(sorted) == multiset(Flatten(query.value))
      && r.value.value == "?" + Join("&", Renders(sorted))
  {
    match query
    case None => Err(ArgumentNull("query"))
    case Some(q) =>
      var pairs := Flatten(q);
      if |pairs| == 0 then Ok(None)
      else Ok(Some("?" + Join("&", Renders(SortBy(pairs, PairOrder)))))
  }

  /** Sorting on the pair order leaves no trace of the input order. */
  lemma PairOrderKeyInjective(pairs: seq<KeyValue>)
    ensures KeyInjective(pairs, PairOrder)
  {
    forall x, y | x in pairs && y in pairs && PairOrder(x) == PairOrder(y) ensures x == y {
      PairOrderInjective(x, y);
    }
  }

  /** The query string does not depend on the order of the parameters: two collections holding
      the same parameters in any order give the same query string. */
  lemma QueryStringOrderFree(q1: Query, q2: Query)
    requires multiset(q1) == multiset(q2)
    ensures ToQueryString(Some(q1)) == ToQueryString(Some(q2))
  {
    FlattenPermutation(q1, q2);
    var p1, p2 := Flatten(q1), Flatten(q2);
    assert |p1| == |multiset(p1)| == |multiset(p2)| == |p2|;
    PairOrderKeyInjective(p1);
    SortPermutationInvariant(p1, p2, PairOrder);
  }

  lemma {:induction false} FlattenPermutation(q1: Query, q2: Query)
    requires multiset(q1) == multiset(q2)
    ensures multiset(Flatten(q1)) == multiset(Flatten(q2))
  {
    if |q1| == 0 {
      assert |q2| == |multiset(q2)| == 0;
    } else {
      var x := q1[0];
      assert x in multiset(q2);
      var k :| 0 <= k < |q2| && q2[k] == x;
      var rest2 := q2[..k] + q2[k + 1..];
      assert q2 == q2[..k] + [x] + q2[k + 1..];
      assert q1 == [x] + q1[1..];
      assert multiset(q2) == multiset(q2[..k]) + multiset{x} + multiset(q2[k + 1..]);
      assert multiset(rest2) == multiset(q2[..k]) + multiset(q2[k + 1..]);
      assert multiset(q1) == multiset{x} + multiset(q1[1..]);
      assert multiset(q1[1..]) == multiset(q1) - multiset{x};
      assert multiset(rest2) == multiset(q2) - multiset{x};
      FlattenPermutation(q1[1..], rest2);
      FlattenConcat([x], q1[1..]);
      FlattenConcat(q2[..k] + [x], q2[k + 1..]);
      FlattenConcat(q2[..k], [x]);
      FlattenConcat(q2[..k], q2[k + 1..]);
    }
  }

  /** QueryString.ToUriComponent: "" without a value, otherwise the value with '#' escaped. */
  function ToUriComponent(value: Option<string>): (r: string)
    ensures '#' !in r
    ensures HasValue(value) && '#' !in value.value ==> r == value.value
    ensures !HasValue(value) ==> r == ""
  {
    if HasValue(value) then EscapeHash(value.value) else ""
  }

  function EscapeHash(s: string): (r: string)
    ensures '#' !in r
    ensures '#' !in s ==> r == s
  {
    if |s| == 0 then ""
    else (if s[0] == '#' then "%23" else [s[0]]) + EscapeHash(s[1..])
  }

  /** GetAppRelativePath: null without a path; otherwise the path with PathBase's length cut off,
      its leading '/' trimmed, behind "~/". A PathBase longer than the path makes Substring throw. */
  function GetAppRelativePath(path: Option<string>, pathBase: string): (r: Result<Option<string>, Error>)
    ensures r.Err? <==> HasValue(path) && |pathBase| > |path.value|
    ensures r.Err? ==> r.error == ArgumentOutOfRange("startIndex")
    ensures r == Ok(None) <==> !HasValue(path)
    ensures r.Ok? && r.value.Some? ==>
      && StartsWith(r.value.value, "~/")
      && var cut := path.value[|pathBase|..];
         var rest := r.value.value[2..];
         && |rest| <= |cut| && rest == cut[|cut| - |rest|..]
         && (|rest| > 0 ==> rest[0] != '/')
         && forall i :: 0 <= i < |cut| - |rest| ==> cut[i] == '/'
  {
    if !HasValue(path) then Ok(None)
    else if |pathBase| > |path.value| then Err(ArgumentOutOfRange("startIndex"))
    else
      var rest := TrimStart(path.value[|pathBase|..], '/');
      Ok(Some("~/" + rest))
  }

  /** Below a PathBase, the app-relative path of PathBase followed by one or more slashes and a path not
      starting with '/' is "~/" followed by that path: the two forms translate into each other. */
  lemma {:induction false} AppRelativeRoundTrip(pathBase: string, slashes: nat, rest: string)
    requires slashes > 0 && (|rest| == 0 || rest[0] != '/')
    ensures GetAppRelativePath(Some(pathBase + Repeat("/", slashes) + rest), pathBase) == Ok(Some("~/" + rest))
  {
    var p := pathBase + Repeat("/", slashes) + rest;
    assert p[|pathBase|] == '/';
    assert p[|pathBase|..] == Repeat("/", slashes) + rest;
    TrimSlashes(slashes, rest);
  }

  lemma {:induction false} TrimSlashes(n: nat, rest: string)
    requires |rest| == 0 || rest[0] != '/'
    ensures TrimStart(Repeat("/", n) + rest, '/') == rest
  {
    if n > 0 {
      assert (Repeat("/", n) + rest)[1..] == Repeat("/", n - 1) + rest;
      TrimSlashes(n - 1, rest);
    }
  }
}

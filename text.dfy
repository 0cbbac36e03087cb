/**
  * Strings as sequences of characters, and the .NET string operations the router uses.
  * `Fold` is the case mapping behind StringComparer.OrdinalIgnoreCase: two strings are equal
  * ignoring case when their folds are equal.
  */
module Text {

  /** Ordinal upper-casing of one character (ASCII letters; every other character is its own fold). */
  function FoldChar(c: char): char {
    if 'a' <= c <= 'z' then (c as int - 32) as char else c
  }

  function Fold(s: string): (r: string)
    ensures |r| == |s|
  {
    seq(|s|, i requires 0 <= i < |s| => FoldChar(s[i]))
  }

  /** string.Equals(a, b, StringComparison.OrdinalIgnoreCase) */
  predicate EqualsIgnoreCase(a: string, b: string) {
    Fold(a) == Fold(b)
  }

  lemma FoldConcat(a: string, b: string)
    ensures Fold(a + b) == Fold(a) + Fold(b)
  {
    assert forall i :: 0 <= i < |a + b| ==> Fold(a + b)[i] == (Fold(a) + Fold(b))[i];
  }

  /** The characters the router treats specially are their own folds. */
  lemma FoldFixesPunctuation(s: string)
    requires forall i :: 0 <= i < |s| ==> !('a' <= s[i] <= 'z')
    ensures Fold(s) == s
  {
  }

  /** Ordinal string.StartsWith. */
  predicate StartsWith(s: string, prefix: string) {
    |prefix| <= |s| && s[..|prefix|] == prefix
  }

  /** Ordinal string.EndsWith. */
  predicate EndsWith(s: string, suffix: string) {
    |suffix| <= |s| && s[|s| - |suffix|..] == suffix
  }

  /** string.IndexOf(char): the first position of `c`, or -1. */
  function IndexOfChar(s: string, c: char): (r: int)
    ensures -1 <= r < |s|
    ensures r == -1 <==> c !in s
    ensures r >= 0 ==> s[r] == c && c !in s[..r]
  {
    if |s| == 0 then -1
    else if s[0] == c then 0
    else
      var i := IndexOfChar(s[1..], c);
      if i < 0 then -1 else i + 1
  }

  /** No two consecutive '/' characters. */
  predicate NoDoubleSlash(s: string) {
    forall i :: 0 <= i < |s| - 1 ==> !(s[i] == '/' && s[i + 1] == '/')
  }

  /** The characters of s other than '/', in order. */
  function Unslashed(s: string): string {
    if |s| == 0 then "" else (if s[0] == '/' then "" else [s[0]]) + Unslashed(s[1..])
  }

  /** Regex.Replace(s, "/+", "/"): every run of '/' becomes a single '/'. */
  function CollapseSlashes(s: string): (r: string)
    ensures |r| <= |s|
    ensures |s| > 0 ==> |r| > 0 && r[0] == s[0]
    ensures NoDoubleSlash(r)
    ensures NoDoubleSlash(s) ==> r == s
    ensures forall c :: c in r <==> c in s
    ensures Unslashed(r) == Unslashed(s)
  {
    if |s| <= 1 then s
    else if s[0] == '/' && s[1] == '/' then CollapseSlashes(s[1..])
    else
      var rest := CollapseSlashes(s[1..]);
      assert ([s[0]] + rest)[1..] == rest;
      [s[0]] + rest
  }

  /** The replacement read left to right: appending a character appends it to the result, unless
      it is a '/' following a '/', which the run already holds. With CollapseSlashes("") == "",
      this fixes the result of every string. */
  lemma {:induction false} CollapseSnoc(s: string, c: char)
    ensures CollapseSlashes(s + [c]) ==
      if |s| > 0 && s[|s| - 1] == '/' && c == '/' then CollapseSlashes(s) else CollapseSlashes(s) + [c]
  {
    if |s| > 1 {
      assert (s + [c])[1..] == s[1..] + [c];
      CollapseSnoc(s[1..], c);
    } else if |s| == 1 {
      assert (s + [c])[1..] == [c];
    }
  }

  /** string.TrimEnd(c) */
  function TrimEnd(s: string, c: char): (r: string)
    ensures r <= s
    ensures |r| > 0 ==> r[|r| - 1] != c
    ensures forall i :: |r| <= i < |s| ==> s[i] == c
  {
    if |s| > 0 && s[|s| - 1] == c then TrimEnd(s[..|s| - 1], c) else s
  }

  /** string.TrimStart(c) */
  function TrimStart(s: string, c: char): (r: string)
    ensures |r| <= |s| && r == s[|s| - |r|..]
    ensures |r| > 0 ==> r[0] != c
    ensures forall i :: 0 <= i < |s| - |r| ==> s[i] == c
  {
    if |s| > 0 && s[0] == c then TrimStart(s[1..], c) else s
  }

  /** string.Join(sep, parts) */
  function Join(sep: string, parts: seq<string>): string {
    if |parts| == 0 then ""
    else if |parts| == 1 then parts[0]
    else parts[0] + sep + Join(sep, parts[1..])
  }

  /** string.Split(c): the pieces between occurrences of `c`, empty pieces included. */
  function Split(s: string, c: char): (parts: seq<string>)
    ensures |parts| >= 1
    ensures forall i :: 0 <= i < |parts| ==> c !in parts[i]
    ensures Join([c], parts) == s
    decreases |s|
  {
    var i := IndexOfChar(s, c);
    if i < 0 then [s]
    else
      var rest := Split(s[i + 1..], c);
      assert s == s[..i] + [c] + s[i + 1..];
      [s[..i]] + rest
  }

  /** Splitting a joined list of pieces that do not contain the separator gives the pieces back. */
  lemma {:induction false} SplitJoin(parts: seq<string>, c: char)
    requires |parts| >= 1
    requires forall i :: 0 <= i < |parts| ==> c !in parts[i]
    ensures Split(Join([c], parts), c) == parts
  {
    if |parts| > 1 {
      var rest := Join([c], parts[1..]);
      assert Join([c], parts) == parts[0] + [c] + rest;
      SplitStep(parts[0], c, rest);
      SplitJoin(parts[1..], c);
      assert parts == [parts[0]] + parts[1..];
    }
  }

  /** The first piece is everything before the first separator. */
  lemma SplitStep(first: string, c: char, rest: string)
    requires c !in first
    ensures Split(first + [c] + rest, c) == [first] + Split(rest, c)
  {
    var s := first + [c] + rest;
    assert s[..|first|] == first;
    assert s[|first|] == c;
    assert IndexOfChar(s, c) == |first|;
    assert s[|first| + 1..] == rest;
  }

  /** Concatenation of a sequence of strings (string.Concat). */
  function Concat(parts: seq<string>): string {
    if |parts| == 0 then "" else parts[0] + Concat(parts[1..])
  }

  /** Concatenation regrouped, for proofs that would otherwise search for the grouping. */
  lemma AppendAssoc<T>(a: seq<T>, b: seq<T>, c: seq<T>)
    ensures (a + b) + c == a + (b + c)
  {
  }

  lemma ConcatAppend(parts: seq<string>, last: string)
    ensures Concat(parts + [last]) == Concat(parts) + last
  {
    if |parts| > 0 {
      assert (parts + [last])[1..] == parts[1..] + [last];
      ConcatAppend(parts[1..], last);
    }
  }

  lemma ConcatSplit(a: seq<string>, b: seq<string>)
    ensures Concat(a + b) == Concat(a) + Concat(b)
  {
    if |a| > 0 {
      assert (a + b)[1..] == a[1..] + b;
      ConcatSplit(a[1..], b);
    } else {
      assert a + b == b;
    }
  }

  /** string.Replace(c, rep) for a one-character pattern: every `c` becomes `rep`. */
  function ReplaceAll(s: string, c: char, rep: string): (r: string)
    ensures c !in s ==> r == s
  {
    if |s| == 0 then ""
    else (if s[0] == c then rep else [s[0]]) + ReplaceAll(s[1..], c, rep)
  }

  lemma ReplaceAllConcat(a: string, b: string, c: char, rep: string)
    ensures ReplaceAll(a + b, c, rep) == ReplaceAll(a, c, rep) + ReplaceAll(b, c, rep)
  {
    if |a| > 0 {
      assert (a + b)[1..] == a[1..] + b;
      ReplaceAllConcat(a[1..], b, c, rep);
    } else {
      assert a + b == b;
    }
  }

  /** string.Join("", Enumerable.Repeat(s, n)) */
  function Repeat(s: string, n: nat): (r: string)
    ensures |r| == n * |s|
  {
    if n == 0 then "" else s + Repeat(s, n - 1)
  }

  /** Character codes, the basis of ordinal comparison. */
  function Codes(s: string): (r: seq<int>)
    ensures |r| == |s|
  {
    seq(|s|, i requires 0 <= i < |s| => s[i] as int)
  }

  lemma CodesInjective(a: string, b: string)
    requires Codes(a) == Codes(b)
    ensures a == b
  {
    assert |a| == |b|;
    forall i | 0 <= i < |a| ensures a[i] == b[i] {
      assert Codes(a)[i] == Codes(b)[i];
    }
  }
}

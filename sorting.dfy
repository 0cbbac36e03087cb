/**
  * LINQ's OrderBy over a key that compares ordinally: the key of an element is a sequence of
  * integers (character codes) and keys compare lexicographically. Sorting is insertion sort; what
  * matters is that the result is sorted, is a permutation of the input, and is the only such
  * sequence when no two elements share a key.
  */
module Sorting {

  /** Lexicographic order on integer sequences: ordinal string comparison on character codes. */
  predicate LexLe(a: seq<int>, b: seq<int>) {
    |a| == 0 || (|b| > 0 && (a[0] < b[0] || (a[0] == b[0] && LexLe(a[1..], b[1..]))))
  }

  lemma {:induction false} LexLeTotal(a: seq<int>, b: seq<int>)
    ensures LexLe(a, b) || LexLe(b, a)
  {
    if |a| > 0 && |b| > 0 && a[0] == b[0] {
      LexLeTotal(a[1..], b[1..]);
    }
  }

  lemma {:induction false} LexLeAntisymmetric(a: seq<int>, b: seq<int>)
    requires LexLe(a, b) && LexLe(b, a)
    ensures a == b
  {
    if |a| > 0 {
      LexLeAntisymmetric(a[1..], b[1..]);
      assert a == [a[0]] + a[1..] && b == [b[0]] + b[1..];
    }
  }

  lemma {:induction false} LexLeTransitive(a: seq<int>, b: seq<int>, c: seq<int>)
    requires LexLe(a, b) && LexLe(b, c)
    ensures LexLe(a, c)
  {
    if |a| > 0 && a[0] == b[0] && b[0] == c[0] {
      LexLeTransitive(a[1..], b[1..], c[1..]);
    }
  }

  ghost predicate SortedBy<T>(s: seq<T>, key: T -> seq<int>) {
    forall i, j :: 0 <= i < j < |s| ==> LexLe(key(s[i]), key(s[j]))
  }

  lemma {:induction false} LexLeReflexive(a: seq<int>)
    ensures LexLe(a, a)
  {
    if |a| > 0 {
      LexLeReflexive(a[1..]);
    }
  }

  /** Inserts `x` before the first element whose key is greater than its own. */
  function Insert<T>(x: T, s: seq<T>, key: T -> seq<int>): (r: seq<T>)
    ensures multiset(r) == multiset(s) + multiset{x}
  {
    if |s| == 0 then [x]
    else if LexLe(key(x), key(s[0])) then [x] + s
    else
      assert s == [s[0]] + s[1..];
      [s[0]] + Insert(x, s[1..], key)
  }

  lemma {:induction false} InsertSorted<T>(x: T, s: seq<T>, key: T -> seq<int>)
    requires SortedBy(s, key)
    ensures SortedBy(Insert(x, s, key), key)
  {
    if |s| == 0 {
    } else if LexLe(key(x), key(s[0])) {
      forall j | 0 < j < |s| ensures LexLe(key(x), key(s[j])) {
        LexLeTransitive(key(x), key(s[0]), key(s[j]));
      }
    } else {
      var rest := Insert(x, s[1..], key);
      InsertSorted(x, s[1..], key);
      LexLeTotal(key(x), key(s[0]));
      forall j | 0 <= j < |rest| ensures LexLe(key(s[0]), key(rest[j])) {
        assert rest[j] in multiset(rest);
        if rest[j] != x {
          assert rest[j] in multiset(s[1..]);
          var k :| 0 <= k < |s[1..]| && s[1..][k] == rest[j];
          assert s[k + 1] == rest[j];
        }
      }
      assert Insert(x, s, key) == [s[0]] + rest;
    }
  }

  /** OrderBy(key): a sorted permutation of `s`. */
  function SortBy<T>(s: seq<T>, key: T -> seq<int>): (r: seq<T>)
    ensures SortedBy(r, key)
    ensures multiset(r) == multiset(s)
  {
    if |s| == 0 then []
    else
      assert s == s[..|s| - 1] + [s[|s| - 1]];
      var sorted := SortBy(s[..|s| - 1], key);
      InsertSorted(s[|s| - 1], sorted, key);
      Insert(s[|s| - 1], sorted, key)
  }

  ghost predicate KeyInjective<T>(s: seq<T>, key: T -> seq<int>) {
    forall x, y | x in s && y in s :: key(x) == key(y) ==> x == y
  }

  lemma HeadsAgree<T>(a: seq<T>, b: seq<T>, key: T -> seq<int>)
    requires SortedBy(a, key) && SortedBy(b, key)
    requires multiset(a) == multiset(b) && |a| > 0
    requires KeyInjective(a, key)
    ensures |b| > 0 && a[0] == b[0]
  {
    assert a[0] in multiset(b);
    var j :| 0 <= j < |b| && b[j] == a[0];
    assert b[0] in multiset(a);
    var i :| 0 <= i < |a| && a[i] == b[0];
    LexLeReflexive(key(a[0]));
    assert LexLe(key(a[0]), key(b[0])) by {
      if i > 0 { assert LexLe(key(a[0]), key(a[i])); }
    }
    assert LexLe(key(b[0]), key(a[0])) by {
      if j > 0 { assert LexLe(key(b[0]), key(b[j])); }
    }
    LexLeAntisymmetric(key(a[0]), key(b[0]));
  }

  /** Two sorted permutations of the same elements are equal when no two elements share a key:
      the order of the input does not show in the output. */
  lemma {:induction false} SortedUnique<T>(a: seq<T>, b: seq<T>, key: T -> seq<int>)
    requires SortedBy(a, key) && SortedBy(b, key)
    requires multiset(a) == multiset(b)
    requires KeyInjective(a, key)
    ensures a == b
  {
    if |a| == 0 {
      assert |b| == |multiset(b)| == 0;
    } else {
      HeadsAgree(a, b, key);
      Tails(a, b, key);
      SortedUnique(a[1..], b[1..], key);
      assert a == [a[0]] + a[1..] && b == [b[0]] + b[1..];
    }
  }

  lemma Tails<T>(a: seq<T>, b: seq<T>, key: T -> seq<int>)
    requires SortedBy(a, key) && SortedBy(b, key) && KeyInjective(a, key)
    requires multiset(a) == multiset(b) && |a| > 0 && |b| > 0 && a[0] == b[0]
    ensures SortedBy(a[1..], key) && SortedBy(b[1..], key) && KeyInjective(a[1..], key)
    ensures multiset(a[1..]) == multiset(b[1..])
  {
    SortedTail(a, key);
    SortedTail(b, key);
    MultisetTail(a);
    MultisetTail(b);
    assert forall x :: x in a[1..] ==> x in a;
  }

  lemma SortedTail<T>(a: seq<T>, key: T -> seq<int>)
    requires SortedBy(a, key) && |a| > 0
    ensures SortedBy(a[1..], key)
  {
    forall i, j | 0 <= i < j < |a| - 1 ensures LexLe(key(a[1..][i]), key(a[1..][j])) {
      assert a[1..][i] == a[i + 1] && a[1..][j] == a[j + 1];
    }
  }

  lemma MultisetTail<T>(a: seq<T>)
    requires |a| > 0
    ensures multiset(a[1..]) == multiset(a) - multiset{a[0]}
  {
    assert a == [a[0]] + a[1..];
  }

  lemma SortPermutationInvariant<T>(a: seq<T>, b: seq<T>, key: T -> seq<int>)
    requires multiset(a) == multiset(b)
    requires KeyInjective(a, key)
    ensures SortBy(a, key) == SortBy(b, key)
  {
    var sa, sb := SortBy(a, key), SortBy(b, key);
    forall x, y | x in sa && y in sa ensures key(x) == key(y) ==> x == y {
      assert x in multiset(sa) && y in multiset(sa);
      assert x in a && y in a;
    }
    SortedUnique(sa, sb, key);
  }
}

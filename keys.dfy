/**
  * Keys compared with StringComparer.OrdinalIgnoreCase. A key collection (HashSet or
  * ReadOnlyCollection built with that comparer) is a sequence of strings no two of which are
  * equal ignoring case, in enumeration order. A dictionary built with that comparer is a sequence
  * of entries with such keys, in insertion order; each key keeps the spelling it was added with.
  */
module Keys {
  import opened Text
  import opened Wrappers

  /** The position of the first key equal to `k` ignoring case, or -1. */
  function IndexOfKey(ks: seq<string>, k: string): (i: int)
    ensures -1 <= i < |ks|
    ensures i >= 0 ==> Fold(ks[i]) == Fold(k)
    ensures i >= 0 ==> forall j :: 0 <= j < i ==> Fold(ks[j]) != Fold(k)
    ensures i == -1 <==> forall j :: 0 <= j < |ks| ==> Fold(ks[j]) != Fold(k)
  {
    if |ks| == 0 then -1
    else if Fold(ks[0]) == Fold(k) then 0
    else
      var i := IndexOfKey(ks[1..], k);
      assert forall j :: 0 < j < |ks| ==> ks[j] == ks[1..][j - 1];
      if i < 0 then -1 else i + 1
  }

  /** Lookups see only the key's fold. */
  lemma {:induction false} IndexOfKeyFold(ks: seq<string>, k1: string, k2: string)
    requires Fold(k1) == Fold(k2)
    ensures IndexOfKey(ks, k1) == IndexOfKey(ks, k2)
  {
    if |ks| > 0 {
      IndexOfKeyFold(ks[1..], k1, k2);
    }
  }

  /** Contains(k, StringComparer.OrdinalIgnoreCase) */
  predicate HasKey(ks: seq<string>, k: string) {
    IndexOfKey(ks, k) >= 0
  }

  ghost predicate DistinctKeys(ks: seq<string>) {
    forall i, j :: 0 <= i < j < |ks| ==> Fold(ks[i]) != Fold(ks[j])
  }

  /** The keys, as the comparer sees them. */
  function Folded(ks: seq<string>): set<string> {
    set k | k in ks :: Fold(k)
  }

  lemma HasKeyFolded(ks: seq<string>, k: string)
    ensures HasKey(ks, k) <==> Fold(k) in Folded(ks)
  {
    if Fold(k) in Folded(ks) {
      var x :| x in ks && Fold(x) == Fold(k);
      var j :| 0 <= j < |ks| && ks[j] == x;
    }
  }

  lemma FoldedConcat(a: seq<string>, b: seq<string>)
    ensures Folded(a + b) == Folded(a) + Folded(b)
  {
    assert forall k :: k in a + b <==> k in a || k in b;
  }

  /** new HashSet<string>(ks, OrdinalIgnoreCase) enumerated, and ks.Distinct(OrdinalIgnoreCase):
      the first spelling of each key, in order of first occurrence. */
  function Distinct(ks: seq<string>): (r: seq<string>)
    ensures DistinctKeys(r)
    ensures Folded(r) == Folded(ks)
    ensures forall k :: k in r ==> k in ks
    ensures |r| <= |ks|
    ensures DistinctKeys(ks) ==> r == ks
  {
    if |ks| == 0 then []
    else
      var init := ks[..|ks| - 1];
      var last := ks[|ks| - 1];
      assert ks == init + [last];
      var d := Distinct(init);
      FoldedConcat(init, [last]);
      HasKeyFolded(d, last);
      if HasKey(d, last) then d
      else
        FoldedConcat(d, [last]);
        assert DistinctKeys(ks) ==> d == init && !HasKey(init, last);
        d + [last]
  }

  /** A fold-distinct key list has as many keys as the comparer sees. */
  lemma {:induction false} DistinctKeysCount(ks: seq<string>)
    requires DistinctKeys(ks)
    ensures |Folded(ks)| == |ks|
  {
    if |ks| > 0 {
      var init := ks[..|ks| - 1];
      var last := ks[|ks| - 1];
      assert ks == init + [last];
      DistinctKeysCount(init);
      FoldedConcat(init, [last]);
      assert Folded([last]) == {Fold(last)};
      HasKeyFolded(init, last);
      assert Fold(last) !in Folded(init);
    }
  }

  lemma HasKeyConcat(a: seq<string>, b: seq<string>, k: string)
    ensures HasKey(a + b, k) <==> HasKey(a, k) || HasKey(b, k)
  {
    HasKeyFolded(a + b, k);
    HasKeyFolded(a, k);
    HasKeyFolded(b, k);
    FoldedConcat(a, b);
  }

  /** Two fold-distinct key lists of the same length, the keys of one all among the keys of the
      other, hold the same keys. */
  lemma SubsetSameCount(a: seq<string>, b: seq<string>)
    requires DistinctKeys(a) && DistinctKeys(b)
    requires Folded(a) <= Folded(b) && |a| == |b|
    ensures Folded(a) == Folded(b)
  {
    DistinctKeysCount(a);
    DistinctKeysCount(b);
    var extra := Folded(b) - Folded(a);
    assert Folded(b) == Folded(a) + extra;
    assert |Folded(b)| == |Folded(a)| + |extra|;
  }

  datatype Entry<V> = Entry(key: string, value: V)

  /** Dictionary.Keys, in insertion order. */
  function KeysOf<V>(d: seq<Entry<V>>): (ks: seq<string>)
    ensures |ks| == |d|
    ensures forall i :: 0 <= i < |d| ==> ks[i] == d[i].key
  {
    seq(|d|, i requires 0 <= i < |d| => d[i].key)
  }

  lemma KeysOfConcat<V>(a: seq<Entry<V>>, b: seq<Entry<V>>)
    ensures KeysOf(a + b) == KeysOf(a) + KeysOf(b)
  {
  }

  /** A dictionary with the OrdinalIgnoreCase comparer: no two keys equal ignoring case. */
  ghost predicate IsDict<V>(d: seq<Entry<V>>) {
    DistinctKeys(KeysOf(d))
  }

  /** TryGetValue and the indexer's get. */
  function Find<V>(d: seq<Entry<V>>, k: string): (r: Option<V>)
    ensures r.None? <==> !HasKey(KeysOf(d), k)
    ensures r.Some? ==> exists i :: 0 <= i < |d| && Fold(d[i].key) == Fold(k) && d[i].value == r.value
  {
    var i := IndexOfKey(KeysOf(d), k);
    if i < 0 then None else Some(d[i].value)
  }

  /** In a dictionary, the entry at position i is what a lookup of any spelling of its key finds. */
  lemma FindAt<V>(d: seq<Entry<V>>, i: int, k: string)
    requires IsDict(d) && 0 <= i < |d| && Fold(d[i].key) == Fold(k)
    ensures Find(d, k) == Some(d[i].value)
  {
    assert KeysOf(d)[i] == d[i].key;
  }

  /** Dictionary.Add: an existing key (ignoring case) throws ArgumentException. */
  function Add<V>(d: seq<Entry<V>>, k: string, v: V): (r: Result<seq<Entry<V>>, Error>)
    ensures r.Ok? <==> !HasKey(KeysOf(d), k)
    ensures r.Ok? ==> r.value == d + [Entry(k, v)]
    ensures r.Ok? && IsDict(d) ==> IsDict(r.value)
  {
    if HasKey(KeysOf(d), k) then Err(Argument(""))
    else
      assert KeysOf(d + [Entry(k, v)]) == KeysOf(d) + [k];
      Ok(d + [Entry(k, v)])
  }

  /** Dictionary.Remove: drops the entry whose key equals `k` ignoring case; the other entries
      keep their order. */
  function Remove<V>(d: seq<Entry<V>>, k: string): (r: seq<Entry<V>>)
    ensures |r| <= |d|
    ensures forall i :: 0 <= i < |r| ==> r[i] in d && Fold(r[i].key) != Fold(k)
    ensures forall i :: 0 <= i < |d| && Fold(d[i].key) != Fold(k) ==> d[i] in r
  {
    if |d| == 0 then []
    else
      var rest := Remove(d[1..], k);
      assert forall i :: 1 <= i < |d| ==> d[i] == d[1..][i - 1];
      if Fold(d[0].key) == Fold(k) then rest else [d[0]] + rest
  }
  /** Remove keeps everything when no key equals `k` ignoring case. */
  lemma {:induction false} RemoveAbsent<V>(d: seq<Entry<V>>, k: string)
    requires forall m :: 0 <= m < |d| ==> Fold(d[m].key) != Fold(k)
    ensures Remove(d, k) == d
  {
    if |d| > 0 {
      RemoveAbsent(d[1..], k);
      assert d == [d[0]] + d[1..];
    }
  }

  /** IndexOfKey looks at the first key, then at the rest. */
  lemma IndexOfKeyStep(ks: seq<string>, k: string)
    requires |ks| > 0 && Fold(ks[0]) != Fold(k)
    ensures IndexOfKey(ks, k) == (if IndexOfKey(ks[1..], k) < 0 then -1 else IndexOfKey(ks[1..], k) + 1)
  {
  }

  lemma ConsSlices<V>(d: seq<Entry<V>>, j: int)
    requires 0 <= j < |d| - 1
    ensures [d[0]] + (d[1..][..j] + d[1..][j + 1..]) == d[..j + 1] + d[j + 2..]
  {
  }

  lemma RemoveCons<V>(d: seq<Entry<V>>, k: string)
    requires |d| > 0 && Fold(d[0].key) != Fold(k)
    ensures Remove(d, k) == [d[0]] + Remove(d[1..], k)
  {
  }

  /** In a dictionary, the keys after one that equals `k` ignoring case all differ from it. */
  lemma OthersDiffer<V>(d: seq<Entry<V>>, k: string)
    requires IsDict(d) && |d| > 0 && Fold(d[0].key) == Fold(k)
    ensures forall m :: 0 <= m < |d[1..]| ==> Fold(d[1..][m].key) != Fold(k)
  {
    forall m | 0 <= m < |d[1..]| ensures Fold(d[1..][m].key) != Fold(k) {
      assert KeysOf(d)[0] == d[0].key && KeysOf(d)[m + 1] == d[1..][m].key;
    }
  }

  lemma TailIsDict<V>(d: seq<Entry<V>>)
    requires IsDict(d) && |d| > 0
    ensures IsDict(d[1..])
  {
    assert KeysOf(d[1..]) == KeysOf(d)[1..];
  }

  /** The dictionary without the entry a lookup of `k` finds, every other entry in its place. */
  function WithoutKey<V>(d: seq<Entry<V>>, k: string): seq<Entry<V>> {
    var i := IndexOfKey(KeysOf(d), k);
    if i < 0 then d else d[..i] + d[i + 1..]
  }

  lemma RemoveHeadKey<V>(d: seq<Entry<V>>, k: string)
    requires IsDict(d) && |d| > 0 && Fold(d[0].key) == Fold(k)
    ensures Remove(d, k) == WithoutKey(d, k)
  {
    OthersDiffer(d, k);
    RemoveAbsent(d[1..], k);
    assert KeysOf(d)[0] == d[0].key;
    assert IndexOfKey(KeysOf(d), k) == 0;
  }

  lemma RemoveLaterKey<V>(d: seq<Entry<V>>, k: string)
    requires |d| > 0 && Fold(d[0].key) != Fold(k)
    requires Remove(d[1..], k) == WithoutKey(d[1..], k)
    ensures Remove(d, k) == WithoutKey(d, k)
  {
    RemoveCons(d, k);
    assert KeysOf(d[1..]) == KeysOf(d)[1..];
    IndexOfKeyStep(KeysOf(d), k);
    var j := IndexOfKey(KeysOf(d[1..]), k);
    if j < 0 {
      assert d == [d[0]] + d[1..];
    } else {
      ConsSlices(d, j);
    }
  }

  /** In a dictionary, Remove drops the one entry whose key equals `k` ignoring case, if there is
      one, and keeps every other entry in its place. */
  lemma {:induction false} RemoveFromDict<V>(d: seq<Entry<V>>, k: string)
    requires IsDict(d)
    ensures Remove(d, k) == WithoutKey(d, k)
  {
    if |d| > 0 {
      if Fold(d[0].key) == Fold(k) {
        RemoveHeadKey(d, k);
      } else {
        TailIsDict(d);
        RemoveFromDict(d[1..], k);
        RemoveLaterKey(d, k);
      }
    }
  }





  lemma ConsDict<V>(e: Entry<V>, d: seq<Entry<V>>)
    requires IsDict(d)
    requires forall j :: 0 <= j < |d| ==> Fold(d[j].key) != Fold(e.key)
    ensures IsDict([e] + d)
  {
    assert KeysOf([e] + d) == [e.key] + KeysOf(d);
  }

  /** Removing a key keeps a dictionary a dictionary, and the key is gone. */
  lemma RemoveKeepsDict<V>(d: seq<Entry<V>>, k: string)
    requires IsDict(d)
    ensures IsDict(Remove(d, k)) && !HasKey(KeysOf(Remove(d, k)), k)
  {
    RemoveIsDict(d, k);
    var r := Remove(d, k);
    assert forall j :: 0 <= j < |r| ==> Fold(KeysOf(r)[j]) != Fold(k);
  }

  lemma {:induction false} RemoveIsDict<V>(d: seq<Entry<V>>, k: string)
    requires IsDict(d)
    ensures IsDict(Remove(d, k))
  {
    if |d| > 0 {
      var rest := Remove(d[1..], k);
      DictTail(d);
      RemoveIsDict(d[1..], k);
      if Fold(d[0].key) != Fold(k) {
        forall j | 0 <= j < |rest| ensures Fold(rest[j].key) != Fold(d[0].key) {
          assert rest[j] in d[1..];
        }
        ConsDict(d[0], rest);
      }
    }
  }

  /** The entries after the first of a dictionary form a dictionary none of whose keys is the
      first one's. */
  lemma DictTail<V>(d: seq<Entry<V>>)
    requires IsDict(d) && |d| > 0
    ensures IsDict(d[1..])
    ensures forall e :: e in d[1..] ==> Fold(e.key) != Fold(d[0].key)
  {
    assert KeysOf(d[1..]) == KeysOf(d)[1..];
    forall e | e in d[1..] ensures Fold(e.key) != Fold(d[0].key) {
      var m :| 0 <= m < |d[1..]| && d[1..][m] == e;
      assert KeysOf(d)[m + 1] == e.key;
    }
  }
}

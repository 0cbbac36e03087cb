/**
  * The keys SimpleRouteTable files its entries under in the shared MemoryCache. A reverse key is
  * "RouteValues_" followed, for each route value in dictionary order, by the key with '\', ':'
  * and ';' escaped by a '\', a ':', the value escaped the same way and also for '@' (a null value
  * is written as a bare '@'), and a ';'. A forward key is "RouteVirtualPath_", the verb, '@', the
  * virtual path and the request's query string.
  */
module CacheKeys {
  import opened Wrappers
  import opened Text
  import opened Keys
  import opened VirtualPaths
  import opened HttpExtensions

  const RouteValuesCacheKeyPrefix := "RouteValues_"
  const RouteUrlCacheKeyPrefix := "RouteVirtualPath_"

  /** key.Replace("\\", "\\\\").Replace(":", "\\:").Replace(";", "\\;") */
  function EscapeKey(s: string): string {
    ReplaceAll(ReplaceAll(ReplaceAll(s, '\\', "\\\\"), ':', "\\:"), ';', "\\;")
  }

  /** The same, then .Replace("@", "\\@"). */
  function EscapeValue(s: string): string {
    ReplaceAll(EscapeKey(s), '@', "\\@")
  }

  /** The text one route value adds to the key. */
  function EntryText(e: Entry<Option<string>>): string {
    EscapeKey(e.key) + ":" + (match e.value case None => "@" case Some(v) => EscapeValue(v)) + ";"
  }

  function EntryTexts(values: RouteValues): (texts: seq<string>)
    ensures |texts| == |values|
    ensures forall i :: 0 <= i < |values| ==> texts[i] == EntryText(values[i])
  {
    seq(|values|, i requires 0 <= i < |values| => EntryText(values[i]))
  }

  /** The entry texts one after the other. */
  function KeyBody(values: RouteValues): string {
    if |values| == 0 then "" else KeyBody(values[..|values| - 1]) + EntryText(values[|values| - 1])
  }

  /** What CreateCacheKey builds. */
  function CacheKey(values: RouteValues): (r: string)
    ensures |r| >= |RouteValuesCacheKeyPrefix| && r[..|RouteValuesCacheKeyPrefix|] == RouteValuesCacheKeyPrefix
    ensures |values| == 0 ==> r == RouteValuesCacheKeyPrefix
    ensures |values| > 0 ==> r[|r| - 1] == ';'
  {
    RouteValuesCacheKeyPrefix + KeyBody(values)
  }

  lemma {:induction false} KeyBodyConcat(values: RouteValues)
    ensures KeyBody(values) == Concat(EntryTexts(values))
  {
    if |values| > 0 {
      var init := values[..|values| - 1];
      KeyBodyConcat(init);
      assert EntryTexts(values) == EntryTexts(init) + [EntryText(values[|values| - 1])];
      ConcatAppend(EntryTexts(init), EntryText(values[|values| - 1]));
    }
  }

  /** CreateCacheKey: the StringBuilder loop over the route values; the appends for one route
      value are gathered into one piece. */
  method CreateCacheKey(values: RouteValues) returns (key: string)
    ensures key == CacheKey(values)
  {
    key := RouteValuesCacheKeyPrefix;
    assert values[..0] == [];
    var i := 0;
    while i < |values|
      invariant 0 <= i <= |values|
      invariant key == CacheKey(values[..i])
    {
      var v := values[i].value;
      var text := if v.None? then "@" else EscapeValue(v.value);
      var entry := EscapeKey(values[i].key) + ":" + text + ";";
      LoopStep(values, i, key, entry);
      key := key + entry;
      i := i + 1;
    }
    assert values[..i] == values;
  }

  /** One turn of the loop: the appends for one route value extend the key by its entry text. */
  lemma LoopStep(values: RouteValues, i: int, key: string, entry: string)
    requires 0 <= i < |values| && key == CacheKey(values[..i])
    requires entry == EscapeKey(values[i].key) + ":" + (if values[i].value.None? then "@" else EscapeValue(values[i].value.value)) + ";"
    ensures key + entry == CacheKey(values[..i + 1])
  {
    EntryStep(values[i], entry);
    KeyStep(values, i, key);
  }

  /** The appends for one route value make its entry text. */
  lemma EntryStep(e: Entry<Option<string>>, entry: string)
    requires entry == EscapeKey(e.key) + ":" + (if e.value.None? then "@" else EscapeValue(e.value.value)) + ";"
    ensures entry == EntryText(e)
  {
  }

  /** One turn of the loop appends one entry's text. */
  lemma KeyStep(values: RouteValues, i: int, key: string)
    requires 0 <= i < |values| && key == CacheKey(values[..i])
    ensures key + EntryText(values[i]) == CacheKey(values[..i + 1])
  {
    KeyBodySnoc(values, i);
    Associative(RouteValuesCacheKeyPrefix, KeyBody(values[..i]), EntryText(values[i]));
  }

  lemma KeyBodySnoc(values: RouteValues, i: int)
    requires 0 <= i < |values|
    ensures KeyBody(values[..i + 1]) == KeyBody(values[..i]) + EntryText(values[i])
  {
    var prefix := values[..i + 1];
    assert prefix[..i] == values[..i] && prefix[i] == values[i];
  }

  lemma Associative(a: string, b: string, c: string)
    ensures (a + b) + c == a + (b + c)
  {
  }

  /** The characters the escaping protects with a '\': '\', ':' and ';', and '@' in a value. */
  predicate Special(c: char, inValue: bool) {
    c == '\\' || c == ':' || c == ';' || (inValue && c == '@')
  }

  /** Escaping character by character: a '\' before each special character. */
  function Escaped(s: string, inValue: bool): string {
    if |s| == 0 then "" else (if Special(s[0], inValue) then ['\\', s[0]] else [s[0]]) + Escaped(s[1..], inValue)
  }

  lemma EscapeKeyConcat(a: string, b: string)
    ensures EscapeKey(a + b) == EscapeKey(a) + EscapeKey(b)
  {
    ReplaceAllConcat(a, b, '\\', "\\\\");
    var a1, b1 := ReplaceAll(a, '\\', "\\\\"), ReplaceAll(b, '\\', "\\\\");
    ReplaceAllConcat(a1, b1, ':', "\\:");
    var a2, b2 := ReplaceAll(a1, ':', "\\:"), ReplaceAll(b1, ':', "\\:");
    ReplaceAllConcat(a2, b2, ';', "\\;");
  }

  lemma EscapeKeyChar(c: char)
    ensures EscapeKey([c]) == if Special(c, false) then ['\\', c] else [c]
  {
    if c == '\\' {
      assert ReplaceAll([c], '\\', "\\\\") == "\\\\";
    } else if c == ':' {
      assert ReplaceAll([c], ':', "\\:") == "\\:";
      assert ReplaceAll("\\:", ';', "\\;") == "\\:";
    } else if c == ';' {
      assert ReplaceAll([c], ';', "\\;") == "\\;";
    }
  }

  /** The chain of Replace calls escapes each special character of a key exactly once: the '\'
      the later calls insert is not escaped again. */
  lemma {:induction false} EscapeKeyEscapes(s: string)
    ensures EscapeKey(s) == Escaped(s, false)
  {
    if |s| > 0 {
      assert s == [s[0]] + s[1..];
      EscapeKeyConcat([s[0]], s[1..]);
      EscapeKeyChar(s[0]);
      EscapeKeyEscapes(s[1..]);
    }
  }

  /** The same for a value, whose '@' is escaped as well. */
  lemma {:induction false} EscapeValueEscapes(s: string)
    ensures EscapeValue(s) == Escaped(s, true)
  {
    if |s| > 0 {
      assert s == [s[0]] + s[1..];
      EscapeKeyConcat([s[0]], s[1..]);
      EscapeKeyChar(s[0]);
      ReplaceAllConcat(EscapeKey([s[0]]), EscapeKey(s[1..]), '@', "\\@");
      EscapeValueEscapes(s[1..]);
      if s[0] == '@' {
        assert ReplaceAll([s[0]], '@', "\\@") == "\\@";
      }
    } else {
      EscapeKeyEscapes(s);
    }
  }

  /** Reads escaped text up to the first '\'-free occurrence of `stop`: the text with its escapes
      undone, and what follows the stop. */
  function ReadUntil(s: string, stop: char): (r: Option<(string, string)>)
    ensures r.Some? ==> |r.value.1| < |s|
    decreases |s|
  {
    if |s| == 0 then None
    else if s[0] == '\\' then
      if |s| < 2 then None
      else
        match ReadUntil(s[2..], stop)
        case None => None
        case Some((text, rest)) => Some(([s[1]] + text, rest))
    else if s[0] == stop then Some(("", s[1..]))
    else
      match ReadUntil(s[1..], stop)
      case None => None
      case Some((text, rest)) => Some(([s[0]] + text, rest))
  }

  /** Escaped text followed by its (escaped) stop character reads back as the text. */
  lemma {:induction false} ReadEscaped(s: string, inValue: bool, stop: char, rest: string)
    requires Special(stop, inValue) && stop != '\\'
    ensures ReadUntil(Escaped(s, inValue) + [stop] + rest, stop) == Some((s, rest))
  {
    var t := Escaped(s, inValue) + [stop] + rest;
    if |s| == 0 {
      assert t == [stop] + rest;
    } else {
      ReadEscaped(s[1..], inValue, stop, rest);
      var tail := Escaped(s[1..], inValue) + [stop] + rest;
      if Special(s[0], inValue) {
        assert t == ['\\', s[0]] + tail;
        assert t[2..] == tail;
      } else {
        assert t == [s[0]] + tail;
        assert t[1..] == tail;
      }
      assert [s[0]] + s[1..] == s;
    }
  }

  /** Reads the route values back from the text after the prefix. */
  function DecodeEntries(s: string): Option<RouteValues>
    decreases |s|
  {
    if |s| == 0 then Some([])
    else
      match ReadUntil(s, ':')
      case None => None
      case Some((key, rest)) =>
        if |rest| >= 2 && rest[0] == '@' && rest[1] == ';' then
          match DecodeEntries(rest[2..])
          case None => None
          case Some(es) => Some([Entry(key, None)] + es)
        else
          match ReadUntil(rest, ';')
          case None => None
          case Some((value, after)) =>
            match DecodeEntries(after)
            case None => None
            case Some(es) => Some([Entry(key, Some(value))] + es)
  }

  /** Reads the route values back from a reverse cache key. */
  function DecodeCacheKey(key: string): Option<RouteValues> {
    if StartsWith(key, RouteValuesCacheKeyPrefix) then DecodeEntries(key[|RouteValuesCacheKeyPrefix|..]) else None
  }

  /** An escaped value never starts with a bare '@'. */
  lemma EscapedValueStart(v: string, rest: string)
    ensures var t := Escaped(v, true) + rest; |v| > 0 ==> t[0] != '@'
  {
    if |v| > 0 {
      assert Escaped(v, true)[0] == (if Special(v[0], true) then '\\' else v[0]);
    }
  }

  /** One entry's text followed by anything reads back as the entry and that text. */
  lemma DecodeEntry(e: Entry<Option<string>>, more: string)
    requires DecodeEntries(more).Some?
    ensures DecodeEntries(EntryText(e) + more) == Some([e] + DecodeEntries(more).value)
  {
    match e.value {
      case None => DecodeNull(e.key, more);
      case Some(v) => DecodeValue(e.key, v, more);
    }
  }

  lemma DecodeNull(key: string, more: string)
    requires DecodeEntries(more).Some?
    ensures DecodeEntries(EntryText(Entry(key, None)) + more) == Some([Entry(key, None)] + DecodeEntries(more).value)
  {
    var s := EntryText(Entry(key, None)) + more;
    NullEntryText(key, more);
    ReadEscaped(key, false, ':', "@;" + more);
    DecodeNullStep(s, key, more);
  }

  lemma NullEntryText(key: string, more: string)
    ensures EntryText(Entry(key, None)) + more == Escaped(key, false) + [':'] + ("@;" + more)
  {
    EscapeKeyEscapes(key);
  }

  /** One unfolding of DecodeEntries on a key followed by a null value. */
  lemma DecodeNullStep(s: string, key: string, more: string)
    requires ReadUntil(s, ':') == Some((key, "@;" + more)) && DecodeEntries(more).Some?
    ensures DecodeEntries(s) == Some([Entry(key, None)] + DecodeEntries(more).value)
  {
    assert ("@;" + more)[2..] == more;
  }

  lemma DecodeValue(key: string, v: string, more: string)
    requires DecodeEntries(more).Some?
    ensures DecodeEntries(EntryText(Entry(key, Some(v))) + more) == Some([Entry(key, Some(v))] + DecodeEntries(more).value)
  {
    var s := EntryText(Entry(key, Some(v))) + more;
    var rest := Escaped(v, true) + [';'] + more;
    ValueEntryText(key, v, more);
    ReadEscaped(key, false, ':', rest);
    ValueRestStart(v, more);
    ReadEscaped(v, true, ';', more);
    DecodeValueStep(s, key, rest, v, more);
  }

  lemma ValueEntryText(key: string, v: string, more: string)
    ensures EntryText(Entry(key, Some(v))) + more == Escaped(key, false) + [':'] + (Escaped(v, true) + [';'] + more)
  {
    EscapeKeyEscapes(key);
    EscapeValueEscapes(v);
  }

  /** The text after the ':' of a non-null value does not start with '@'. */
  lemma ValueRestStart(v: string, more: string)
    ensures var rest := Escaped(v, true) + [';'] + more; |rest| > 0 && rest[0] != '@'
  {
    var rest := Escaped(v, true) + [';'] + more;
    EscapedValueStart(v, [';'] + more);
    if |v| == 0 {
      assert rest[0] == ';';
    } else {
      assert rest == Escaped(v, true) + ([';'] + more);
    }
  }

  /** One unfolding of DecodeEntries on a key followed by a value. */
  lemma DecodeValueStep(s: string, key: string, rest: string, v: string, more: string)
    requires ReadUntil(s, ':') == Some((key, rest)) && |rest| > 0 && rest[0] != '@'
    requires ReadUntil(rest, ';') == Some((v, more)) && DecodeEntries(more).Some?
    ensures DecodeEntries(s) == Some([Entry(key, Some(v))] + DecodeEntries(more).value)
  {
  }

  /** The entry texts read back as the route values. */
  lemma {:induction false} DecodeTexts(values: RouteValues)
    ensures DecodeEntries(Concat(EntryTexts(values))) == Some(values)
  {
    if |values| > 0 {
      TextsStep(values);
      DecodeTexts(values[1..]);
      DecodeEntry(values[0], Concat(EntryTexts(values[1..])));
      assert [values[0]] + values[1..] == values;
    }
  }

  lemma TextsStep(values: RouteValues)
    requires |values| > 0
    ensures Concat(EntryTexts(values)) == EntryText(values[0]) + Concat(EntryTexts(values[1..]))
  {
    assert EntryTexts(values)[1..] == EntryTexts(values[1..]);
  }

  /** The reverse cache key reads back as the route values it was made from, in order, null values
      apart from empty ones. */
  lemma CacheKeyRoundTrip(values: RouteValues)
    ensures DecodeCacheKey(CacheKey(values)) == Some(values)
  {
    DecodeTexts(values);
    KeyBodyConcat(values);
    var key := CacheKey(values);
    assert key[|RouteValuesCacheKeyPrefix|..] == KeyBody(values);
  }

  /** Different route values (in content, order or spelling, or a null against an empty value)
      never share a reverse cache key. */
  lemma CacheKeyInjective(a: RouteValues, b: RouteValues)
    requires CacheKey(a) == CacheKey(b)
    ensures a == b
  {
    CacheKeyRoundTrip(a);
    CacheKeyRoundTrip(b);
  }

  /** The key GetRouteData files a request under: the verb and the path (a null one concatenating
      as nothing) and the query string as its text. */
  function RouteDataKey(verb: Option<string>, virtualPath: Option<string>, query: Query): (r: string)
    ensures var n := |RouteUrlCacheKeyPrefix|; var v := verb.GetOr("");
      && |r| > n + |v| && r[..n] == RouteUrlCacheKeyPrefix && r[n..n + |v|] == v && r[n + |v|] == '@'
  {
    ForwardKey(verb, virtualPath, ToUriComponent(ToQueryString(Some(query)).value))
  }

  function ForwardKey(verb: Option<string>, virtualPath: Option<string>, queryText: string): string {
    RouteUrlCacheKeyPrefix + verb.GetOr("") + "@" + virtualPath.GetOr("") + queryText
  }

  /** A forward key and a reverse key always differ, so the two kinds of entry never meet in the
      shared cache (and Cache.Get never meets an entry of the other type). */
  lemma CacheKeysApart(verb: Option<string>, virtualPath: Option<string>, query: Query, values: RouteValues)
    ensures RouteDataKey(verb, virtualPath, query) != CacheKey(values)
  {
    ForwardKeysApart(verb, virtualPath, ToUriComponent(ToQueryString(Some(query)).value), values);
  }

  lemma ForwardKeysApart(verb: Option<string>, virtualPath: Option<string>, queryText: string, values: RouteValues)
    ensures ForwardKey(verb, virtualPath, queryText) != CacheKey(values)
  {
    var a := RouteUrlCacheKeyPrefix + verb.GetOr("");
    var b := a + "@";
    var c := b + virtualPath.GetOr("");
    var f := c + queryText;
    assert RouteUrlCacheKeyPrefix[6] == 'i' && RouteValuesCacheKeyPrefix[6] == 'a';
    assert f[6] == c[6] == b[6] == a[6] == 'i';
    assert CacheKey(values)[6] == 'a';
    DifferAt(f, CacheKey(values), 6);
  }

  lemma DifferAt(x: string, y: string, i: int)
    requires 0 <= i < |x| && i < |y| && x[i] != y[i]
    ensures x != y
  {
  }
}

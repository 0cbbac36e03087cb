/**
  * Reading a value-contract descriptor back. When the verb, the static keys and the static values
  * hold no '"', the only quotes in a descriptor are the ones its template writes, so the folded
  * descriptor splits at them into the verb and, for each route key in descriptor order, the key
  * with its static value or the word DYNAMIC. Two rules whose descriptors are equal ignoring case
  * therefore have the same verb, the same route keys and the same static values, ignoring case.
  */
module ContractReading {
  import opened Wrappers
  import opened Text
  import opened Keys
  import opened UrlPattern
  import opened RouteRule
  import opened RuleDescriptors
  import opened ConflictTables
  import opened Sorting

  /** One item of a folded contract: a route key with its static value, or None when dynamic. */
  datatype Slot = Slot(key: string, value: Option<string>)

  predicate QuoteFree(s: string) {
    '"' !in s
  }

  predicate SlotQuoteFree(s: Slot) {
    QuoteFree(s.key) && (s.value.Some? ==> QuoteFree(s.value.value))
  }

  predicate SlotsQuoteFree(ss: seq<Slot>) {
    forall i :: 0 <= i < |ss| ==> SlotQuoteFree(ss[i])
  }

  function FoldOpt(o: Option<string>): Option<string> {
    match o
    case Some(v) => Some(Fold(v))
    case None => None
  }

  /** The folded text of one contract item. */
  function SlotText(s: Slot): string {
    match s.value
    case Some(v) => "<\"" + s.key + "\",\"" + v + "\">"
    case None => "<\"" + s.key + "\",DYNAMIC>"
  }

  function SlotTexts(ss: seq<Slot>): (r: seq<string>)
    ensures |r| == |ss|
    ensures forall i :: 0 <= i < |ss| ==> r[i] == SlotText(ss[i])
  {
    seq(|ss|, i requires 0 <= i < |ss| => SlotText(ss[i]))
  }

  /** Splits `t` at its first '"': the text before it and the text after it. */
  function ReadQuoted(t: string): (r: Option<(string, string)>)
    ensures r.Some? ==> |r.value.1| < |t|
  {
    var i := IndexOfChar(t, '"');
    if i < 0 then None else Some((t[..i], t[i + 1..]))
  }

  /** Reads what follows the key of an item: a quoted static value and '>', or ",DYNAMIC>". */
  function ReadValue(key: string, after: string): (r: Option<(Slot, string)>)
    ensures r.Some? ==> |r.value.1| < |after|
  {
    if |after| >= 2 && after[..2] == ",\"" then
      match ReadQuoted(after[2..])
      case None => None
      case Some((v, rest)) =>
        if |rest| > 0 && rest[0] == '>' then Some((Slot(key, Some(v)), rest[1..])) else None
    else if |after| >= 9 && after[..9] == ",DYNAMIC>" then Some((Slot(key, None), after[9..]))
    else None
  }

  /** Reads one item from the front of `t`, returning it and the text after it. */
  function ReadSlot(t: string): (r: Option<(Slot, string)>)
    ensures r.Some? ==> |r.value.1| < |t|
  {
    if |t| < 2 || t[..2] != "<\"" then None
    else
      match ReadQuoted(t[2..])
      case None => None
      case Some((key, after)) => ReadValue(key, after)
  }

  /** Reads ','-separated items up to the end of `t`. */
  function ReadSlots(t: string): Option<seq<Slot>>
    decreases |t|
  {
    match ReadSlot(t)
    case None => None
    case Some((s, rest)) =>
      if |rest| == 0 then Some([s])
      else if rest[0] != ',' then None
      else
        match ReadSlots(rest[1..])
        case None => None
        case Some(ss) => Some([s] + ss)
  }

  /** Reads a folded descriptor: the verb before "@", then the items. */
  function ReadContract(t: string): Option<(string, seq<Slot>)> {
    var q := IndexOfChar(t, '"');
    if q < 0 then
      if |t| > 0 && t[|t| - 1] == '@' then Some((t[..|t| - 1], [])) else None
    else if q < 2 || t[q - 2] != '@' || t[q - 1] != '<' then None
    else
      match ReadSlots(t[q - 1..])
      case None => None
      case Some(ss) => Some((t[..q - 2], ss))
  }

  /** The first '"' after quote-free text is the one that ends it. */
  lemma FirstQuote(a: string, b: string)
    requires QuoteFree(a)
    ensures IndexOfChar(a + "\"" + b, '"') == |a|
  {
    var s := a + "\"" + b;
    assert s[|a|] == '"';
  }

  lemma ReadQuotedText(a: string, b: string)
    requires QuoteFree(a)
    ensures ReadQuoted(a + "\"" + b) == Some((a, b))
  {
    FirstQuote(a, b);
    var t := a + "\"" + b;
    assert t[..|a|] == a && t[|a| + 1..] == b;
  }

  /** Past its opening "<\"", an item is read up to the quote that ends its key. */
  lemma ReadSlotKey(key: string, after: string)
    requires QuoteFree(key)
    ensures ReadSlot("<\"" + (key + "\"" + after)) == ReadValue(key, after)
  {
    var t := "<\"" + (key + "\"" + after);
    assert t[..2] == "<\"" && t[2..] == key + "\"" + after;
    ReadQuotedText(key, after);
  }

  lemma ReadStaticValue(key: string, v: string, tail: string)
    requires QuoteFree(v)
    ensures ReadValue(key, ",\"" + (v + "\"" + (">" + tail))) == Some((Slot(key, Some(v)), tail))
  {
    var after := ",\"" + (v + "\"" + (">" + tail));
    assert after[..2] == ",\"" && after[2..] == v + "\"" + (">" + tail);
    ReadQuotedText(v, ">" + tail);
    assert (">" + tail)[1..] == tail;
  }

  lemma ReadDynamicValue(key: string, tail: string)
    ensures ReadValue(key, ",DYNAMIC>" + tail) == Some((Slot(key, None), tail))
  {
    var after := ",DYNAMIC>" + tail;
    assert after[1] == 'D';
    assert after[..9] == ",DYNAMIC>" && after[9..] == tail;
  }

  lemma ReadStaticSlot(k: string, v: string, tail: string)
    requires QuoteFree(k) && QuoteFree(v)
    ensures ReadSlot(SlotText(Slot(k, Some(v))) + tail) == Some((Slot(k, Some(v)), tail))
  {
    var after := ",\"" + (v + "\"" + (">" + tail));
    assert SlotText(Slot(k, Some(v))) + tail == "<\"" + (k + "\"" + after);
    ReadSlotKey(k, after);
    ReadStaticValue(k, v, tail);
  }

  lemma ReadDynamicSlot(k: string, tail: string)
    requires QuoteFree(k)
    ensures ReadSlot(SlotText(Slot(k, None)) + tail) == Some((Slot(k, None), tail))
  {
    var after := ",DYNAMIC>" + tail;
    assert SlotText(Slot(k, None)) + tail == "<\"" + (k + "\"" + after);
    ReadSlotKey(k, after);
    ReadDynamicValue(k, tail);
  }

  /** An item is read back from its text, whatever follows it. */
  lemma ReadSlotText(s: Slot, tail: string)
    requires SlotQuoteFree(s)
    ensures ReadSlot(SlotText(s) + tail) == Some((s, tail))
  {
    match s.value
    case Some(v) => ReadStaticSlot(s.key, v, tail);
    case None => ReadDynamicSlot(s.key, tail);
  }

  lemma ReadLastSlot(s: Slot)
    requires SlotQuoteFree(s)
    ensures ReadSlots(SlotText(s)) == Some([s])
  {
    assert SlotText(s) + "" == SlotText(s);
    ReadSlotText(s, "");
  }

  lemma ReadSlotThenMore(s: Slot, rest: string, ss: seq<Slot>)
    requires SlotQuoteFree(s) && ReadSlots(rest) == Some(ss)
    ensures ReadSlots(SlotText(s) + ("," + rest)) == Some([s] + ss)
  {
    ReadSlotText(s, "," + rest);
    assert ("," + rest)[1..] == rest;
  }

  lemma ReadOneSlotJoin(ss: seq<Slot>)
    requires |ss| == 1 && SlotQuoteFree(ss[0])
    ensures ReadSlots(Join(",", SlotTexts(ss))) == Some(ss)
  {
    assert Join(",", SlotTexts(ss)) == SlotText(ss[0]);
    ReadLastSlot(ss[0]);
    assert [ss[0]] == ss;
  }

  lemma JoinSlotTexts(ss: seq<Slot>)
    requires |ss| > 1
    ensures Join(",", SlotTexts(ss)) == SlotText(ss[0]) + ("," + Join(",", SlotTexts(ss[1..])))
  {
    var texts := SlotTexts(ss);
    assert texts[1..] == SlotTexts(ss[1..]);
    var rest := Join(",", texts[1..]);
    assert Join(",", texts) == texts[0] + "," + rest;
  }

  lemma ReadMoreSlotsJoin(ss: seq<Slot>)
    requires |ss| > 1 && SlotQuoteFree(ss[0])
    requires ReadSlots(Join(",", SlotTexts(ss[1..]))) == Some(ss[1..])
    ensures ReadSlots(Join(",", SlotTexts(ss))) == Some(ss)
  {
    JoinSlotTexts(ss);
    ReadSlotThenMore(ss[0], Join(",", SlotTexts(ss[1..])), ss[1..]);
    assert [ss[0]] + ss[1..] == ss;
  }

  lemma TailQuoteFree(ss: seq<Slot>)
    requires |ss| > 0 && SlotsQuoteFree(ss)
    ensures SlotQuoteFree(ss[0]) && SlotsQuoteFree(ss[1..])
  {
    forall i | 0 <= i < |ss[1..]| ensures SlotQuoteFree(ss[1..][i]) {
      assert ss[1..][i] == ss[i + 1];
    }
  }

  /** The items of a contract are read back from their ','-joined texts. */
  lemma {:induction false} ReadSlotsJoin(ss: seq<Slot>)
    requires |ss| > 0 && SlotsQuoteFree(ss)
    ensures ReadSlots(Join(",", SlotTexts(ss))) == Some(ss)
  {
    TailQuoteFree(ss);
    if |ss| == 1 {
      ReadOneSlotJoin(ss);
    } else {
      ReadSlotsJoin(ss[1..]);
      ReadMoreSlotsJoin(ss);
    }
  }

  lemma ReadVerbOnly(v: string)
    requires QuoteFree(v)
    ensures ReadContract(v + "@") == Some((v, []))
  {
    var t := v + "@";
    assert t[..|t| - 1] == v;
  }

  /** In a contract with items, the first '"' is the one after "@<". */
  lemma ContractFirstQuote(v: string, joined: string)
    requires QuoteFree(v) && |joined| >= 2 && joined[..2] == "<\""
    ensures var t := v + "@" + joined;
      && IndexOfChar(t, '"') == |v| + 2 && t[|v|] == '@' && t[|v| + 1] == '<'
      && t[|v| + 1..] == joined && t[..|v|] == v
  {
    var t := v + "@" + joined;
    var after := joined[2..];
    assert joined == joined[..2] + after;
    assert t == (v + "@<") + "\"" + after;
    FirstQuote(v + "@<", after);
    assert t[|v| + 1..] == joined;
    assert t[..|v|] == v;
  }

  lemma ReadVerbAndSlots(v: string, joined: string, ss: seq<Slot>)
    requires QuoteFree(v) && |joined| >= 2 && joined[..2] == "<\""
    requires ReadSlots(joined) == Some(ss)
    ensures ReadContract(v + "@" + joined) == Some((v, ss))
  {
    ContractFirstQuote(v, joined);
  }

  /** A non-empty contract starts with the "<\"" of its first item. */
  lemma JoinedSlotsStart(ss: seq<Slot>)
    requires |ss| > 0
    ensures |Join(",", SlotTexts(ss))| >= 2 && Join(",", SlotTexts(ss))[..2] == "<\""
  {
    var first := SlotText(ss[0]);
    assert first[..2] == "<\"";
    if |ss| == 1 {
      assert Join(",", SlotTexts(ss)) == first;
    } else {
      JoinSlotTexts(ss);
    }
  }

  /** A folded descriptor with a quote-free verb reads back as its verb and its items. */
  lemma ReadContractText(v: string, ss: seq<Slot>)
    requires QuoteFree(v) && SlotsQuoteFree(ss)
    ensures ReadContract(v + "@" + Join(",", SlotTexts(ss))) == Some((v, ss))
  {
    if |ss| == 0 {
      assert v + "@" + Join(",", SlotTexts(ss)) == v + "@";
      ReadVerbOnly(v);
    } else {
      JoinedSlotsStart(ss);
      ReadSlotsJoin(ss);
      ReadVerbAndSlots(v, Join(",", SlotTexts(ss)), ss);
    }
  }

  /** The folded items of a rule's contract, in descriptor order. */
  function ContractSlots(rule: Rule): (ss: seq<Slot>)
    ensures |ss| == |SortBy(rule.routeKeys, KeyOrder)|
    ensures forall i :: 0 <= i < |ss| ==> ss[i].key == Fold(SortBy(rule.routeKeys, KeyOrder)[i])
  {
    var keys := SortBy(rule.routeKeys, KeyOrder);
    seq(|keys|, i requires 0 <= i < |keys| => Slot(Fold(keys[i]), FoldOpt(Find(rule.staticValues, keys[i]))))
  }

  /** The verb, the static keys and the static values hold no '"'. */
  predicate ContractQuoteFree(rule: Rule) {
    && QuoteFree(VerbText(rule.verb))
    && forall i :: 0 <= i < |rule.staticValues| ==>
         QuoteFree(rule.staticValues[i].key) && QuoteFree(rule.staticValues[i].value)
  }

  lemma FoldLiterals()
    ensures Fold("<\"") == "<\"" && Fold("\",\"") == "\",\"" && Fold("\">") == "\">"
    ensures Fold("\",dynamic>") == "\",DYNAMIC>"
  {
    assert Fold("\",dynamic>")[2] == 'D';
  }

  lemma FoldStaticItem(k: string, v: string)
    requires QuoteFree(k) && QuoteFree(v)
    ensures Fold("<\"" + Escape(k) + "\",\"" + Escape(v) + "\">") == SlotText(Slot(Fold(k), Some(Fold(v))))
  {
    FoldLiterals();
    FoldConcat("<\"", k);
    FoldConcat("<\"" + k, "\",\"");
    FoldConcat("<\"" + k + "\",\"", v);
    FoldConcat("<\"" + k + "\",\"" + v, "\">");
  }

  lemma FoldDynamicItem(k: string)
    requires QuoteFree(k)
    ensures Fold("<\"" + Escape(k) + "\",dynamic>") == SlotText(Slot(Fold(k), None))
  {
    FoldLiterals();
    FoldConcat("<\"", k);
    FoldConcat("<\"" + k, "\",dynamic>");
  }

  /** Folding a quote-free contract item gives the text of its folded slot. */
  lemma FoldContractItem(statics: seq<Entry<string>>, k: string)
    requires QuoteFree(k)
    requires forall i :: 0 <= i < |statics| ==> QuoteFree(statics[i].value)
    ensures Fold(ContractItem(statics, k)) == SlotText(Slot(Fold(k), FoldOpt(Find(statics, k))))
  {
    ContractItemKind(statics, k);
    match Find(statics, k)
    case Some(v) =>
      var i :| 0 <= i < |statics| && statics[i].value == v;
      FoldStaticItem(k, v);
    case None =>
      FoldDynamicItem(k);
  }

  function FoldAll(parts: seq<string>): (r: seq<string>)
    ensures |r| == |parts| && forall i :: 0 <= i < |parts| ==> r[i] == Fold(parts[i])
  {
    seq(|parts|, i requires 0 <= i < |parts| => Fold(parts[i]))
  }

  lemma {:induction false} FoldJoin(parts: seq<string>)
    ensures Fold(Join(",", parts)) == Join(",", FoldAll(parts))
  {
    if |parts| > 1 {
      FoldJoin(parts[1..]);
      assert FoldAll(parts)[1..] == FoldAll(parts[1..]);
      FoldConcat(parts[0], ",");
      FoldConcat(parts[0] + ",", Join(",", parts[1..]));
      assert Fold(",") == ",";
    }
  }

  /** A dynamic parameter name is letters and digits only. */
  lemma DynamicNamesQuoteFree(segs: seq<Segment>)
    requires forall i :: 0 <= i < |segs| ==> ValidSegment(segs[i])
    ensures forall k :: k in DynamicNames(segs) ==> QuoteFree(k)
  {
    forall k | k in DynamicNames(segs) ensures QuoteFree(k) {
      var names := DynamicNames(segs);
      var n :| 0 <= n < |names| && names[n] == k;
      var j :| 0 <= j < |segs| && segs[j] == Dynamic(k);
      NameQuoteFree(segs[j]);
    }
  }

  lemma NameQuoteFree(seg: Segment)
    requires seg.Dynamic? && ValidSegment(seg)
    ensures QuoteFree(seg.name)
  {
    assert forall c :: 0 <= c < |seg.name| ==> seg.name[c] != '"';
  }

  /** Every route key of a rule is a static key or a dynamic parameter name. */
  lemma RouteKeysQuoteFree(rule: Rule)
    requires Valid(rule) && ContractQuoteFree(rule)
    ensures forall k :: k in rule.routeKeys ==> QuoteFree(k)
  {
    DynamicNamesQuoteFree(rule.paragraphs);
    var statics := KeysOf(rule.staticValues);
    assert forall k :: k in statics ==> QuoteFree(k);
    assert forall k :: k in rule.dynamicKeys ==> k in DynamicNames(rule.paragraphs);
  }

  /** The folded value-contract descriptor is the folded verb, "@" and the folded slots' texts. */
  lemma FoldedContract(rule: Rule)
    requires forall k :: k in rule.routeKeys ==> QuoteFree(k)
    requires forall i :: 0 <= i < |rule.staticValues| ==> QuoteFree(rule.staticValues[i].value)
    ensures Fold(RouteValuesDescriptor(rule)) == Fold(VerbText(rule.verb)) + "@" + Join(",", SlotTexts(ContractSlots(rule)))
  {
    var keys := SortBy(rule.routeKeys, KeyOrder);
    var items := ContractItems(rule.staticValues, keys);
    forall i | 0 <= i < |keys| ensures FoldAll(items)[i] == SlotTexts(ContractSlots(rule))[i] {
      assert keys[i] in multiset(rule.routeKeys);
      FoldContractItem(rule.staticValues, keys[i]);
    }
    assert FoldAll(items) == SlotTexts(ContractSlots(rule));
    FoldJoin(items);
    FoldConcat(VerbText(rule.verb), "@");
    FoldConcat(VerbText(rule.verb) + "@", Join(",", items));
  }

  /** The slots of a contract are free of '"' when the rule's route keys and values are. */
  lemma ContractSlotsQuoteFree(rule: Rule)
    requires forall k :: k in rule.routeKeys ==> QuoteFree(k)
    requires forall i :: 0 <= i < |rule.staticValues| ==> QuoteFree(rule.staticValues[i].value)
    ensures SlotsQuoteFree(ContractSlots(rule))
  {
    var keys := SortBy(rule.routeKeys, KeyOrder);
    var ss := ContractSlots(rule);
    forall i | 0 <= i < |ss| ensures SlotQuoteFree(ss[i]) {
      assert keys[i] in multiset(rule.routeKeys);
      assert keys[i] in rule.routeKeys;
      FoldKeepsOut(keys[i], '"');
      match Find(rule.staticValues, keys[i])
      case Some(v) =>
        var j :| 0 <= j < |rule.staticValues| && rule.staticValues[j].value == v;
        FoldKeepsOut(v, '"');
      case None =>
    }
  }

  /** The route keys of the contract, as the comparer sees them, are its slots' keys. */
  lemma SlotKeys(rule: Rule, k: string)
    ensures HasKey(rule.routeKeys, k) <==>
      exists i :: 0 <= i < |ContractSlots(rule)| && ContractSlots(rule)[i].key == Fold(k)
  {
    var keys := SortBy(rule.routeKeys, KeyOrder);
    var ss := ContractSlots(rule);
    HasKeyFolded(rule.routeKeys, k);
    if HasKey(rule.routeKeys, k) {
      var x :| x in rule.routeKeys && Fold(x) == Fold(k);
      assert x in multiset(keys);
      var i :| 0 <= i < |keys| && keys[i] == x;
      assert ss[i].key == Fold(k);
    }
    if exists i :: 0 <= i < |ss| && ss[i].key == Fold(k) {
      var i :| 0 <= i < |ss| && ss[i].key == Fold(k);
      assert keys[i] in multiset(rule.routeKeys);
    }
  }

  /** A lookup sees only the key's fold. */
  lemma FindFold(d: seq<Entry<string>>, a: string, b: string)
    requires Fold(a) == Fold(b)
    ensures Find(d, a) == Find(d, b)
  {
    IndexOfKeyFold(KeysOf(d), a, b);
  }

  /** The slot a route key occupies records its static value. */
  lemma SlotValue(rule: Rule, k: string) returns (i: int)
    requires HasKey(rule.routeKeys, k)
    ensures 0 <= i < |ContractSlots(rule)| && ContractSlots(rule)[i].key == Fold(k)
    ensures ContractSlots(rule)[i].value == FoldOpt(Find(rule.staticValues, k))
  {
    SlotKeys(rule, k);
    i :| 0 <= i < |ContractSlots(rule)| && ContractSlots(rule)[i].key == Fold(k);
    FindFold(rule.staticValues, SortBy(rule.routeKeys, KeyOrder)[i], k);
  }

  /** A folded contract without quotes in its verb or slots reads back as exactly those. */
  lemma ReadFoldedContract(rule: Rule)
    requires Valid(rule) && ContractQuoteFree(rule)
    ensures ReadContract(Fold(RouteValuesDescriptor(rule))) == Some((Fold(VerbText(rule.verb)), ContractSlots(rule)))
  {
    RouteKeysQuoteFree(rule);
    FoldedContract(rule);
    ContractSlotsQuoteFree(rule);
    FoldKeepsOut(VerbText(rule.verb), '"');
    ReadContractText(Fold(VerbText(rule.verb)), ContractSlots(rule));
  }

  /** Two rules whose value-contract descriptors are equal ignoring case, and whose verbs, static
      keys and static values hold no '"', have the same verb, the same route keys and, for each
      route key, the same static value or both none, all ignoring case. */
  lemma {:induction false} ContractDescriptorMeaning(r1: Rule, r2: Rule)
    requires Valid(r1) && Valid(r2) && ContractQuoteFree(r1) && ContractQuoteFree(r2)
    requires SameContract(r1, r2)
    ensures EqualsIgnoreCase(VerbText(r1.verb), VerbText(r2.verb))
    ensures Folded(r1.routeKeys) == Folded(r2.routeKeys)
    ensures forall k :: HasKey(r1.routeKeys, k) ==>
      FoldOpt(Find(r1.staticValues, k)) == FoldOpt(Find(r2.staticValues, k))
  {
    ReadFoldedContract(r1);
    ReadFoldedContract(r2);
    SameSlotsMeaning(r1, r2);
  }

  /** Equal folded slots mean equal route keys and static values, ignoring case. */
  lemma SameSlotsMeaning(r1: Rule, r2: Rule)
    requires ContractSlots(r1) == ContractSlots(r2)
    ensures Folded(r1.routeKeys) == Folded(r2.routeKeys)
    ensures forall k :: HasKey(r1.routeKeys, k) ==>
      FoldOpt(Find(r1.staticValues, k)) == FoldOpt(Find(r2.staticValues, k))
  {
    forall y | y in Folded(r1.routeKeys) ensures y in Folded(r2.routeKeys) {
      SameSlotKeys(r1, r2, y);
    }
    forall y | y in Folded(r2.routeKeys) ensures y in Folded(r1.routeKeys) {
      SameSlotKeys(r2, r1, y);
    }
    forall k | HasKey(r1.routeKeys, k)
      ensures FoldOpt(Find(r1.staticValues, k)) == FoldOpt(Find(r2.staticValues, k))
    {
      var i := SlotValue(r1, k);
      FindFold(r2.staticValues, SortBy(r2.routeKeys, KeyOrder)[i], k);
    }
  }

  lemma SameSlotKeys(r1: Rule, r2: Rule, y: string)
    requires ContractSlots(r1) == ContractSlots(r2) && y in Folded(r1.routeKeys)
    ensures y in Folded(r2.routeKeys)
  {
    var x :| x in r1.routeKeys && Fold(x) == y;
    HasKeyFolded(r1.routeKeys, x);
    HasKeyFolded(r2.routeKeys, x);
    SlotKeys(r1, x);
    SlotKeys(r2, x);
  }
}

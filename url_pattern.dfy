/**
  * URL patterns. A pattern is "~/" (the application root, no segments) or "~" followed by one or
  * more "/segment" parts, where every static segment comes before every dynamic one. A static
  * segment is a run of letters, digits, '-' and '.'; a dynamic segment is "{name}" with a name of
  * letters and digits. The recogniser below accepts exactly the strings the rule's regular
  * expression accepts, including the one trailing "\n" that .NET's `$` lets through.
  *
  * Registration normalises a pattern before compiling it; `Normalize` is that step, kept apart
  * from the grammar so that what the two do together can be stated.
  */
module UrlPattern {
  import opened Text
  import opened Wrappers

  /** \p{Lu}, \p{Ll} and \p{Nd}, restricted to ASCII. */
  predicate IsLetterOrDigit(c: char) {
    'a' <= c <= 'z' || 'A' <= c <= 'Z' || '0' <= c <= '9'
  }

  predicate IsStaticChar(c: char) {
    IsLetterOrDigit(c) || c == '-' || c == '.'
  }

  /** One captured "paragraph" of a pattern. */
  datatype Segment = Static(text: string) | Dynamic(name: string)

  predicate ValidSegment(seg: Segment) {
    match seg
    case Static(text) => |text| > 0 && forall i :: 0 <= i < |text| ==> IsStaticChar(text[i])
    case Dynamic(name) => |name| > 0 && forall i :: 0 <= i < |name| ==> IsLetterOrDigit(name[i])
  }

  /** The text of the segment as it appears in the pattern. */
  function Render(seg: Segment): (s: string)
    ensures ValidSegment(seg) ==> |s| > 0 && '/' !in s && '\n' !in s
  {
    match seg
    case Static(text) => text
    case Dynamic(name) => "{" + name + "}"
  }

  /** Reads one piece between slashes as a segment. */
  function ParseSegment(s: string): (r: Option<Segment>)
    ensures r.Some? ==> ValidSegment(r.value) && Render(r.value) == s
  {
    if |s| >= 3 && s[0] == '{' && s[|s| - 1] == '}'
       && forall i :: 1 <= i < |s| - 1 ==> IsLetterOrDigit(s[i])
    then
      assert s == "{" + s[1..|s| - 1] + "}";
      Some(Dynamic(s[1..|s| - 1]))
    else if |s| > 0 && forall i :: 0 <= i < |s| ==> IsStaticChar(s[i]) then Some(Static(s))
    else None
  }

  lemma ParseRenderedSegment(seg: Segment)
    requires ValidSegment(seg)
    ensures ParseSegment(Render(seg)) == Some(seg)
  {
    if seg.Dynamic? {
      var s := Render(seg);
      assert s[1..|s| - 1] == seg.name;
    } else {
      assert !IsStaticChar('{');
    }
  }

  /** `(/static)+(/dynamic)*` or `(/dynamic)+`: at least one segment, no static after a dynamic. */
  predicate WellOrdered(segs: seq<Segment>) {
    forall i, j :: 0 <= i < j < |segs| && segs[i].Dynamic? ==> segs[j].Dynamic?
  }

  predicate ValidSegments(segs: seq<Segment>) {
    (forall i :: 0 <= i < |segs| ==> ValidSegment(segs[i])) && WellOrdered(segs)
  }

  function ParseSegments(parts: seq<string>): (r: Option<seq<Segment>>)
    ensures r.Some? ==> |r.value| == |parts|
    ensures r.Some? ==> forall i :: 0 <= i < |parts| ==> ValidSegment(r.value[i]) && Render(r.value[i]) == parts[i]
  {
    if |parts| == 0 then Some([])
    else
      match (ParseSegment(parts[0]), ParseSegments(parts[1..]))
      case (Some(seg), Some(rest)) => Some([seg] + rest)
      case _ => None
  }

  function Renders(segs: seq<Segment>): (parts: seq<string>)
    ensures |parts| == |segs|
    ensures forall i :: 0 <= i < |segs| ==> parts[i] == Render(segs[i])
  {
    seq(|segs|, i requires 0 <= i < |segs| => Render(segs[i]))
  }

  /** The pattern whose segments are `segs`; the empty list gives the root "~/". */
  function PatternOf(segs: seq<Segment>): string {
    "~/" + Join("/", Renders(segs))
  }

  /** The regular expression's `$` also matches just before a final newline. */
  function DropFinalNewline(p: string): string {
    if |p| > 0 && p[|p| - 1] == '\n' then p[..|p| - 1] else p
  }

  /** The URL-pattern grammar: the segments captured, in pattern order, or None when the pattern
      does not match. */
  function ParsePattern(p: string): (r: Option<seq<Segment>>)
    ensures r.Some? ==> ValidSegments(r.value)
  {
    var body := DropFinalNewline(p);
    if body == "~/" then Some([])
    else if |body| < 3 || body[..2] != "~/" then None
    else
      match ParseSegments(Split(body[2..], '/'))
      case Some(segs) => if WellOrdered(segs) then Some(segs) else None
      case None => None
  }

  /** Whatever the grammar accepts starts with "~/". */
  lemma ParsedPatternRoot(p: string)
    requires ParsePattern(p).Some?
    ensures |p| >= 2 && p[0] == '~' && p[1] == '/'
  {
    var body := DropFinalNewline(p);
    assert |body| >= 2 && body[0] == '~' && body[1] == '/' by {
      if body != "~/" {
        assert body[..2] == "~/";
        assert body[0] == body[..2][0] && body[1] == body[..2][1];
      }
    }
    assert body == p || body == p[..|p| - 1];
  }

  /** Whatever the grammar accepts is a pattern built from its segments, perhaps with the final
      newline, and its segments are valid and in grammar order. */
  lemma ParsedPatternShape(p: string)
    requires ParsePattern(p).Some?
    ensures ValidSegments(ParsePattern(p).value)
    ensures p == PatternOf(ParsePattern(p).value) || p == PatternOf(ParsePattern(p).value) + "\n"
  {
    var body := DropFinalNewline(p);
    FinalNewline(p);
    if body != "~/" {
      ParsedBody(body, ParsePattern(p).value);
    }
  }

  lemma FinalNewline(p: string)
    ensures p == DropFinalNewline(p) || p == DropFinalNewline(p) + "\n"
  {
    if |p| > 0 && p[|p| - 1] == '\n' {
      assert p == p[..|p| - 1] + "\n";
    }
  }

  /** A body the grammar splits into `segs` is the pattern of `segs`. */
  lemma ParsedBody(body: string, segs: seq<Segment>)
    requires |body| >= 3 && body[..2] == "~/"
    requires ParseSegments(Split(body[2..], '/')) == Some(segs) && WellOrdered(segs)
    ensures ValidSegments(segs) && body == PatternOf(segs)
  {
    var parts := Split(body[2..], '/');
    assert Renders(segs) == parts;
    assert body == "~/" + body[2..];
  }

  /** Every list of valid segments in grammar order is accepted, and parses back to itself. */
  lemma PatternRoundTrip(segs: seq<Segment>)
    requires ValidSegments(segs)
    ensures ParsePattern(PatternOf(segs)) == Some(segs)
  {
    var p := PatternOf(segs);
    if |segs| > 0 {
      var parts := Renders(segs);
      SplitJoin(parts, '/');
      JoinNonEmpty(parts);
      JoinNoChar(parts, '/', '\n');
      assert p[2..] == Join("/", parts);
      assert DropFinalNewline(p) == p;
      var r := ParseSegments(parts);
      ParseRendered(segs);
    }
  }

  lemma {:induction false} ParseRendered(segs: seq<Segment>)
    requires forall i :: 0 <= i < |segs| ==> ValidSegment(segs[i])
    ensures ParseSegments(Renders(segs)) == Some(segs)
  {
    if |segs| > 0 {
      ParseRenderedSegment(segs[0]);
      ParseRendered(segs[1..]);
      assert Renders(segs)[1..] == Renders(segs[1..]);
      assert segs == [segs[0]] + segs[1..];
    }
  }

  lemma {:induction false} JoinNonEmpty(parts: seq<string>)
    requires |parts| > 0 && |parts[0]| > 0
    ensures |Join("/", parts)| > 0
  {
  }

  lemma {:induction false} JoinNoChar(parts: seq<string>, sep: char, c: char)
    requires sep != c
    requires forall i :: 0 <= i < |parts| ==> c !in parts[i]
    ensures c !in Join([sep], parts)
  {
    if |parts| > 1 {
      JoinNoChar(parts[1..], sep, c);
    }
  }

  /** Each piece preceded by '/', as a pattern or a path spells out its segments. */
  function Slashed(parts: seq<string>): (s: string)
    ensures |s| >= |parts|
  {
    if |parts| == 0 then "" else "/" + parts[0] + Slashed(parts[1..])
  }

  lemma {:induction false} SlashedConcat(a: seq<string>, b: seq<string>)
    ensures Slashed(a + b) == Slashed(a) + Slashed(b)
  {
    if |a| == 0 {
      assert a + b == b;
    } else {
      assert (a + b)[1..] == a[1..] + b;
      SlashedConcat(a[1..], b);
    }
  }

  lemma {:induction false} SlashedJoin(parts: seq<string>)
    requires |parts| > 0
    ensures Slashed(parts) == "/" + Join("/", parts)
  {
    if |parts| > 1 {
      SlashedJoin(parts[1..]);
    }
  }

  lemma {:induction false} SlashedNoChar(parts: seq<string>, c: char)
    requires c != '/'
    requires forall i :: 0 <= i < |parts| ==> c !in parts[i]
    ensures c !in Slashed(parts)
  {
    if |parts| > 0 {
      SlashedNoChar(parts[1..], c);
    }
  }

  /** A pattern with segments is "~" followed by "/segment" for each. */
  lemma PatternSlashed(segs: seq<Segment>)
    requires |segs| > 0
    ensures PatternOf(segs) == "~" + Slashed(Renders(segs))
  {
    SlashedJoin(Renders(segs));
  }

  /** The number of leading static segments; in a well-ordered list every later one is dynamic. */
  function StaticCount(segs: seq<Segment>): (n: nat)
    ensures n <= |segs|
    ensures forall i :: 0 <= i < n ==> segs[i].Static?
    ensures n < |segs| ==> segs[n].Dynamic?
  {
    if |segs| == 0 || segs[0].Dynamic? then 0 else 1 + StaticCount(segs[1..])
  }

  /** "~/" is accepted, with no segments. */
  lemma RootAccepted()
    ensures ParsePattern("~/") == Some([])
  {
  }

  /** The normalisation AddRule applies before compiling: a pattern starting with "/" (and not
      "~/") is refused; any other pattern without "~/" gets it; runs of '/' collapse; and a
      trailing '/' is added. */
  function Normalize(pattern: string): (r: Result<string, Error>)
    ensures r.Err? <==> !StartsWith(pattern, "~/") && StartsWith(pattern, "/")
    ensures r.Err? ==> r.error == Argument("urlPattern")
    ensures r.Ok? ==> StartsWith(r.value, "~/") && EndsWith(r.value, "/") && NoDoubleSlash(r.value)
  {
    if !StartsWith(pattern, "~/") && StartsWith(pattern, "/") then Err(Argument("urlPattern"))
    else
      var rooted := if StartsWith(pattern, "~/") then pattern else "~/" + pattern;
      var collapsed := CollapseSlashes(rooted);
      CollapseKeepsRoot(rooted);
      var r := if |collapsed| > 0 && !EndsWith(collapsed, "/") then collapsed + "/" else collapsed;
      assert r[..2] == collapsed[..2];
      Ok(r)
  }

  lemma CollapseKeepsRoot(s: string)
    requires StartsWith(s, "~/")
    ensures StartsWith(CollapseSlashes(s), "~/")
  {
    assert s == "~" + s[1..];
    var t := CollapseSlashes(s[1..]);
    assert CollapseSlashes(s) == "~" + t;
    assert t[0] == '/';
  }

  /** As written, normalisation and the grammar together accept only the root pattern: every
      normalised pattern ends with '/', and the grammar allows a final '/' only in "~/". */
  lemma NormalizedRejected(pattern: string)
    requires Normalize(pattern).Ok? && Normalize(pattern).value != "~/"
    ensures ParsePattern(Normalize(pattern).value) == None
  {
    var p := Normalize(pattern).value;
    if ParsePattern(p).Some? {
      var segs := ParsePattern(p).value;
      ParsedPatternShape(p);
      assert p == PatternOf(segs);
      assert |segs| > 0;
      var parts := Renders(segs);
      LastOfJoin(parts);
      assert false;
    }
  }

  /** A joined list ends with the last piece. */
  lemma {:induction false} LastOfJoin(parts: seq<string>)
    requires |parts| > 0
    ensures EndsWith(Join("/", parts), parts[|parts| - 1])
  {
    if |parts| > 1 {
      LastOfJoin(parts[1..]);
    }
  }

  /** The pattern the route-table test registers, "", normalises to the root. */
  lemma EmptyPatternIsRoot()
    ensures Normalize("") == Ok("~/")
  {
    assert CollapseSlashes("~/") == "~/";
  }
}

/**
  * Stand-ins for the two .NET library calls the router depends on: Path.GetExtension (as on
  * Unix, where '/' is the only directory separator) and HttpUtility.UrlEncode (UTF-8, lower-case
  * hex, ' ' as '+'). Each is written out in full, and its contract states the facts the router
  * relies on.
  */
module Framework {
  import opened Text

  /** The position of the '.' that starts the extension among path[..i], or -1 when a '/' or the
      start of the path comes first. */
  function DotBeforeSeparator(path: string, i: nat): (d: int)
    requires i <= |path|
    ensures -1 <= d < i
    ensures d >= 0 ==> path[d] == '.'
    ensures d >= 0 ==> forall j :: d < j < i ==> path[j] != '.' && path[j] != '/'
  {
    if i == 0 then -1
    else if path[i - 1] == '.' then i - 1
    else if path[i - 1] == '/' then -1
    else DotBeforeSeparator(path, i - 1)
  }

  /** Path.GetExtension: the suffix from the last '.' of the last path component, or "" when that
      component has no '.' or ends with it. */
  function GetExtension(path: string): (ext: string)
    ensures EndsWith(path, ext)
    ensures ext != "" ==> |ext| >= 2 && ext[0] == '.' && '.' !in ext[1..] && '/' !in ext
    ensures '.' !in path ==> ext == ""
  {
    var d := DotBeforeSeparator(path, |path|);
    if d < 0 || d == |path| - 1 then ""
    else
      assert path[d] == '.';
      assert forall j :: 0 <= j < |path[d..]| - 1 ==> path[d..][1..][j] == path[d + 1 + j];
      path[d..]
  }

  /** The characters HttpUtility.UrlEncode leaves as they are. */
  predicate IsUrlSafe(c: char) {
    'a' <= c <= 'z' || 'A' <= c <= 'Z' || '0' <= c <= '9'
    || c == '-' || c == '_' || c == '.' || c == '!' || c == '*' || c == '(' || c == ')'
  }

  function HexDigit(n: nat): (c: char)
    requires n < 16
    ensures IsUrlSafe(c)
  {
    if n < 10 then ('0' as int + n) as char else ('a' as int + n - 10) as char
  }

  /** The UTF-8 bytes of one Unicode scalar value. */
  function Utf8(c: char): (bytes: seq<nat>)
    ensures 1 <= |bytes| <= 4
    ensures forall i :: 0 <= i < |bytes| ==> bytes[i] < 256
  {
    var n := c as int;
    if n < 0x80 then [n]
    else if n < 0x800 then [0xC0 + n / 64, 0x80 + n % 64]
    else if n < 0x1_0000 then [0xE0 + n / 4096, 0x80 + (n / 64) % 64, 0x80 + n % 64]
    else [0xF0 + n / 262144, 0x80 + (n / 4096) % 64, 0x80 + (n / 64) % 64, 0x80 + n % 64]
  }

  function PercentEncode(bytes: seq<nat>): (r: string)
    requires forall i :: 0 <= i < |bytes| ==> bytes[i] < 256
    ensures forall c :: c in r ==> c == '%' || IsUrlSafe(c)
  {
    if |bytes| == 0 then ""
    else ['%', HexDigit(bytes[0] / 16), HexDigit(bytes[0] % 16)] + PercentEncode(bytes[1..])
  }

  function EncodeChar(c: char): (r: string)
    ensures |r| >= 1
    ensures forall d :: d in r ==> IsUrlSafe(d) || d == '+' || d == '%'
  {
    if IsUrlSafe(c) then [c]
    else if c == ' ' then "+"
    else PercentEncode(Utf8(c))
  }

  /** HttpUtility.UrlEncode: the output holds only URL-safe characters, '+' and '%', so it never
      holds the '?', '&', '=', '/' or '#' that delimit a URL's parts. */
  function UrlEncode(s: string): (r: string)
    ensures |r| >= |s|
    ensures forall d :: d in r ==> IsUrlSafe(d) || d == '+' || d == '%'
    ensures (forall i :: 0 <= i < |s| ==> IsUrlSafe(s[i])) ==> r == s
  {
    if |s| == 0 then "" else EncodeChar(s[0]) + UrlEncode(s[1..])
  }
}

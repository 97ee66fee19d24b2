/** The URL handling behind `convert_sharepoint_url`: the parts of Python's
    `urllib.parse` it calls (`urlparse`, `parse_qs`, `unquote`, `quote`),
    `os.path.splitext` (POSIX), and the rewrite of SharePoint viewer links
    into download links. */
module Urls {
  import opened Text
  import opened Wrappers

  type byte = b: int | 0 <= b < 0x100

  // ----- urlsplit / urlparse -----

  /** The five parts `urlsplit` yields. */
  datatype SplitResult = SplitResult(scheme: string, netloc: string, path: string, query: string, fragment: string)

  /** The six parts `urlparse` yields. */
  datatype ParseResult = ParseResult(scheme: string, netloc: string, path: string, params: string, query: string, fragment: string)

  /** The C0 controls and the space, which `urlsplit` strips from the front. */
  predicate IsC0OrSpace(c: char) {
    c <= ' '
  }

  /** The characters `urlsplit` deletes wherever they occur. */
  predicate IsUnsafeUrlChar(c: char) {
    c == '\t' || c == '\r' || c == '\n'
  }

  predicate IsAsciiLetter(c: char) {
    'a' <= c <= 'z' || 'A' <= c <= 'Z'
  }

  predicate IsDigit(c: char) {
    '0' <= c <= '9'
  }

  /** The characters a scheme may consist of. */
  predicate IsSchemeChar(c: char) {
    IsAsciiLetter(c) || IsDigit(c) || c == '+' || c == '-' || c == '.'
  }

  /** The characters that end a network location. */
  predicate IsNetlocEnd(c: char) {
    c == '/' || c == '?' || c == '#'
  }

  /** `url.lstrip(C0 controls and space)`. */
  function LStripControls(s: string): (r: string)
    ensures |r| <= |s| && r == s[|s| - |r|..]
    ensures r != [] ==> !IsC0OrSpace(r[0])
    ensures forall i :: 0 <= i < |s| - |r| ==> IsC0OrSpace(s[i])
    ensures s == [] || !IsC0OrSpace(s[0]) ==> r == s
    ensures '[' !in s ==> '[' !in r
    ensures ']' !in s ==> ']' !in r
    decreases |s|
  {
    if s != [] && IsC0OrSpace(s[0]) then LStripControls(s[1..]) else s
  }

  /** Deletes every tab, carriage return and line feed. */
  function RemoveUnsafe(s: string): (r: string)
    ensures NoUnsafe(r)
    ensures '[' !in s ==> '[' !in r
    ensures ']' !in s ==> ']' !in r
    ensures NoUnsafe(s) ==> r == s
    ensures |r| <= |s|
    decreases |s|
  {
    if s == [] then []
    else if IsUnsafeUrlChar(s[0]) then RemoveUnsafe(s[1..])
    else [s[0]] + RemoveUnsafe(s[1..])
  }

  /** The scheme test of `urlsplit`: text before the first `:` that starts
      with an ASCII letter and holds only scheme characters is the scheme,
      lowered; otherwise there is no scheme. */
  function SplitScheme(u: string): (r: (string, string))
    ensures |r.1| <= |u| && r.1 == u[|u| - |r.1|..]
    ensures r.0 == [] <==> r.1 == u
    ensures r.0 != [] ==> Find(u, ':') < |u| && r.1 == u[Find(u, ':') + 1..]
    ensures forall i :: 0 <= i < |r.0| ==> IsSchemeChar(r.0[i])
    ensures r.0 != [] ==> IsAsciiLetter(r.0[0])
  {
    var i := Find(u, ':');
    if 0 < i < |u| && IsAsciiLetter(u[0]) && (forall k | 0 <= k < i :: IsSchemeChar(u[k])) then (Lower(u[..i]), u[i + 1..])
    else ("", u)
  }

  /** The first index at or after `k` holding `/`, `?` or `#`, or `|u|`. */
  function NetlocEnd(u: string, k: nat): (d: nat)
    requires k <= |u|
    ensures k <= d <= |u|
    ensures d < |u| ==> IsNetlocEnd(u[d])
    ensures forall j :: k <= j < d ==> !IsNetlocEnd(u[j])
    decreases |u| - k
  {
    if k == |u| || IsNetlocEnd(u[k]) then k else NetlocEnd(u, k + 1)
  }

  /** Fragment, then query, split off what follows the network location. */
  function SplitTail(scheme: string, netloc: string, rest: string): (r: SplitResult)
    ensures r.scheme == scheme && r.netloc == netloc
    ensures NoUnsafe(rest) ==> NoUnsafe(r.path)
    ensures '[' !in rest ==> '[' !in r.path
    ensures ']' !in rest ==> ']' !in r.path
    ensures '#' !in r.path && '?' !in r.path && '#' !in r.query
  {
    var (beforeFragment, fragment) := SplitOnce(rest, '#');
    var (path, query) := SplitOnce(beforeFragment, '?');
    PrefixKeeps(rest, |beforeFragment|);
    PrefixKeeps(beforeFragment, |path|);
    SuffixKeeps(beforeFragment, |path| + 1);
    SplitResult(scheme, netloc, path, query, fragment)
  }

  /** No character of `s` is one `urlsplit` deletes. */
  predicate NoUnsafe(s: string) {
    forall i :: 0 <= i < |s| ==> !IsUnsafeUrlChar(s[i])
  }

  /** A prefix of `s` keeps what `s` lacks. */
  lemma PrefixKeeps(s: string, hi: nat)
    ensures hi <= |s| && NoUnsafe(s) ==> NoUnsafe(s[..hi])
    ensures hi <= |s| && '[' !in s ==> '[' !in s[..hi]
    ensures hi <= |s| && ']' !in s ==> ']' !in s[..hi]
    ensures hi <= |s| && '#' !in s ==> '#' !in s[..hi]
    ensures hi <= |s| && '?' !in s ==> '?' !in s[..hi]
  {
    if hi <= |s| {
      assert forall i :: 0 <= i < hi ==> s[..hi][i] == s[i];
    }
  }

  /** A suffix of `s` keeps what `s` lacks. */
  lemma SuffixKeeps(s: string, lo: nat)
    ensures lo <= |s| && NoUnsafe(s) ==> NoUnsafe(s[lo..])
    ensures lo <= |s| && '[' !in s ==> '[' !in s[lo..]
    ensures lo <= |s| && ']' !in s ==> ']' !in s[lo..]
    ensures lo <= |s| && '#' !in s ==> '#' !in s[lo..]
  {
    if lo <= |s| {
      assert forall i :: 0 <= i < |s| - lo ==> s[lo..][i] == s[lo + i];
    }
  }

  /** What `urlsplit` parses: the URL with leading controls and spaces
      stripped and tabs and line breaks deleted. */
  function Cleaned(url: string): (u: string)
    ensures NoUnsafe(u)
    ensures '[' !in url ==> '[' !in u
    ensures ']' !in url ==> ']' !in u
    ensures (url == [] || !IsC0OrSpace(url[0])) && NoUnsafe(url) ==> u == url
  {
    var stripped := LStripControls(url);
    RemoveUnsafe(stripped)
  }

  /** The network location after a leading `//`, up to the first `/`,
      `?` or `#`, and what follows it. */
  function SplitNetloc(rest: string): (r: (string, string))
    requires |rest| >= 2
    ensures forall i :: 0 <= i < |r.0| ==> !IsNetlocEnd(r.0[i])
    ensures NoUnsafe(rest) ==> NoUnsafe(r.0) && NoUnsafe(r.1)
    ensures '[' !in rest ==> '[' !in r.0 && '[' !in r.1
    ensures ']' !in rest ==> ']' !in r.0 && ']' !in r.1
  {
    var d := NetlocEnd(rest, 2);
    PrefixKeeps(rest, d);
    SuffixKeeps(rest[..d], 2);
    SuffixKeeps(rest, d);
    assert rest[..d][2..] == rest[2..d];
    (rest[2..d], rest[d..])
  }

  /** `urlsplit` after the scheme: the network location when `rest` starts
      with `//`, then fragment, query and path. */
  function SplitAfterScheme(scheme: string, rest: string): (r: Result<SplitResult>)
    ensures r.Err? ==> r.message == "Invalid IPv6 URL"
    ensures r.Ok? ==> r.value.scheme == scheme
    ensures r.Ok? ==> forall i :: 0 <= i < |r.value.netloc| ==> !IsNetlocEnd(r.value.netloc[i])
    ensures r.Ok? ==> '#' !in r.value.path && '?' !in r.value.path && '#' !in r.value.query
    ensures r.Ok? ==> ('[' in r.value.netloc <==> ']' in r.value.netloc)
    ensures r.Ok? && NoUnsafe(rest) ==> NoUnsafe(r.value.netloc) && NoUnsafe(r.value.path)
    ensures r.Ok? && '[' !in rest ==> '[' !in r.value.netloc && '[' !in r.value.path
    ensures r.Ok? && ']' !in rest ==> ']' !in r.value.netloc && ']' !in r.value.path
    ensures '[' !in rest && ']' !in rest ==> r.Ok?
  {
    if |rest| >= 2 && rest[..2] == "//" then
      var (netloc, tail) := SplitNetloc(rest);
      if ('[' in netloc) != (']' in netloc) then Err("Invalid IPv6 URL")
      else Ok(SplitTail(scheme, netloc, tail))
    else Ok(SplitTail(scheme, "", rest))
  }

  /** `urlsplit(url)`: the one error it raises here is for a network
      location with an unmatched bracket. */
  function UrlSplit(url: string): (r: Result<SplitResult>)
    ensures r.Err? ==> r.message == "Invalid IPv6 URL"
    ensures r.Ok? ==> forall i :: 0 <= i < |r.value.netloc| ==> !IsNetlocEnd(r.value.netloc[i])
    ensures r.Ok? ==> '#' !in r.value.path && '?' !in r.value.path && '#' !in r.value.query
    ensures r.Ok? ==> ('[' in r.value.netloc <==> ']' in r.value.netloc)
    ensures r.Ok? ==> forall i :: 0 <= i < |r.value.scheme| ==> IsSchemeChar(r.value.scheme[i])
    ensures r.Ok? && r.value.scheme != [] ==> IsAsciiLetter(r.value.scheme[0])
    ensures r.Ok? ==> NoUnsafe(r.value.netloc) && NoUnsafe(r.value.path)
    ensures r.Ok? && '[' !in url ==> '[' !in r.value.netloc && '[' !in r.value.path
    ensures r.Ok? && ']' !in url ==> ']' !in r.value.netloc && ']' !in r.value.path
    ensures '[' !in url && ']' !in url ==> r.Ok?
  {
    var u := Cleaned(url);
    var (scheme, rest) := SplitScheme(u);
    SuffixKeeps(u, |u| - |rest|);
    SplitAfterScheme(scheme, rest)
  }

  /** The schemes whose paths may carry `;parameters`. */
  const UsesParams: set<string> := {"", "ftp", "hdl", "prospero", "http", "imap", "https", "shttp",
                                    "rtsp", "rtsps", "rtspu", "sip", "sips", "mms", "sftp", "tel"}

  /** `_splitparams`: the parameters start at the first `;` of the last
      path segment, or of the whole path when it has no `/`. */
  function SplitParams(path: string): (r: (string, string))
    requires ';' in path
    ensures |r.0| <= |path| && r.0 == path[..|r.0|]
    ensures r.1 != [] ==> path == r.0 + [';'] + r.1
  {
    var slash := RFind(path, '/');
    if slash >= 0 then
      var i := Find(path[slash..], ';');
      if i == |path[slash..]| then (path, "")
      else (path[..slash + i], path[slash + i + 1..])
    else
      var i := Find(path, ';');
      (path[..i], path[i + 1..])
  }

  /** `urlparse(url)`. */
  function UrlParse(url: string): (r: Result<ParseResult>)
    ensures r.Ok? == UrlSplit(url).Ok?
    ensures r.Ok? ==> r.value.scheme == UrlSplit(url).value.scheme && r.value.netloc == UrlSplit(url).value.netloc
    ensures r.Ok? ==> r.value.query == UrlSplit(url).value.query && r.value.fragment == UrlSplit(url).value.fragment
    ensures r.Ok? ==> '#' !in r.value.path && '?' !in r.value.path
    ensures r.Ok? ==> NoUnsafe(r.value.netloc) && NoUnsafe(r.value.path)
    ensures r.Ok? && '[' !in url ==> '[' !in r.value.netloc && '[' !in r.value.path
    ensures r.Ok? && ']' !in url ==> ']' !in r.value.netloc && ']' !in r.value.path
  {
    match UrlSplit(url)
    case Err(e) => Err(e)
    case Ok(s) =>
      if s.scheme in UsesParams && ';' in s.path then
        var (path, params) := SplitParams(s.path);
        PrefixKeeps(s.path, |path|);
        Ok(ParseResult(s.scheme, s.netloc, path, params, s.query, s.fragment))
      else Ok(ParseResult(s.scheme, s.netloc, s.path, "", s.query, s.fragment))
  }

  // ----- UTF-8 -----

  /** The UTF-8 encoding of one character. */
  function Utf8Char(c: char): (r: seq<byte>)
    ensures 1 <= |r| <= 4
    ensures |r| == 1 <==> c as int < 0x80
    ensures |r| == 1 ==> r[0] == c as int
  {
    var n := c as int;
    if n < 0x80 then [n]
    else if n < 0x800 then [0xC0 + n / 0x40, 0x80 + n % 0x40]
    else if n < 0x10000 then [0xE0 + n / 0x1000, 0x80 + n / 0x40 % 0x40, 0x80 + n % 0x40]
    else [0xF0 + n / 0x40000, 0x80 + n / 0x1000 % 0x40, 0x80 + n / 0x40 % 0x40, 0x80 + n % 0x40]
  }

  /** `s.encode('utf-8')`. */
  function Utf8(s: string): (r: seq<byte>)
    ensures |r| >= |s|
    decreases |s|
  {
    if s == [] then [] else Utf8Char(s[0]) + Utf8(s[1..])
  }

  /** The length of the sequence a lead byte announces; 0 for a byte that
      cannot start one. */
  function LeadLength(b: byte): nat {
    if b < 0x80 then 1
    else if b < 0xC2 then 0
    else if b < 0xE0 then 2
    else if b < 0xF0 then 3
    else if b < 0xF5 then 4
    else 0
  }

  predicate IsContinuation(b: byte) {
    0x80 <= b < 0xC0
  }

  /** The byte that may follow a lead byte; narrower than a continuation
      byte after E0, ED, F0 and F4, which excludes overlong forms,
      surrogates and code points past U+10FFFF. */
  predicate SecondOk(lead: byte, b: byte) {
    if lead == 0xE0 then 0xA0 <= b < 0xC0
    else if lead == 0xED then 0x80 <= b < 0xA0
    else if lead == 0xF0 then 0x90 <= b < 0xC0
    else if lead == 0xF4 then 0x80 <= b < 0x90
    else IsContinuation(b)
  }

  /** How many leading bytes of `bs` form a well-formed start of the
      `n`-byte sequence its lead byte announces (at least the lead). */
  function ValidPrefix(bs: seq<byte>, n: nat): (k: nat)
    requires |bs| >= 1 && 2 <= n <= 4
    ensures 1 <= k <= n && k <= |bs|
  {
    if |bs| < 2 || !SecondOk(bs[0], bs[1]) then 1
    else if n == 2 then 2
    else if |bs| < 3 || !IsContinuation(bs[2]) then 2
    else if n == 3 then 3
    else if |bs| < 4 || !IsContinuation(bs[3]) then 3
    else 4
  }

  /** The code point of a well-formed sequence. */
  function CodePoint(bs: seq<byte>, n: nat): (c: char)
    requires |bs| >= 1 && 2 <= n <= 4 && LeadLength(bs[0]) == n && ValidPrefix(bs, n) == n
  {
    var b0: int, b1: int := bs[0], bs[1];
    if n == 2 then ((b0 - 0xC0) * 0x40 + (b1 - 0x80)) as char
    else
      var b2: int := bs[2];
      if n == 3 then ((b0 - 0xE0) * 0x1000 + (b1 - 0x80) * 0x40 + (b2 - 0x80)) as char
      else
        var b3: int := bs[3];
        ((b0 - 0xF0) * 0x40000 + (b1 - 0x80) * 0x1000 + (b2 - 0x80) * 0x40 + (b3 - 0x80)) as char
  }

  const Replacement: char := '\U{FFFD}'

  /** `bs.decode('utf-8', errors='replace')`: each maximal ill-formed part
      becomes one U+FFFD. */
  function Utf8Decode(bs: seq<byte>): (r: string)
    ensures |r| <= |bs|
    decreases |bs|
  {
    if bs == [] then []
    else
      var n := LeadLength(bs[0]);
      if n == 1 then [bs[0] as char] + Utf8Decode(bs[1..])
      else if n == 0 then [Replacement] + Utf8Decode(bs[1..])
      else
        var k := ValidPrefix(bs, n);
        if k == n then [CodePoint(bs, n)] + Utf8Decode(bs[n..])
        else [Replacement] + Utf8Decode(bs[k..])
  }

  // ----- quote / unquote -----

  predicate IsAscii(c: char) {
    c as int < 0x80
  }

  /** The characters `quote` never escapes. */
  predicate IsAlwaysSafe(c: char) {
    IsAsciiLetter(c) || IsDigit(c) || c == '_' || c == '.' || c == '-' || c == '~'
  }

  function HexDigit(n: nat): (c: char)
    requires n < 16
    ensures IsDigit(c) || 'A' <= c <= 'F'
  {
    if n < 10 then ('0' as int + n) as char else ('A' as int + n - 10) as char
  }

  predicate IsHex(c: char) {
    IsDigit(c) || 'a' <= c <= 'f' || 'A' <= c <= 'F'
  }

  function HexValue(c: char): (n: nat)
    requires IsHex(c)
    ensures n < 16
  {
    if IsDigit(c) then c as int - '0' as int
    else if 'a' <= c <= 'f' then c as int - 'a' as int + 10
    else c as int - 'A' as int + 10
  }

  /** One byte as `quote(..., safe='')` writes it. */
  function QuoteByte(b: byte): (r: string)
    ensures forall i :: 0 <= i < |r| ==> IsAlwaysSafe(r[i]) || r[i] == '%'
  {
    if IsAlwaysSafe(b as char) then [b as char]
    else ['%', HexDigit(b / 16), HexDigit(b % 16)]
  }

  function QuoteBytes(bs: seq<byte>): (r: string)
    ensures forall i :: 0 <= i < |r| ==> IsAlwaysSafe(r[i]) || r[i] == '%'
    ensures |r| >= |bs|
    decreases |bs|
  {
    if bs == [] then [] else QuoteByte(bs[0]) + QuoteBytes(bs[1..])
  }

  /** `quote(s, safe='')`: every character outside letters, digits and
      `_.-~` is written as `%XX` escapes of its UTF-8 bytes. */
  function Quote(s: string): (r: string)
    ensures forall i :: 0 <= i < |r| ==> IsAlwaysSafe(r[i]) || r[i] == '%'
    ensures |r| >= |s|
  {
    QuoteBytes(Utf8(s))
  }

  /** `unquote_to_bytes` on a run of ASCII characters: a `%` followed by
      two hex digits is that byte, anything else stands for itself. */
  function UnquoteToBytes(s: string): (r: seq<byte>)
    requires forall i :: 0 <= i < |s| ==> IsAscii(s[i])
    decreases |s|
  {
    if s == [] then []
    else if s[0] == '%' && |s| >= 3 && IsHex(s[1]) && IsHex(s[2]) then
      [HexValue(s[1]) * 16 + HexValue(s[2])] + UnquoteToBytes(s[3..])
    else
      assert IsAscii(s[0]);
      var b: byte := s[0] as int;
      [b] + UnquoteToBytes(s[1..])
  }

  /** The length of the longest prefix of ASCII characters. */
  function AsciiRun(s: string): (n: nat)
    ensures n <= |s|
    ensures forall i :: 0 <= i < n ==> IsAscii(s[i])
    ensures n < |s| ==> !IsAscii(s[n])
    decreases |s|
  {
    if s == [] || !IsAscii(s[0]) then 0 else 1 + AsciiRun(s[1..])
  }

  /** `unquote(s)`: each run of ASCII characters is percent-decoded to
      bytes and those bytes decoded as UTF-8 with replacement; other
      characters are kept. */
  function Unquote(s: string): (r: string)
    decreases |s|
  {
    if s == [] then []
    else if IsAscii(s[0]) then
      var n := AsciiRun(s);
      Utf8Decode(UnquoteToBytes(s[..n])) + Unquote(s[n..])
    else [s[0]] + Unquote(s[1..])
  }

  lemma Utf8Decode2(c: char, rest: seq<byte>)
    requires 0x80 <= c as int < 0x800
    ensures Utf8Decode(Utf8Char(c) + rest) == [c] + Utf8Decode(rest)
  {
    var n := c as int;
    var b0, b1 := 0xC0 + n / 0x40, 0x80 + n % 0x40;
    assert Utf8Char(c) == [b0, b1];
    var bs := [b0, b1] + rest;
    assert bs[0] == b0 && bs[1] == b1 && bs[2..] == rest;
    assert LeadLength(b0) == 2 && SecondOk(b0, b1);
    assert (b0 - 0xC0) * 0x40 + (b1 - 0x80) == n;
    assert CodePoint(bs, 2) == c;
  }

  lemma Utf8Decode3(c: char, rest: seq<byte>)
    requires 0x800 <= c as int < 0x10000
    ensures Utf8Decode(Utf8Char(c) + rest) == [c] + Utf8Decode(rest)
  {
    var n := c as int;
    var b0, b1, b2 := 0xE0 + n / 0x1000, 0x80 + n / 0x40 % 0x40, 0x80 + n % 0x40;
    assert Utf8Char(c) == [b0, b1, b2];
    var bs := [b0, b1, b2] + rest;
    assert bs[0] == b0 && bs[1] == b1 && bs[2] == b2 && bs[3..] == rest;
    assert LeadLength(b0) == 3 && SecondOk(b0, b1) && IsContinuation(b2);
    assert (b0 - 0xE0) * 0x1000 + (b1 - 0x80) * 0x40 + (b2 - 0x80) == n;
    assert CodePoint(bs, 3) == c;
  }

  /** The four bytes `Utf8Char` writes for a code point past U+FFFF form
      a well-formed sequence whose value is that code point. */
  lemma Utf8Bytes4(n: int)
    requires 0x10000 <= n < 0x110000
    ensures var b0, b1, b2, b3 := 0xF0 + n / 0x40000, 0x80 + n / 0x1000 % 0x40, 0x80 + n / 0x40 % 0x40, 0x80 + n % 0x40;
      0xF0 <= b0 < 0xF5 && SecondOk(b0, b1) && IsContinuation(b2) && IsContinuation(b3) &&
      (b0 - 0xF0) * 0x40000 + (b1 - 0x80) * 0x1000 + (b2 - 0x80) * 0x40 + (b3 - 0x80) == n
  {
    var hi, mid := n / 0x40000, n / 0x1000;
    assert n == mid * 0x1000 + n % 0x1000;
    assert mid == hi * 0x40 + mid % 0x40;
    assert n / 0x40 == mid * 0x40 + n / 0x40 % 0x40;
    assert n == n / 0x40 * 0x40 + n % 0x40;
    assert 0 <= hi <= 4;
    assert hi == 4 ==> mid % 0x40 < 0x10;
    assert hi == 0 ==> 0x10 <= mid < 0x40;
  }

  lemma Utf8Decode4(c: char, rest: seq<byte>)
    requires 0x10000 <= c as int
    ensures Utf8Decode(Utf8Char(c) + rest) == [c] + Utf8Decode(rest)
  {
    var n := c as int;
    Utf8Bytes4(n);
    var b0, b1, b2, b3 := 0xF0 + n / 0x40000, 0x80 + n / 0x1000 % 0x40, 0x80 + n / 0x40 % 0x40, 0x80 + n % 0x40;
    assert Utf8Char(c) == [b0, b1, b2, b3];
    var bs := [b0, b1, b2, b3] + rest;
    assert bs[0] == b0 && bs[1] == b1 && bs[2] == b2 && bs[3] == b3 && bs[4..] == rest;
    assert LeadLength(b0) == 4 && ValidPrefix(bs, 4) == 4;
    assert CodePoint(bs, 4) == c;
  }

  /** Decoding the encoding of a character gives the character back and
      leaves what follows to be decoded on its own. */
  lemma Utf8CharDecode(c: char, rest: seq<byte>)
    ensures Utf8Decode(Utf8Char(c) + rest) == [c] + Utf8Decode(rest)
  {
    var n := c as int;
    if n < 0x80 {
      assert (Utf8Char(c) + rest)[1..] == rest;
    } else if n < 0x800 {
      Utf8Decode2(c, rest);
    } else if n < 0x10000 {
      Utf8Decode3(c, rest);
    } else {
      Utf8Decode4(c, rest);
    }
  }

  /** UTF-8 decoding undoes UTF-8 encoding. */
  lemma {:induction false} Utf8RoundTrip(s: string)
    ensures Utf8Decode(Utf8(s)) == s
    decreases |s|
  {
    if s != [] {
      Utf8RoundTrip(s[1..]);
      Utf8CharDecode(s[0], Utf8(s[1..]));
    }
  }

  /** Percent-decoding reads the escape `quote` writes for one byte back
      as that byte. */
  lemma UnquoteQuoteByte(b: byte, tail: string)
    requires forall i :: 0 <= i < |tail| ==> IsAscii(tail[i])
    ensures forall i :: 0 <= i < |QuoteByte(b) + tail| ==> IsAscii((QuoteByte(b) + tail)[i])
    ensures UnquoteToBytes(QuoteByte(b) + tail) == [b] + UnquoteToBytes(tail)
  {
    var t := QuoteByte(b) + tail;
    assert forall i :: 0 <= i < |tail| ==> t[|QuoteByte(b)| + i] == tail[i];
    if IsAlwaysSafe(b as char) {
      assert t[0] != '%' && t[1..] == tail;
    } else {
      var hi, lo := b / 16, b % 16;
      assert HexValue(HexDigit(hi)) == hi && HexValue(HexDigit(lo)) == lo;
      assert t[0] == '%' && IsHex(t[1]) && IsHex(t[2]) && t[3..] == tail;
    }
  }

  /** Percent-decoding undoes percent-encoding, byte for byte. */
  lemma {:induction false} UnquoteQuoteBytes(bs: seq<byte>)
    ensures forall i :: 0 <= i < |QuoteBytes(bs)| ==> IsAscii(QuoteBytes(bs)[i])
    ensures UnquoteToBytes(QuoteBytes(bs)) == bs
    decreases |bs|
  {
    if bs != [] {
      UnquoteQuoteBytes(bs[1..]);
      UnquoteQuoteByte(bs[0], QuoteBytes(bs[1..]));
      assert QuoteBytes(bs) == QuoteByte(bs[0]) + QuoteBytes(bs[1..]);
      assert bs == [bs[0]] + bs[1..];
    }
  }

  /** On ASCII text `unquote` is percent-decoding followed by UTF-8
      decoding of the whole text. */
  lemma UnquoteAscii(s: string)
    requires forall i :: 0 <= i < |s| ==> IsAscii(s[i])
    ensures Unquote(s) == Utf8Decode(UnquoteToBytes(s))
  {
    if s != [] {
      assert AsciiRun(s) == |s|;
      assert s[..|s|] == s && s[|s|..] == [];
    }
  }

  /** `unquote(quote(s, safe=''))` is `s`: the escapes `quote` writes lose
      nothing. */
  lemma UnquoteQuote(s: string)
    ensures Unquote(Quote(s)) == s
  {
    UnquoteQuoteBytes(Utf8(s));
    UnquoteAscii(Quote(s));
    Utf8RoundTrip(s);
  }

  // ----- parse_qs -----

  function PlusToSpace(s: string): (r: string)
    ensures |r| == |s|
    ensures forall i :: 0 <= i < |s| ==> r[i] == (if s[i] == '+' then ' ' else s[i])
    decreases |s|
  {
    if s == [] then [] else [if s[0] == '+' then ' ' else s[0]] + PlusToSpace(s[1..])
  }

  /** One `name=value` field: dropped when it has no `=` or an empty
      value, otherwise both sides with `+` read as space and unquoted. */
  function QueryField(field: string): Option<(string, string)> {
    var k := Find(field, '=');
    if k + 1 >= |field| then None
    else Some((Unquote(PlusToSpace(field[..k])), Unquote(PlusToSpace(field[k + 1..]))))
  }

  function QueryPairs(fields: seq<string>): (r: seq<(string, string)>)
    ensures |r| <= |fields|
    decreases |fields|
  {
    if fields == [] then []
    else
      var here := match QueryField(fields[0]) case None => [] case Some(p) => [p];
      here + QueryPairs(fields[1..])
  }

  /** `parse_qsl(qs)`: the fields between `&`s, in order. */
  function ParseQsl(qs: string): seq<(string, string)> {
    QueryPairs(Split(qs, '&'))
  }

  /** `parse_qs(qs).get(name, [None])[0]`: the first value given for
      `name`. */
  function FirstValue(pairs: seq<(string, string)>, name: string): (r: Option<string>)
    ensures r.Some? <==> exists i :: 0 <= i < |pairs| && pairs[i].0 == name
    ensures r.Some? ==> exists i :: 0 <= i < |pairs| && pairs[i] == (name, r.value) && forall j :: 0 <= j < i ==> pairs[j].0 != name
    decreases |pairs|
  {
    if pairs == [] then None
    else if pairs[0].0 == name then Some(pairs[0].1)
    else
      var r := FirstValue(pairs[1..], name);
      assert forall i :: 0 < i < |pairs| ==> pairs[i] == pairs[1..][i - 1];
      r
  }

  /** On ASCII text without `%`, `unquote` changes nothing. */
  lemma {:induction false} UnquotePlain(s: string)
    requires forall i :: 0 <= i < |s| ==> IsAscii(s[i]) && s[i] != '%'
    ensures Unquote(s) == s
  {
    UnquoteAscii(s);
    PlainBytes(s);
    Utf8RoundTrip(s);
  }

  lemma {:induction false} PlainBytes(s: string)
    requires forall i :: 0 <= i < |s| ==> IsAscii(s[i]) && s[i] != '%'
    ensures UnquoteToBytes(s) == Utf8(s)
    decreases |s|
  {
    if s != [] {
      PlainBytes(s[1..]);
    }
  }

  lemma {:induction false} PlusToSpaceWithoutPlus(s: string)
    requires '+' !in s
    ensures PlusToSpace(s) == s
    decreases |s|
  {
    if s != [] {
      PlusToSpaceWithoutPlus(s[1..]);
    }
  }

  /** A field `name=v` with `=` first after the name and a non-empty `v`. */
  lemma QueryFieldOf(name: string, v: string)
    requires '=' !in name && v != []
    ensures QueryField(name + "=" + v) == Some((Unquote(PlusToSpace(name)), Unquote(PlusToSpace(v))))
  {
    var field := name + "=" + v;
    assert field[|name|] == '=';
    assert Find(field, '=') == |name|;
    assert field[..|name|] == name;
    assert field[|name| + 1..] == v;
  }

  /** `parse_qsl` of a single `name=quote(value)` field gives back the
      pair, when the name needs no decoding and the value is not empty. */
  lemma QueryRoundTrip(name: string, value: string)
    requires forall i :: 0 <= i < |name| ==> IsAlwaysSafe(name[i])
    requires value != []
    ensures ParseQsl(name + "=" + Quote(value)) == [(name, value)]
  {
    var q := Quote(value);
    var field := name + "=" + q;
    assert '&' !in field && '+' !in q && q != [] by {
      assert forall i :: 0 <= i < |q| ==> field[|name| + 1 + i] == q[i];
    }
    assert '=' !in name && '+' !in name;
    assert forall i :: 0 <= i < |name| ==> IsAscii(name[i]) && name[i] != '%';
    SplitWithoutSeparator(field, '&');
    QueryFieldOf(name, q);
    PlusToSpaceWithoutPlus(name);
    PlusToSpaceWithoutPlus(q);
    UnquotePlain(name);
    UnquoteQuote(value);
    assert QueryPairs([field]) == [(name, value)] + QueryPairs([]);
  }

  // ----- splitext -----

  /** `os.path.splitext(p)` (POSIX): the extension starts at the last `.`
      of the last path segment, provided something other than dots comes
      before it in that segment. */
  function SplitExt(p: string): (r: (string, string))
    ensures r.0 + r.1 == p
    ensures r.1 != [] ==> r.1[0] == '.' && '.' !in r.1[1..] && '/' !in r.1
  {
    var sep := RFind(p, '/');
    var dot := RFind(p, '.');
    if dot > sep && (exists j | sep + 1 <= j < dot :: p[j] != '.') then
      (p[..dot], p[dot..])
    else (p, "")
  }

  /** A name made of a stem ending in an ordinary character, a dot and a
      dot-free extension splits into exactly that stem and extension. */
  lemma SplitExtJoin(stem: string, ext: string)
    requires stem != [] && stem[|stem| - 1] != '.' && stem[|stem| - 1] != '/'
    requires '.' !in ext && '/' !in ext
    ensures SplitExt(stem + "." + ext) == (stem, "." + ext)
  {
    var p := stem + "." + ext;
    assert p[|stem|] == '.';
    assert forall j :: |stem| < j < |p| ==> p[j] == ext[j - |stem| - 1];
    assert RFind(p, '.') == |stem|;
    assert RFind(p, '/') < |stem| - 1;
    assert p[|stem| - 1] != '.';
    assert p[..|stem|] == stem && p[|stem|..] == "." + ext;
  }

  // ----- convert_sharepoint_url -----

  /** The file named by the first `file` query parameter, unquoted once
      more, when there is a non-empty one. */
  function FileName(query: string): Option<string> {
    var fileParam := FirstValue(ParseQsl(query), "file");
    if fileParam.Some? && fileParam.value != [] then Some(Unquote(fileParam.value)) else None
  }

  /** A path that shows a document in the SharePoint viewer. */
  predicate IsViewerPath(path: string) {
    Contains(path, "/_layouts/15/Doc.aspx") || Contains(path, "/Doc.aspx")
  }

  /** The site: the path up to `/_layouts`. */
  function SitePrefix(p: ParseResult): string {
    p.scheme + "://" + p.netloc + Before(p.path, "/_layouts")
  }

  /** The `download.aspx` link for a viewer URL. */
  function DownloadLink(p: ParseResult, url: string): string {
    SitePrefix(p) + "/_layouts/15/download.aspx" + "?SourceUrl=" + Quote(url)
  }

  /** `convert_sharepoint_url(url)`: a SharePoint viewer link becomes a
      `download.aspx` link carrying the whole URL as `SourceUrl`, or a
      link straight to the file named by its `file` parameter; anything
      else, and any URL `urlparse` rejects, comes back as it was. The
      second part is the extension of the named file, if any. */
  function ConvertSharepointUrl(url: string): (r: (string, Option<string>))
    ensures !Contains(Lower(url), "sharepoint.com") ==> r == (url, None)
    ensures UrlParse(url).Err? ==> r == (url, None)
    ensures r.1.Some? ==> r.1.value == [] || (r.1.value[0] == '.' && '/' !in r.1.value)
  {
    if !Contains(Lower(url), "sharepoint.com") then (url, None)
    else
      match UrlParse(url)
      case Err(_) => (url, None)
      case Ok(parsed) =>
        var fileName := FileName(parsed.query);
        var fileExt := if fileName.Some? then Some(SplitExt(fileName.value).1) else None;
        if IsViewerPath(parsed.path) then (DownloadLink(parsed, url), fileExt)
        else if fileName.Some? && fileName.value != [] then
          (SitePrefix(parsed) + "/" + Quote(fileName.value), fileExt)
        else (url, None)
  }

  // ----- The download link round trip -----

  /** A character that may stand before the query of the URLs this model
      builds: no query or fragment mark, no bracket, nothing deleted. */
  predicate IsPlainUrlChar(c: char) {
    c != '?' && c != '#' && c != '[' && c != ']' && !IsUnsafeUrlChar(c)
  }

  predicate Plain(s: string) {
    forall i :: 0 <= i < |s| ==> IsPlainUrlChar(s[i])
  }

  /** Text that may follow the `?` of a URL without being cut: no
      fragment mark and nothing `urlsplit` deletes. */
  predicate QueryText(s: string) {
    forall i :: 0 <= i < |s| ==> s[i] != '#' && !IsUnsafeUrlChar(s[i])
  }

  lemma QueryTextConcat(x: string, y: string)
    requires QueryText(x) && QueryText(y)
    ensures QueryText(x + y)
  {
    assert forall i :: 0 <= i < |y| ==> (x + y)[|x| + i] == y[i];
  }

  lemma PlainConcat(x: string, y: string)
    requires Plain(x) && Plain(y)
    ensures Plain(x + y)
  {
    assert forall i :: 0 <= i < |y| ==> (x + y)[|x| + i] == y[i];
  }

  lemma TailQuery(scheme: string, netloc: string, a: string, b: string)
    requires forall i :: 0 <= i < |a| ==> IsPlainUrlChar(a[i])
    requires '#' !in b
    ensures SplitTail(scheme, netloc, a + "?" + b).query == b
  {
    var t := a + "?" + b;
    assert '#' !in t by {
      assert forall i :: 0 <= i < |b| ==> t[|a| + 1 + i] == b[i];
    }
    assert '?' !in a;
    SplitOnceAt(a, b, '?');
  }

  lemma AfterSchemeQuery(scheme: string, a: string, b: string)
    requires forall i :: 0 <= i < |a| ==> IsPlainUrlChar(a[i])
    requires '#' !in b
    ensures SplitAfterScheme(scheme, a + "?" + b).Ok?
    ensures SplitAfterScheme(scheme, a + "?" + b).value.query == b
  {
    var rest := a + "?" + b;
    if |rest| >= 2 && rest[..2] == "//" {
      var d := NetlocEnd(rest, 2);
      assert rest[|a|] == '?';
      assert d <= |a|;
      var a2 := a[d..];
      assert rest[2..d] == a[2..d];
      assert rest[d..] == a2 + "?" + b;
      assert forall i :: 0 <= i < d - 2 ==> a[2..d][i] == a[2 + i];
      assert '[' !in a[2..d] && ']' !in a[2..d];
      assert forall i :: 0 <= i < |a2| ==> a2[i] == a[d + i];
      TailQuery(scheme, a[2..d], a2, b);
    } else {
      TailQuery(scheme, "", a, b);
    }
  }

  /** When the first `:` lies in `a`, what follows the scheme is still a
      suffix of `a`, then `?`, then `b`. */
  lemma SchemeRest(a: string, b: string) returns (k: nat)
    requires ':' in a
    ensures k <= |a| && SplitScheme(a + "?" + b).1 == a[k..] + "?" + b
  {
    var u := a + "?" + b;
    var tail := "?" + b;
    FindConcat(a, tail, ':');
    assert a + tail == u;
    var rest := SplitScheme(u).1;
    k := |u| - |rest|;
    assert rest == u[k..];
    assert k <= |a| by {
      if SplitScheme(u).0 != [] {
        assert Find(u, ':') == Find(a, ':') < |a|;
      }
    }
    DropConcat(a, tail, k);
    assert a[k..] + tail == a[k..] + "?" + b;
  }

  lemma DropConcat(a: string, tail: string, k: nat)
    requires k <= |a|
    ensures (a + tail)[k..] == a[k..] + tail
  {
  }

  /** A URL made of a part `a` holding a `:` and no query mark, then `?`,
      then `b`, splits with `b` as its query. */
  lemma QueryOfShaped(a: string, b: string)
    requires ':' in a && !IsC0OrSpace(a[0])
    requires Plain(a)
    requires QueryText(b)
    ensures UrlSplit(a + "?" + b).Ok? && UrlSplit(a + "?" + b).value.query == b
  {
    var u := a + "?" + b;
    assert NoUnsafe(u) by {
      assert forall i :: 0 <= i < |b| ==> u[|a| + 1 + i] == b[i];
    }
    assert Cleaned(u) == u;
    var k := SchemeRest(a, b);
    var a1 := a[k..];
    assert forall i :: 0 <= i < |a1| ==> a1[i] == a[k + i];
    assert '#' !in b;
    AfterSchemeQuery(SplitScheme(u).0, a1, b);
  }

  /** The parts of the download link that come before its query hold no
      query or fragment mark, no bracket and nothing `urlsplit` deletes,
      when the parsed parts have none. */
  lemma DownloadPrefixPlain(p: ParseResult)
    requires forall i :: 0 <= i < |p.scheme| ==> IsSchemeChar(p.scheme[i])
    requires forall i :: 0 <= i < |p.netloc| ==> !IsNetlocEnd(p.netloc[i])
    requires NoUnsafe(p.netloc) && '[' !in p.netloc && ']' !in p.netloc
    requires NoUnsafe(p.path) && '[' !in p.path && ']' !in p.path && '?' !in p.path && '#' !in p.path
    ensures Plain(SitePrefix(p) + "/_layouts/15/download.aspx")
  {
    var site := Before(p.path, "/_layouts");
    assert Plain(site) by {
      assert forall i :: 0 <= i < |site| ==> site[i] == p.path[i];
    }
    PlainConcat(p.scheme, "://");
    PlainConcat(p.scheme + "://", p.netloc);
    PlainConcat(p.scheme + "://" + p.netloc, site);
    PlainConcat(SitePrefix(p), "/_layouts/15/download.aspx");
  }

  /** For a parseable SharePoint viewer URL the link made is its
      `download.aspx` link. */
  lemma ViewerLink(url: string)
    requires Contains(Lower(url), "sharepoint.com")
    requires UrlParse(url).Ok? && IsViewerPath(UrlParse(url).value.path)
    ensures ConvertSharepointUrl(url).0 == DownloadLink(UrlParse(url).value, url)
  {
  }

  /** The query of a `download.aspx` link gives back the source URL. */
  lemma SourceUrlQuery(url: string)
    requires url != []
    ensures FirstValue(ParseQsl("SourceUrl=" + Quote(url)), "SourceUrl") == Some(url)
  {
    SourceUrlSafe();
    QueryRoundTrip("SourceUrl", url);
    assert "SourceUrl" + "=" + Quote(url) == "SourceUrl=" + Quote(url);
  }

  /** The parameter name needs no escaping. */
  lemma SourceUrlSafe()
    ensures forall i :: 0 <= i < |"SourceUrl"| ==> IsAlwaysSafe("SourceUrl"[i])
  {
  }

  /** That query survives `urlsplit`: it holds no `#` and nothing that
      `urlsplit` deletes. */
  lemma SourceUrlQueryText(url: string)
    ensures QueryText("SourceUrl=" + Quote(url))
  {
    var q := Quote(url);
    assert QueryText(q);
    QueryTextConcat("SourceUrl=", q);
  }

  lemma DownloadLinkParts(p: ParseResult, url: string)
    ensures DownloadLink(p, url) == (SitePrefix(p) + "/_layouts/15/download.aspx") + "?" + ("SourceUrl=" + Quote(url))
  {
    var x, q := SitePrefix(p) + "/_layouts/15/download.aspx", Quote(url);
    assert "?SourceUrl=" == "?" + "SourceUrl=";
    assert x + "?SourceUrl=" + q == x + "?" + ("SourceUrl=" + q);
  }

  /** The part of a download link before its query holds a `:` and does
      not start with a control or a space. */
  lemma LinkPrefixShape(p: ParseResult)
    requires forall i :: 0 <= i < |p.scheme| ==> IsSchemeChar(p.scheme[i])
    ensures var a := SitePrefix(p) + "/_layouts/15/download.aspx";
      ':' in a && !IsC0OrSpace(a[0])
  {
    var a := SitePrefix(p) + "/_layouts/15/download.aspx";
    assert a[|p.scheme|] == ':';
    if p.scheme != [] {
      assert a[0] == p.scheme[0];
    }
  }

  /** A download link built from parts free of delimiters parses, and its
      query carries the source URL. */
  lemma LinkQuery(p: ParseResult, url: string)
    requires forall i :: 0 <= i < |p.scheme| ==> IsSchemeChar(p.scheme[i])
    requires forall i :: 0 <= i < |p.netloc| ==> !IsNetlocEnd(p.netloc[i])
    requires NoUnsafe(p.netloc) && '[' !in p.netloc && ']' !in p.netloc
    requires NoUnsafe(p.path) && '[' !in p.path && ']' !in p.path && '?' !in p.path && '#' !in p.path
    requires url != []
    ensures UrlParse(DownloadLink(p, url)).Ok?
    ensures FirstValue(ParseQsl(UrlParse(DownloadLink(p, url)).value.query), "SourceUrl") == Some(url)
  {
    var a := SitePrefix(p) + "/_layouts/15/download.aspx";
    var b := "SourceUrl=" + Quote(url);
    DownloadLinkParts(p, url);
    DownloadPrefixPlain(p);
    LinkPrefixShape(p);
    SourceUrlQuery(url);
    SourceUrlQueryText(url);
    QueryOfShaped(a, b);
  }

  /** The `download.aspx` link made for a `Doc.aspx` viewer URL carries that
      URL as its `SourceUrl` query parameter: parsing the link and its
      query gives the original URL back exactly. */
  lemma DownloadLinkCarriesSourceUrl(url: string)
    requires Contains(Lower(url), "sharepoint.com")
    requires '[' !in url && ']' !in url
    requires UrlParse(url).Ok? && IsViewerPath(UrlParse(url).value.path)
    ensures UrlParse(ConvertSharepointUrl(url).0).Ok?
    ensures FirstValue(ParseQsl(UrlParse(ConvertSharepointUrl(url).0).value.query), "SourceUrl") == Some(url)
  {
    ViewerLink(url);
    assert |Lower(url)| == |url|;
    LinkQuery(UrlParse(url).value, url);
  }

  /** A quoted string has no `/`: it is a single path segment. */
  lemma QuoteIsSegment(s: string)
    ensures '/' !in Quote(s)
  {
    assert forall i :: 0 <= i < |Quote(s)| ==> Quote(s)[i] != '/';
  }

  lemma FileLink(url: string)
    requires Contains(Lower(url), "sharepoint.com")
    requires UrlParse(url).Ok? && !IsViewerPath(UrlParse(url).value.path)
    requires FileName(UrlParse(url).value.query).Some? && FileName(UrlParse(url).value.query).value != []
    ensures var p, n := UrlParse(url).value, FileName(UrlParse(url).value.query).value;
      ConvertSharepointUrl(url) == (SitePrefix(p) + "/" + Quote(n), Some(SplitExt(n).1))
  {
  }

  /** A SharePoint URL that is not a viewer link but names a file gets a
      link whose last segment is the quoted file name: one segment, which
      unquotes back to the name; the extension returned is that name's. */
  lemma FileLinkNamesFile(url: string)
    requires Contains(Lower(url), "sharepoint.com")
    requires UrlParse(url).Ok? && !IsViewerPath(UrlParse(url).value.path)
    requires FileName(UrlParse(url).value.query).Some? && FileName(UrlParse(url).value.query).value != []
    ensures var p, n := UrlParse(url).value, FileName(UrlParse(url).value.query).value;
      && ConvertSharepointUrl(url) == (SitePrefix(p) + "/" + Quote(n), Some(SplitExt(n).1))
      && '/' !in Quote(n)
      && Unquote(Quote(n)) == n
  {
    var n := FileName(UrlParse(url).value.query).value;
    FileLink(url);
    UnquoteQuote(n);
    QuoteIsSegment(n);
  }
}

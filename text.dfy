/** String primitives the core relies on, stated the way Python's `str`
    methods behave: `isspace`, `strip`, `lower` (ASCII letters), the `in`
    substring test, `sep.join(parts)` and `s.split(c)`. */
module Text {

  /** Python's `str.isspace()` for one character. */
  predicate IsSpace(c: char) {
    c == ' ' || ('\t' <= c <= '\r') || ('\U{1c}' <= c <= '\U{1f}')
    || c == '\U{85}' || c == '\U{a0}' || c == '\U{1680}'
    || ('\U{2000}' <= c <= '\U{200a}') || c == '\U{2028}' || c == '\U{2029}'
    || c == '\U{202f}' || c == '\U{205f}' || c == '\U{3000}'
  }

  /** True when every character is whitespace, i.e. `not s.strip()`. */
  predicate IsBlank(s: string) {
    forall i :: 0 <= i < |s| ==> IsSpace(s[i])
  }

  /** Python's `s.strip()`: whitespace is removed from the front, then from
      the back. */
  function Strip(s: string): (r: string)
    ensures |r| <= |s|
    decreases |s|
  {
    if |s| > 0 && IsSpace(s[0]) then Strip(s[1..])
    else if |s| > 0 && IsSpace(s[|s| - 1]) then Strip(s[..|s| - 1])
    else s
  }

  /** `s.strip()` is the slice `s[lo:hi]` for some `lo <= hi`. */
  lemma {:induction false} StripSlice(s: string) returns (lo: nat, hi: nat)
    ensures lo <= hi <= |s| && Strip(s) == s[lo..hi]
    decreases |s|
  {
    if |s| > 0 && IsSpace(s[0]) {
      lo, hi := StripSlice(s[1..]);
      assert s[1..][lo..hi] == s[lo + 1..hi + 1];
      lo, hi := lo + 1, hi + 1;
    } else if |s| > 0 && IsSpace(s[|s| - 1]) {
      lo, hi := StripSlice(s[..|s| - 1]);
      assert s[..|s| - 1][lo..hi] == s[lo..hi];
    } else {
      lo, hi := 0, |s|;
    }
  }

  /** `s.strip()` has no whitespace at either end, and it is empty exactly
      when `s` is blank. */
  lemma {:induction false} StripSpec(s: string)
    ensures Strip(s) != [] ==> !IsSpace(Strip(s)[0]) && !IsSpace(Strip(s)[|Strip(s)| - 1])
    ensures Strip(s) == [] <==> IsBlank(s)
    decreases |s|
  {
    if |s| > 0 && IsSpace(s[0]) {
      var t := s[1..];
      StripSpec(t);
      assert IsBlank(s) <==> IsBlank(t) by {
        if IsBlank(t) {
          forall i | 0 <= i < |s| ensures IsSpace(s[i]) {
            if i > 0 { assert s[i] == t[i - 1]; }
          }
        }
      }
    } else if |s| > 0 && IsSpace(s[|s| - 1]) {
      var t := s[..|s| - 1];
      StripSpec(t);
      assert t[0] == s[0];
    }
  }

  function Min(a: int, b: int): int { if a <= b then a else b }

  /** Python's slice `s[lo:hi]` for non-negative bounds: both ends are clamped
      to the length and a reversed range gives the empty string. */
  function PySlice(s: string, lo: nat, hi: nat): (r: string)
    ensures |r| <= |s|
    ensures lo <= hi <= |s| ==> r == s[lo..hi]
    ensures lo < |s| && hi > lo ==> r == s[lo..Min(hi, |s|)]
    ensures hi <= lo || lo >= |s| ==> r == ""
  {
    var a := Min(lo, |s|);
    var b := Min(hi, |s|);
    if b <= a then "" else s[a..b]
  }

  /** Python's `str.lower()` for the characters that lower into ASCII
      letters: the ASCII capitals and the Kelvin sign U+212A, which
      lowers to `k`. Every other character is kept. */
  function LowerChar(c: char): (r: char)
    ensures 'A' <= c <= 'Z' ==> r != c && 'a' <= r <= 'z' && r as int - c as int == 0x20
    ensures c == '\U{212A}' ==> r == 'k'
    ensures !('A' <= c <= 'Z') && c != '\U{212A}' ==> r == c
  {
    if 'A' <= c <= 'Z' then (c as int - 'A' as int + 'a' as int) as char
    else if c == '\U{212A}' then 'k'
    else c
  }

  function Lower(s: string): (r: string)
    ensures |r| == |s|
    ensures forall i :: 0 <= i < |s| ==> r[i] == LowerChar(s[i])
  {
    seq(|s|, i requires 0 <= i < |s| => LowerChar(s[i]))
  }

  /** Lowering twice is lowering once. */
  lemma LowerIdempotent(s: string)
    ensures Lower(Lower(s)) == Lower(s)
  {
    assert forall i :: 0 <= i < |s| ==> LowerChar(LowerChar(s[i])) == LowerChar(s[i]);
  }

  /** `sub` occurs in `s` starting at offset `i`. */
  predicate OccursAt(s: string, sub: string, i: int) {
    0 <= i && i + |sub| <= |s| && s[i..i + |sub|] == sub
  }

  /** Python's `sub in s`: `sub` occurs in `s` at some offset. */
  predicate Contains(s: string, sub: string) {
    exists i | 0 <= i <= |s| - |sub| :: OccursAt(s, sub, i)
  }

  /** Python's `s.find(c)`, with `|s|` standing for "not found". */
  function Find(s: string, c: char): (i: nat)
    ensures i <= |s|
    ensures i < |s| ==> s[i] == c
    ensures forall j :: 0 <= j < i ==> s[j] != c
    ensures i == |s| <==> c !in s
    decreases |s|
  {
    if s == [] then 0
    else if s[0] == c then 0
    else 1 + Find(s[1..], c)
  }

  /** Python's `s.rfind(c)`: the last index of `c`, or -1. */
  function RFind(s: string, c: char): (i: int)
    ensures -1 <= i < |s|
    ensures 0 <= i ==> s[i] == c
    ensures forall j :: i < j < |s| ==> s[j] != c
    decreases |s|
  {
    if s == [] then -1
    else if s[|s| - 1] == c then |s| - 1
    else RFind(s[..|s| - 1], c)
  }

  /** The first offset at or after `k` where `sub` occurs in `s`, or -1. */
  function FindSubFrom(s: string, sub: string, k: nat): (i: int)
    ensures i < 0 ==> forall j :: k <= j ==> !OccursAt(s, sub, j)
    ensures 0 <= i ==> k <= i && OccursAt(s, sub, i) && forall j :: k <= j < i ==> !OccursAt(s, sub, j)
    decreases |s| - k
  {
    if k + |sub| > |s| then -1
    else if OccursAt(s, sub, k) then k
    else FindSubFrom(s, sub, k + 1)
  }

  /** Python's `s.find(sub)`: the first offset where `sub` occurs, or -1. */
  function FindSub(s: string, sub: string): (i: int)
    ensures i < 0 <==> !Contains(s, sub)
    ensures 0 <= i ==> OccursAt(s, sub, i) && forall j :: 0 <= j < i ==> !OccursAt(s, sub, j)
  {
    FindSubFrom(s, sub, 0)
  }

  /** Python's `s.split(sep)[0]`: what comes before the first `sep`, or all
      of `s` when there is none. */
  function Before(s: string, sep: string): (r: string)
    ensures |r| <= |s| && r == s[..|r|]
    ensures !Contains(s, sep) ==> r == s
    ensures Contains(s, sep) ==> OccursAt(s, sep, |r|) && forall j :: 0 <= j < |r| ==> !OccursAt(s, sep, j)
  {
    var i := FindSub(s, sep);
    if i < 0 then s else s[..i]
  }

  /** Python's `s.split(c, 1)` read as a pair: the text before the first
      `c` and the text after it, or `s` and `""` when there is no `c`. */
  function SplitOnce(s: string, c: char): (r: (string, string))
    ensures |r.0| <= |s| && r.0 == s[..|r.0|]
    ensures c !in r.0
    ensures c in s ==> s == r.0 + [c] + r.1 && r.1 == s[|r.0| + 1..]
    ensures c !in s ==> r == (s, "")
  {
    var i := Find(s, c);
    if i < |s| then (s[..i], s[i + 1..]) else (s, "")
  }

  /** Where `c` is first found in `x + y`. */
  lemma {:induction false} FindConcat(x: string, y: string, c: char)
    ensures c in x ==> Find(x + y, c) == Find(x, c)
    ensures c !in x ==> Find(x + y, c) == |x| + Find(y, c)
    decreases |x|
  {
    if x != [] {
      FindConcat(x[1..], y, c);
      assert (x + y)[1..] == x[1..] + y;
    } else {
      assert x + y == y;
    }
  }

  /** Splitting at `c` where the first `c` follows `x` gives `x` and what
      comes after that `c`. */
  lemma SplitOnceAt(x: string, y: string, c: char)
    requires c !in x
    ensures SplitOnce(x + [c] + y, c) == (x, y)
  {
    var s := x + [c] + y;
    var i := Find(s, c);
    assert s[|x|] == c;
    assert i == |x|;
    assert s[..|x|] == x && s[|x| + 1..] == y;
  }

  /** Python's `sep.join(parts)`. */
  function Join(sep: string, parts: seq<string>): (r: string)
    decreases |parts|
  {
    if |parts| == 0 then ""
    else if |parts| == 1 then parts[0]
    else parts[0] + sep + Join(sep, parts[1..])
  }

  function TotalLength(parts: seq<string>): nat {
    if parts == [] then 0 else |parts[0]| + TotalLength(parts[1..])
  }

  /** A join is as long as its parts plus one separator between each pair. */
  lemma {:induction false} JoinLength(sep: string, parts: seq<string>)
    ensures |parts| > 0 ==> |Join(sep, parts)| == TotalLength(parts) + (|parts| - 1) * |sep|
    ensures |parts| == 0 ==> Join(sep, parts) == ""
    decreases |parts|
  {
    if |parts| > 1 { JoinLength(sep, parts[1..]); }
  }

  /** Python's `s.split(c)` for a single separator character: always at least
      one piece, none of which contains `c`. */
  function Split(s: string, c: char): (r: seq<string>)
    ensures |r| >= 1
    ensures forall k :: 0 <= k < |r| ==> c !in r[k]
    decreases |s|
  {
    if s == [] then [""]
    else if s[0] == c then [""] + Split(s[1..], c)
    else
      var rest := Split(s[1..], c);
      [[s[0]] + rest[0]] + rest[1..]
  }

  /** Joining the pieces of a split with the separator gives back the string. */
  lemma {:induction false} SplitJoin(s: string, c: char)
    ensures Join([c], Split(s, c)) == s
    decreases |s|
  {
    if s != [] {
      SplitJoin(s[1..], c);
      var rest := Split(s[1..], c);
      if s[0] != c {
        if |rest| == 1 {
          assert Split(s, c) == [[s[0]] + rest[0]];
        } else {
          assert Split(s, c)[1..] == rest[1..];
        }
      }
    }
  }

  /** A string without the separator splits into itself alone. */
  lemma {:induction false} SplitWithoutSeparator(s: string, c: char)
    requires c !in s
    ensures Split(s, c) == [s]
    decreases |s|
  {
    if s != [] {
      SplitWithoutSeparator(s[1..], c);
      assert [s[0]] + s[1..] == s;
    }
  }

  /** A first piece without the separator splits off as a piece of its own. */
  lemma {:induction false} SplitAfter(x: string, c: char, y: string)
    requires c !in x
    ensures Split(x + [c] + y, c) == [x] + Split(y, c)
    decreases |x|
  {
    if x == [] {
      assert x + [c] + y == [c] + y;
      assert ([c] + y)[1..] == y;
    } else {
      SplitAfter(x[1..], c, y);
      assert (x + [c] + y)[1..] == x[1..] + [c] + y;
      assert [x[0]] + x[1..] == x;
    }
  }

  /** Splitting a join at its separator gives back the parts, when no part
      holds the separator. */
  lemma {:induction false} JoinSplit(parts: seq<string>, c: char)
    requires |parts| >= 1
    requires forall k :: 0 <= k < |parts| ==> c !in parts[k]
    ensures Split(Join([c], parts), c) == parts
    decreases |parts|
  {
    if |parts| == 1 {
      SplitWithoutSeparator(parts[0], c);
    } else {
      JoinSplit(parts[1..], c);
      SplitAfter(parts[0], c, Join([c], parts[1..]));
      assert [parts[0]] + parts[1..] == parts;
    }
  }

  /** The pieces of a split are as many as the separators plus one. */
  lemma {:induction false} SplitCount(s: string, c: char)
    ensures |Split(s, c)| == multiset(s)[c] + 1
    decreases |s|
  {
    if s != [] {
      SplitCount(s[1..], c);
      assert s == [s[0]] + s[1..];
      assert multiset(s) == multiset([s[0]]) + multiset(s[1..]);
    }
  }
}

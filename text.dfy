/** Option and Result, the shapes every stage of the pipeline uses for "absent" and "failed". */
module Results {
  datatype Option<+T> = None | Some(value: T)

  datatype Result<+T, +E> = Ok(value: T) | Err(error: E)
}

/**
 * The string operations of JavaScript that the article pipeline relies on,
 * written over `seq<char>`. Indices are character positions; the source counts
 * UTF-16 code units, which agree for every character outside the astral planes.
 */
module Text {
  type String = seq<char>

  /** The characters of JavaScript's `\s` class, which are also the ones `trim()` removes. */
  predicate IsSpace(c: char) {
    || c == ' ' || c == '\t' || c == '\n' || c == '\r' || c == '\U{000B}' || c == '\U{000C}'
    || c == '\U{00A0}' || c == '\U{1680}' || ('\U{2000}' <= c <= '\U{200A}')
    || c == '\U{2028}' || c == '\U{2029}' || c == '\U{202F}' || c == '\U{205F}'
    || c == '\U{3000}' || c == '\U{FEFF}'
  }

  /** The line terminators: the characters a regex `.` does not match and after which a multiline `^` matches. */
  predicate IsLineTerminator(c: char) {
    c == '\n' || c == '\r' || c == '\U{2028}' || c == '\U{2029}'
  }

  predicate IsDigit(c: char) {
    '0' <= c <= '9'
  }

  /** `s.startsWith(p)` */
  predicate StartsWith(s: String, p: String) {
    |p| <= |s| && s[..|p|] == p
  }

  /** `s.endsWith(p)` */
  predicate EndsWith(s: String, p: String) {
    |p| <= |s| && s[|s| - |p|..] == p
  }

  /** `p` occurs in `s` starting at index `k`. */
  predicate OccursAt(s: String, p: String, k: int) {
    0 <= k && k + |p| <= |s| && s[k..k + |p|] == p
  }

  /** No character of `s` is white space. */
  predicate NoSpace(s: String) {
    forall i :: 0 <= i < |s| ==> !IsSpace(s[i])
  }

  /** `s.substring(0, n)`: the first `n` characters, or all of `s` when it is shorter. */
  function Take(s: String, n: nat): (r: String)
    ensures |r| == if n < |s| then n else |s|
    ensures StartsWith(s, r)
  {
    if n < |s| then s[..n] else s
  }

  /** The leading white space removed by `trimStart()`. */
  function TrimStart(s: String): (r: String)
    ensures |r| <= |s| && r == s[|s| - |r|..]
    ensures r == [] || !IsSpace(r[0])
    ensures forall i :: 0 <= i < |s| - |r| ==> IsSpace(s[i])
  {
    if s != [] && IsSpace(s[0]) then TrimStart(s[1..]) else s
  }

  function TrimEnd(s: String): (r: String)
    ensures |r| <= |s| && r == s[..|r|]
    ensures r == [] || !IsSpace(r[|r| - 1])
    ensures forall i :: |r| <= i < |s| ==> IsSpace(s[i])
  {
    if s != [] && IsSpace(s[|s| - 1]) then TrimEnd(s[..|s| - 1]) else s
  }

  /** `s.trim()`: `s` without its leading and trailing white space. */
  function Trim(s: String): (r: String)
    ensures |r| <= |s|
    ensures r == [] || (!IsSpace(r[0]) && !IsSpace(r[|r| - 1]))
    ensures r == [] <==> forall i :: 0 <= i < |s| ==> IsSpace(s[i])
    ensures s == [] || (!IsSpace(s[0]) && !IsSpace(s[|s| - 1])) ==> r == s
  {
    var t := TrimStart(s);
    var r := TrimEnd(t);
    assert r != [] ==> r[0] == t[0] == s[|s| - |t|];
    r
  }

  /**
   * What `trim()` keeps is one contiguous slice of the input, starting at `a`,
   * and everything it drops on either side is white space.
   */
  lemma {:induction false} TrimIsSlice(s: String) returns (a: nat, r: String)
    ensures r == Trim(s)
    ensures a + |r| <= |s| && r == s[a..a + |r|]
    ensures forall i :: 0 <= i < a ==> IsSpace(s[i])
    ensures forall i :: a + |r| <= i < |s| ==> IsSpace(s[i])
  {
    var t := TrimStart(s);
    a := |s| - |t|;
    r := TrimEnd(t);
    EndTrimmedSlice(s, a, t, r);
  }

  /** Trimming the end of a suffix `t` of `s` that starts at `a` keeps a slice of `s` and drops only white space. */
  lemma EndTrimmedSlice(s: String, a: nat, t: String, r: String)
    requires a <= |s| && t == s[a..]
    requires |r| <= |t| && r == t[..|r|]
    requires forall i :: |r| <= i < |t| ==> IsSpace(t[i])
    ensures a + |r| <= |s| && r == s[a..a + |r|]
    ensures forall i :: a + |r| <= i < |s| ==> IsSpace(s[i])
  {
    forall i | a + |r| <= i < |s| ensures IsSpace(s[i]) {
      assert s[i] == t[i - a];
    }
  }

  /** Putting the same text in front keeps a prefix a prefix. */
  lemma StartsWithAppend(d: String, u: String, p: String)
    requires StartsWith(u, p)
    ensures StartsWith(d + u, d + p)
  {
    assert (d + u)[..|d + p|] == d + u[..|p|];
  }

  /** `s.indexOf(c)`: the first position of `c`, or -1. */
  function IndexOf(s: String, c: char): (r: int)
    ensures -1 <= r < |s|
    ensures r == -1 <==> c !in s
    ensures r >= 0 ==> s[r] == c && c !in s[..r]
  {
    if s == [] then -1
    else if s[0] == c then 0
    else
      var k := IndexOf(s[1..], c);
      assert s[1..][..if k < 0 then 0 else k] == s[1..if k < 0 then 1 else k + 1];
      if k == -1 then -1 else k + 1
  }

  /** `s.lastIndexOf(c)`: the last position of `c`, or -1. */
  function LastIndexOf(s: String, c: char): (r: int)
    ensures -1 <= r < |s|
    ensures r == -1 <==> c !in s
    ensures r >= 0 ==> s[r] == c && c !in s[r + 1..]
  {
    if s == [] then -1
    else if s[|s| - 1] == c then |s| - 1
    else
      assert s == s[..|s| - 1] + [s[|s| - 1]];
      LastIndexOf(s[..|s| - 1], c)
  }

  /** `s.indexOf(p)` for a string `p`: the first position where `p` occurs, or -1. */
  function IndexOfSub(s: String, p: String): (r: int)
    ensures -1 <= r <= |s|
    ensures r >= 0 ==> OccursAt(s, p, r)
    ensures r >= 0 ==> forall k :: 0 <= k < r ==> !OccursAt(s, p, k)
    ensures r == -1 ==> forall k :: 0 <= k <= |s| ==> !OccursAt(s, p, k)
  {
    IndexOfSubFrom(s, p, 0)
  }

  /** The first position at or after `from` where `p` occurs, or -1. */
  function IndexOfSubFrom(s: String, p: String, from: nat): (r: int)
    decreases |s| - from
    ensures r == -1 || from <= r <= |s|
    ensures r >= 0 ==> OccursAt(s, p, r)
    ensures r >= 0 ==> forall k :: from <= k < r ==> !OccursAt(s, p, k)
    ensures r == -1 ==> forall k :: from <= k <= |s| ==> !OccursAt(s, p, k)
  {
    if from + |p| > |s| then -1
    else if s[from..from + |p|] == p then from
    else IndexOfSubFrom(s, p, from + 1)
  }

  /** `s.includes(p)`; note that every string includes the empty string. */
  predicate Contains(s: String, p: String) {
    IndexOfSub(s, p) >= 0
  }

  /** `s.replace(p, '')` with a string pattern: only the first occurrence of `p` is removed. */
  function RemoveFirst(s: String, p: String): (r: String)
    ensures IndexOfSub(s, p) == -1 ==> r == s
    ensures IndexOfSub(s, p) >= 0 ==> |r| == |s| - |p|
    ensures var k := IndexOfSub(s, p);
      k >= 0 ==> r[..k] == s[..k] && r[k..] == s[k + |p|..] && r[..k] + p + r[k..] == s
  {
    var k := IndexOfSub(s, p);
    if k == -1 then s else s[..k] + s[k + |p|..]
  }

  /** `s.replace(/<p>$/, '')`: `p` is removed only where it ends the string. */
  function StripSuffix(s: String, p: String): (r: String)
    ensures EndsWith(s, p) ==> r + p == s
    ensures !EndsWith(s, p) ==> r == s
  {
    if EndsWith(s, p) then s[..|s| - |p|] else s
  }

  /** `s.split(sep)[0]`: the text before the first occurrence of a non-empty separator. */
  function FirstPiece(s: String, sep: String): (r: String)
    requires sep != []
    ensures StartsWith(s, r)
    ensures forall k :: 0 <= k <= |r| ==> !OccursAt(r, sep, k)
    ensures IndexOfSub(s, sep) == -1 ==> r == s
    ensures (forall k :: 0 <= k <= |s| ==> !OccursAt(s, sep, k)) ==> r == s
    ensures forall k :: 0 <= k < |r| ==> !OccursAt(s, sep, k)
    ensures |r| < |s| ==> OccursAt(s, sep, |r|)
  {
    var k := IndexOfSub(s, sep);
    if k == -1 then s
    else
      var r := s[..k];
      assert forall j :: 0 <= j <= |r| && OccursAt(r, sep, j) ==> OccursAt(s, sep, j) by {
        forall j | 0 <= j <= |r| && OccursAt(r, sep, j) ensures OccursAt(s, sep, j) {
          assert s[j..j + |sep|] == r[j..j + |sep|];
        }
      }
      r
  }

  /** `s.split('/').pop()`: the text after the last '/'. */
  function LastSegment(s: String): (r: String)
    ensures '/' !in r
    ensures EndsWith(s, r)
    ensures '/' !in s ==> r == s
    ensures |r| < |s| ==> s[|s| - |r| - 1] == '/'
  {
    s[LastIndexOf(s, '/') + 1..]
  }

  /** `s.replace(/[<from>]/g, to)`: every character in `from` becomes `to`. */
  function ReplaceChars(s: String, from: set<char>, to: char): (r: String)
    ensures |r| == |s|
    ensures forall i :: 0 <= i < |s| ==> r[i] == if s[i] in from then to else s[i]
  {
    if s == [] then [] else [if s[0] in from then to else s[0]] + ReplaceChars(s[1..], from, to)
  }

  function LowerChar(c: char): char {
    if 'A' <= c <= 'Z' then (c as int + 32) as char else c
  }

  /** `s.toLowerCase()`, for the ASCII letters. */
  function ToLower(s: String): (r: String)
    ensures |r| == |s|
    ensures forall i :: 0 <= i < |s| ==> r[i] == LowerChar(s[i])
  {
    if s == [] then [] else [LowerChar(s[0])] + ToLower(s[1..])
  }

  /** `parts.join(sep)` */
  function Join(parts: seq<String>, sep: String): String {
    if parts == [] then []
    else if |parts| == 1 then parts[0]
    else Join(parts[..|parts| - 1], sep) + sep + parts[|parts| - 1]
  }

  /** A decimal rendering of a natural number, as `String(n)` gives it. */
  function NatToString(n: nat): (r: String)
    ensures |r| >= 1
    ensures forall i :: 0 <= i < |r| ==> IsDigit(r[i])
    ensures n >= 10 ==> r[0] != '0'
  {
    if n < 10 then [('0' as int + n) as char]
    else NatToString(n / 10) + [('0' as int + n % 10) as char]
  }
}

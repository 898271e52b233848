/**
 * The regular expressions of the article pipeline, each written out as a scanner.
 *
 * A pattern is recognised at the start of the remaining input (`MatchAt`), and the
 * global `String.prototype.replace` is the left-to-right loop `ReplaceAll` that
 * tries the pattern at each position and resumes after a match. Lazy `.*?` is
 * extended one character at a time and never crosses a line terminator; greedy
 * runs take as much as they can, and where a later step fails the scanners also
 * try the shorter choices a backtracking engine would try. A multiline `^` holds at
 * the start of the input and after a line terminator.
 */
module Patterns {
  import opened Results
  import opened Text

  /** A match at the start of the remaining input: how much it covers and its replacement. */
  datatype Match = Match(len: nat, rep: String)

  /** An image or link `[alt](target)` recognised at the start of the input, covering `len` characters. */
  datatype Ref = Ref(alt: String, target: String, len: nat)

  /** The regular expressions the core uses, one constructor each. */
  datatype Pattern =
    | Images          // !\[.*?\]\(.*?\)  removed
    | Links           // \[(.*?)\]\(.*?\)  replaced by the bracket text
    | PlainLinks      // \[([^\]]+)\]\([^)]+\)  replaced by the bracket text
    | Headers         // #{1,6}\s+  removed
    | Bold            // \*\*(.*?)\*\*  replaced by the inner text
    | Italic          // \*(.*?)\*  replaced by the inner text
    | Code            // `(.*?)`  replaced by the inner text
    | PlainCode       // `([^`]+)`  replaced by the inner text
    | Rules           // ---+  removed
    | Newlines        // \n+  replaced by one space
    | ListMarkers     // ^\s*[-*+]\s+ (multiline)  removed
    | NumberMarkers   // ^\s*\d+\.\s+ (multiline)  removed
    | BlankLines      // \n\s*\n  replaced by one space
    | Spaces          // \s+  replaced by one space
    | FrontMatter     // ^---[\s\S]*?--- (multiline)  removed
    | LocalImages(resolve: String -> Option<String>)
                      // !\[(.*?)\]\(\.\/images\/(.*?)\) rewritten to the resolved URL, kept when unresolved

  /** The patterns whose `^` depends on the character before the match. */
  predicate Anchored(p: Pattern) {
    p.ListMarkers? || p.NumberMarkers? || p.FrontMatter?
  }

  /** The span t[a..b] holds no line terminator, so a lazy `.*?` may cover it. */
  predicate OnOneLine(t: String, a: nat, b: nat)
    requires a <= b <= |t|
  {
    forall m :: a <= m < b ==> !IsLineTerminator(t[m])
  }

  /** How many characters from `from` on satisfy `IsSpace` (a greedy `\s*`). */
  function SpaceRun(t: String, from: nat): (n: nat)
    requires from <= |t|
    decreases |t| - from
    ensures from + n <= |t|
    ensures forall m :: from <= m < from + n ==> IsSpace(t[m])
    ensures from + n == |t| || !IsSpace(t[from + n])
  {
    if from < |t| && IsSpace(t[from]) then 1 + SpaceRun(t, from + 1) else 0
  }

  /** How many copies of `c` follow from `from` on. */
  function CharRun(t: String, from: nat, c: char): (n: nat)
    requires from <= |t|
    decreases |t| - from
    ensures from + n <= |t|
    ensures forall m :: from <= m < from + n ==> t[m] == c
    ensures from + n == |t| || t[from + n] != c
  {
    if from < |t| && t[from] == c then 1 + CharRun(t, from + 1, c) else 0
  }

  /** How many decimal digits follow from `from` on (a greedy `\d+`). */
  function DigitRun(t: String, from: nat): (n: nat)
    requires from <= |t|
    decreases |t| - from
    ensures from + n <= |t|
    ensures forall m :: from <= m < from + n ==> IsDigit(t[m])
    ensures from + n == |t| || !IsDigit(t[from + n])
  {
    if from < |t| && IsDigit(t[from]) then 1 + DigitRun(t, from + 1) else 0
  }

  /** Adjacent slices of one sequence join into one slice. */
  lemma Slices(t: String, a: nat, b: nat, c: nat)
    requires a <= b <= c <= |t|
    ensures t[a..b] + t[b..c] == t[a..c]
  {
  }

  /** `.*?<lit>` from `from`: the first place `lit` occurs with no line terminator before it. */
  function FindLazy(t: String, from: nat, lit: String): (r: Option<nat>)
    requires from <= |t|
    decreases |t| - from
    ensures r.Some? ==> from <= r.value && OccursAt(t, lit, r.value) && OnOneLine(t, from, r.value)
    ensures r.Some? ==> forall k :: from <= k < r.value ==> !OccursAt(t, lit, k)
    ensures r.None? ==> forall k :: from <= k <= |t| && OccursAt(t, lit, k) ==> !OnOneLine(t, from, k)
  {
    if OccursAt(t, lit, from) then Some(from)
    else if from == |t| || IsLineTerminator(t[from]) then None
    else FindLazy(t, from + 1, lit)
  }

  /**
   * `(.*?)<mid>(.*?)\)` once an opener ending at `altStart` has matched: the bracket
   * text grows lazily from `j` on until `mid` follows it and a ')' closes the target
   * on the same line; when that ')' is missing the engine backtracks into a longer
   * bracket text.
   */
  function LazyRef(t: String, altStart: nat, j: nat, mid: String): (r: Option<Ref>)
    requires altStart <= j <= |t|
    requires OnOneLine(t, altStart, j)
    requires mid != []
    decreases |t| - j
    ensures r.Some? ==> altStart < r.value.len <= |t|
    ensures r.Some? ==> t[..r.value.len] == t[..altStart] + r.value.alt + mid + r.value.target + ")"
    ensures r.Some? ==> forall m :: 0 <= m < |r.value.alt| ==> !IsLineTerminator(r.value.alt[m])
    ensures r.Some? ==> forall m :: 0 <= m < |r.value.target| ==> !IsLineTerminator(r.value.target[m]) && r.value.target[m] != ')'
  {
    var close := if OccursAt(t, mid, j) then FindLazy(t, j + |mid|, ")") else None;
    if close.Some? then
      var k := close.value;
      RefParts(t, altStart, j, mid, k, t[altStart..j], t[j + |mid|..k]);
      Some(Ref(t[altStart..j], t[j + |mid|..k], k + 1))
    else if j == |t| || IsLineTerminator(t[j]) then None
    else
      LazyRef(t, altStart, j + 1, mid)
  }

  /** The pieces of a reference whose `mid` starts at `j` and whose ')' is at `k`. */
  lemma RefParts(t: String, altStart: nat, j: nat, mid: String, k: nat, alt: String, target: String)
    requires altStart <= j <= |t| && OnOneLine(t, altStart, j)
    requires OccursAt(t, mid, j) && j + |mid| <= k < |t|
    requires OccursAt(t, ")", k) && OnOneLine(t, j + |mid|, k)
    requires forall m :: j + |mid| <= m < k ==> !OccursAt(t, ")", m)
    requires alt == t[altStart..j] && target == t[j + |mid|..k]
    ensures t[..k + 1] == t[..altStart] + alt + mid + target + ")"
    ensures forall m :: 0 <= m < |alt| ==> !IsLineTerminator(alt[m])
    ensures forall m :: 0 <= m < |target| ==> !IsLineTerminator(target[m]) && target[m] != ')'
  {
    RefConcat(t, altStart, j, mid, k);
    forall m | 0 <= m < |target|
      ensures !IsLineTerminator(target[m]) && target[m] != ')'
    {
      assert target[m] == t[j + |mid| + m];
      assert !OccursAt(t, ")", j + |mid| + m);
    }
    forall m | 0 <= m < |alt| ensures !IsLineTerminator(alt[m]) {
      assert alt[m] == t[altStart + m];
    }
  }

  /** The text up to the closing ')' is what precedes the bracket text, the bracket text, `mid`, the target and ')'. */
  lemma RefConcat(t: String, altStart: nat, j: nat, mid: String, k: nat)
    requires altStart <= j && OccursAt(t, mid, j) && j + |mid| <= k < |t| && OccursAt(t, ")", k)
    ensures t[..k + 1] == t[..altStart] + t[altStart..j] + mid + t[j + |mid|..k] + ")"
  {
    Slices(t, 0, altStart, j);
    Slices(t, 0, j, j + |mid|);
    Slices(t, 0, j + |mid|, k);
    Slices(t, 0, k, k + 1);
  }

  /** `!\[(.*?)\]<mid'>(.*?)\)` at the start of `t`, where `mid` is `](` followed by any fixed text. */
  function ImageAt(t: String, mid: String): (r: Option<Ref>)
    requires StartsWith(mid, "](")
    ensures r.Some? ==> 2 < r.value.len <= |t|
    ensures r.Some? ==> t[..r.value.len] == "![" + r.value.alt + mid + r.value.target + ")"
    ensures r.Some? ==> forall m :: 0 <= m < |r.value.target| ==> !IsLineTerminator(r.value.target[m]) && r.value.target[m] != ')'
    ensures !StartsWith(t, "![") ==> r.None?
  {
    if StartsWith(t, "![") then LazyRef(t, 2, 2, mid) else None
  }

  /** `\[([^\]]+)\]\([^)]+\)`: the negated classes also cover line terminators and cannot backtrack into a match. */
  function PlainLinkAt(t: String): (r: Option<Match>)
    ensures r.Some? ==> 0 < r.value.len <= |t|
  {
    if |t| == 0 || t[0] != '[' then None
    else
      var j := IndexOf(t[1..], ']') + 1;
      if j <= 1 || j + 1 >= |t| || t[j + 1] != '(' then None
      else
        var k := IndexOf(t[j + 2..], ')') + j + 2;
        if k <= j + 2 then None
        else Some(Match(k + 1, t[1..j]))
  }

  /** `<c>(.*?)<c>`: the text up to the next `c` on the same line. */
  function EnclosedAt(t: String, c: char): (r: Option<Match>)
    ensures r.Some? ==> 0 < r.value.len <= |t|
  {
    if |t| == 0 || t[0] != c then None
    else
      var e := FindLazy(t, 1, [c]);
      if e.Some? then Some(Match(e.value + 1, t[1..e.value])) else None
  }

  /** The leftmost match of `p` at the start of `t`; `lineStart` says whether a multiline `^` holds there. */
  function MatchAt(p: Pattern, t: String, lineStart: bool): (r: Option<Match>)
    ensures r.Some? ==> 0 < r.value.len <= |t|
  {
    match p
    case Images =>
      var ref := ImageAt(t, "](");
      if ref.Some? then Some(Match(ref.value.len, [])) else None
    case Links =>
      if |t| == 0 || t[0] != '[' then None
      else
        var ref := LazyRef(t, 1, 1, "](");
        if ref.Some? then Some(Match(ref.value.len, ref.value.alt)) else None
    case PlainLinks =>
      PlainLinkAt(t)
    case Headers =>
      var run := CharRun(t, 0, '#');
      var h := if run < 6 then run else 6;
      if 1 <= h < |t| && IsSpace(t[h]) then Some(Match(h + SpaceRun(t, h), [])) else None
    case Bold =>
      if !StartsWith(t, "**") then None
      else
        var e := FindLazy(t, 2, "**");
        if e.Some? then Some(Match(e.value + 2, t[2..e.value])) else None
    case Italic =>
      EnclosedAt(t, '*')
    case Code =>
      EnclosedAt(t, '`')
    case PlainCode =>
      if |t| == 0 || t[0] != '`' then None
      else
        var k := IndexOf(t[1..], '`') + 1;
        if k <= 1 then None else Some(Match(k + 1, t[1..k]))
    case Rules =>
      var n := CharRun(t, 0, '-');
      if n >= 3 then Some(Match(n, [])) else None
    case Newlines =>
      var n := CharRun(t, 0, '\n');
      if n >= 1 then Some(Match(n, " ")) else None
    case ListMarkers =>
      var w := SpaceRun(t, 0);
      if lineStart && w + 1 < |t| && t[w] in {'-', '*', '+'} && IsSpace(t[w + 1])
      then Some(Match(w + 1 + SpaceRun(t, w + 1), []))
      else None
    case NumberMarkers =>
      var w := SpaceRun(t, 0);
      var d := DigitRun(t, w);
      if lineStart && d >= 1 && w + d + 1 < |t| && t[w + d] == '.' && IsSpace(t[w + d + 1])
      then Some(Match(w + d + 1 + SpaceRun(t, w + d + 1), []))
      else None
    case BlankLines =>
      if |t| == 0 || t[0] != '\n' then None
      else
        var l := LastIndexOf(t[1..1 + SpaceRun(t, 1)], '\n');
        if l >= 0 then Some(Match(l + 2, " ")) else None
    case Spaces =>
      var n := SpaceRun(t, 0);
      if n >= 1 then Some(Match(n, " ")) else None
    case FrontMatter =>
      if !lineStart || !StartsWith(t, "---") then None
      else
        var k := IndexOfSubFrom(t, "---", 3);
        if k >= 0 then Some(Match(k + 3, [])) else None
    case LocalImages(resolve) =>
      var ref := ImageAt(t, "](./images/");
      if ref.None? then None
      else match resolve(ref.value.target)
        case Some(url) => Some(Match(ref.value.len, "![" + ref.value.alt + "](" + url + ")"))
        case None => Some(Match(ref.value.len, t[..ref.value.len]))
  }

  /** `s.replace(/p/g, …)` on the rest of the input; `lineStart` says whether a multiline `^` holds at its start. */
  function ReplaceAll(p: Pattern, s: String, lineStart: bool): String
    decreases |s|
  {
    if s == [] then []
    else match MatchAt(p, s, lineStart)
      case Some(m) => m.rep + ReplaceAll(p, s[m.len..], IsLineTerminator(s[m.len - 1]))
      case None => [s[0]] + ReplaceAll(p, s[1..], IsLineTerminator(s[0]))
  }

  /** `s.replace(/p/g, …)` */
  function Replace(p: Pattern, s: String): String {
    ReplaceAll(p, s, true)
  }

  /** `s.replace(/p/, …)` without the global flag: only the leftmost match is replaced. */
  function ReplaceFirst(p: Pattern, s: String, lineStart: bool): String
    decreases |s|
  {
    if s == [] then []
    else match MatchAt(p, s, lineStart)
      case Some(m) => m.rep + s[m.len..]
      case None => [s[0]] + ReplaceFirst(p, s[1..], IsLineTerminator(s[0]))
  }

  /** `s.replace(/^---[\s\S]*?---/m, '')`: the first front-matter block is dropped. */
  function RemoveFrontMatter(s: String): String {
    ReplaceFirst(FrontMatter, s, true)
  }

  /** Applies the global replacements in order, as a chain of `.replace` calls does. */
  function ReplaceEach(ps: seq<Pattern>, s: String): String
    decreases |ps|
  {
    if ps == [] then s else ReplaceEach(ps[1..], Replace(ps[0], s))
  }

  /** `s.match(/!\[.*?\]<mid'>(.*?)\)/)`: the leftmost image reference at or after `from`. */
  function FirstImageFrom(s: String, mid: String, from: nat): (r: Option<Ref>)
    requires StartsWith(mid, "](")
    requires from <= |s|
    decreases |s| - from
  {
    if from == |s| then None
    else if ImageAt(s[from..], mid).Some? then ImageAt(s[from..], mid)
    else FirstImageFrom(s, mid, from + 1)
  }

  /** The leftmost image is found at `i`, with no image at any position before it; none found means no position has one. */
  lemma {:induction false} FirstImageFound(s: String, mid: String, from: nat) returns (i: nat)
    requires StartsWith(mid, "](") && from <= |s|
    decreases |s| - from
    ensures FirstImageFrom(s, mid, from).Some? ==>
      from <= i < |s| && ImageAt(s[i..], mid) == FirstImageFrom(s, mid, from)
    ensures FirstImageFrom(s, mid, from).Some? ==> forall k :: from <= k < i ==> ImageAt(s[k..], mid).None?
    ensures FirstImageFrom(s, mid, from).None? ==> forall k :: from <= k < |s| ==> ImageAt(s[k..], mid).None?
  {
    i := from;
    if from < |s| {
      if ImageAt(s[from..], mid).Some? {
        FirstImageHit(s, mid, from);
      } else {
        FirstImageMiss(s, mid, from);
        i := FirstImageFound(s, mid, from + 1);
        if FirstImageFrom(s, mid, from).Some? {
          NoneFrom(s, mid, from, i);
        } else {
          NoneFrom(s, mid, from, |s|);
        }
      }
    }
  }

  /** No image at `from` and none from `from + 1` up to `to` is none from `from` up to `to`. */
  lemma NoneFrom(s: String, mid: String, from: nat, to: nat)
    requires StartsWith(mid, "](") && from < |s| && from <= to <= |s|
    requires ImageAt(s[from..], mid).None?
    requires forall k :: from + 1 <= k < to ==> ImageAt(s[k..], mid).None?
    ensures forall k :: from <= k < to ==> ImageAt(s[k..], mid).None?
  {
  }

  function FirstImage(s: String, mid: String): (r: Option<Ref>)
    requires StartsWith(mid, "](")
  {
    FirstImageFrom(s, mid, 0)
  }

  predicate IsStop(c: char) {
    c == '.' || c == '!' || c == '?'
  }

  /** The first sentence-ending character, or -1. */
  function FirstStop(s: String): (k: int)
    ensures -1 <= k < |s|
    ensures k >= 0 ==> IsStop(s[k])
    ensures forall m :: 0 <= m < |s| && (k == -1 || m < k) ==> !IsStop(s[m])
  {
    if s == [] then -1
    else if IsStop(s[0]) then 0
    else
      var k := FirstStop(s[1..]);
      if k == -1 then -1 else k + 1
  }

  function StopRun(s: String, from: nat): (n: nat)
    requires from <= |s|
    decreases |s| - from
    ensures from + n <= |s|
    ensures forall m :: from <= m < from + n ==> IsStop(s[m])
    ensures from + n == |s| || !IsStop(s[from + n])
  {
    if from < |s| && IsStop(s[from]) then 1 + StopRun(s, from + 1) else 0
  }

  /** `s.split(/[.!?]+/)`: the pieces between runs of sentence-ending characters. */
  function SplitSentences(s: String): (r: seq<String>)
    decreases |s|
    ensures |r| >= 1
    ensures forall i, m :: 0 <= i < |r| && 0 <= m < |r[i]| ==> !IsStop(r[i][m])
  {
    var k := FirstStop(s);
    if k == -1 then [s]
    else
      var rest := SplitSentences(s[k + StopRun(s, k)..]);
      assert forall m :: 0 <= m < k ==> s[..k][m] == s[m];
      [s[..k]] + rest
  }

  /** The pieces one after another, with nothing between them. */
  function Concat(ss: seq<String>): String {
    if ss == [] then [] else ss[0] + Concat(ss[1..])
  }

  /** The text with every sentence-ending character removed. */
  function WithoutStops(s: String): String {
    if s == [] then [] else (if IsStop(s[0]) then [] else [s[0]]) + WithoutStops(s[1..])
  }

  /** The number of maximal runs of sentence-ending characters in `s`, when the character before `s` is a stop exactly if `afterStop`. */
  function StopRunsAfter(s: String, afterStop: bool): nat {
    if s == [] then 0
    else (if IsStop(s[0]) && !afterStop then 1 else 0) + StopRunsAfter(s[1..], IsStop(s[0]))
  }

  function StopRuns(s: String): nat {
    StopRunsAfter(s, false)
  }

  /**
   * What `split(/[.!?]+/)` gives, stated without the search: the pieces put
   * back together are the text without its stop characters, and there is one
   * piece more than there are runs of stops.
   */
  lemma {:induction false} SplitSentencesContents(s: String)
    decreases |s|
    ensures Concat(SplitSentences(s)) == WithoutStops(s)
    ensures |SplitSentences(s)| == 1 + StopRuns(s)
  {
    var k := FirstStop(s);
    if k == -1 {
      PlainPrefix(s, |s|);
      assert s[..|s|] == s && s[|s|..] == [];
      assert Concat([s]) == s + Concat([]);
    } else {
      var n := StopRun(s, k);
      var rest := SplitSentences(s[k + n..]);
      SplitSentencesContents(s[k + n..]);
      assert SplitSentences(s) == [s[..k]] + rest;
      assert ([s[..k]] + rest)[1..] == rest;
      PlainPrefix(s, k);
      StopPrefix(s[k..], n);
      assert s[k..][n..] == s[k + n..];
    }
  }

  /** A prefix without stops is kept whole and adds no run. */
  lemma {:induction false} PlainPrefix(s: String, k: nat)
    requires k <= |s|
    requires forall m :: 0 <= m < k ==> !IsStop(s[m])
    ensures WithoutStops(s) == s[..k] + WithoutStops(s[k..])
    ensures StopRuns(s) == StopRuns(s[k..])
  {
    if k > 0 {
      PlainPrefix(s[1..], k - 1);
      assert s[1..][k - 1..] == s[k..];
      assert s[..k] == [s[0]] + s[1..][..k - 1];
    } else {
      assert s[..0] == [] && s[0..] == s;
    }
  }

  /** A maximal run of `n` stops at the front is dropped and counts as one run. */
  lemma StopPrefix(s: String, n: nat)
    requires 0 < n <= |s|
    requires forall m :: 0 <= m < n ==> IsStop(s[m])
    requires n == |s| || !IsStop(s[n])
    ensures WithoutStops(s) == WithoutStops(s[n..])
    ensures StopRuns(s) == 1 + StopRuns(s[n..])
  {
    StopsDropped(s[1..], n - 1);
    assert s[1..][n - 1..] == s[n..];
    assert StopRunsAfter(s[n..], true) == StopRunsAfter(s[n..], false);
  }

  /** Stops at the front, after a stop, add nothing. */
  lemma {:induction false} StopsDropped(s: String, n: nat)
    requires n <= |s|
    requires forall m :: 0 <= m < n ==> IsStop(s[m])
    ensures WithoutStops(s) == WithoutStops(s[n..])
    ensures StopRunsAfter(s, true) == StopRunsAfter(s[n..], true)
  {
    if n > 0 {
      StopsDropped(s[1..], n - 1);
      assert s[1..][n - 1..] == s[n..];
    } else {
      assert s[0..] == s;
    }
  }

  /** For the patterns without `^`, the line-start flag makes no difference. */
  lemma {:induction false} FlagIgnored(p: Pattern, s: String, f: bool, g: bool)
    requires !Anchored(p)
    decreases |s|
    ensures ReplaceAll(p, s, f) == ReplaceAll(p, s, g)
  {
    if s != [] {
      MatchFlagIgnored(p, s, f);
      MatchFlagIgnored(p, s, g);
      match MatchAt(p, s, f)
      case Some(m) =>
        StepMatched(p, s, f);
        StepMatched(p, s, g);
      case None =>
        StepUnmatched(p, s, f);
        StepUnmatched(p, s, g);
    }
  }

  /**
   * Text in which no match of `p` begins passes through a global replace unchanged,
   * and the replace goes on with what follows it as if that were the whole input.
   */
  lemma {:induction false} SkipUnmatched(p: Pattern, a: String, b: String, f: bool)
    requires !Anchored(p)
    requires forall i :: 0 <= i < |a| ==> MatchAt(p, (a + b)[i..], false).None?
    decreases |a|
    ensures ReplaceAll(p, a + b, f) == a + Replace(p, b)
  {
    if a == [] {
      assert a + b == b;
      FlagIgnored(p, b, f, true);
    } else {
      NoMatchInTail(p, a, b);
      SkipFirst(p, a, b, f);
      SkipUnmatched(p, a[1..], b, IsLineTerminator(a[0]));
      PrependFirst(a, Replace(p, b));
    }
  }

  /** The first character put back in front of the rest. */
  lemma PrependFirst(a: String, x: String)
    requires a != []
    ensures [a[0]] + (a[1..] + x) == a + x
  {
    assert [a[0]] + a[1..] == a;
  }

  lemma SkipFirst(p: Pattern, a: String, b: String, f: bool)
    requires !Anchored(p)
    requires a != []
    requires MatchAt(p, a + b, false).None?
    ensures ReplaceAll(p, a + b, f) == [a[0]] + ReplaceAll(p, a[1..] + b, IsLineTerminator(a[0]))
  {
    var s := a + b;
    MatchFlagIgnored(p, s, f);
    StepUnmatched(p, s, f);
    assert s[1..] == a[1..] + b;
  }

  lemma NoMatchInTail(p: Pattern, a: String, b: String)
    requires a != []
    requires forall i :: 0 <= i < |a| ==> MatchAt(p, (a + b)[i..], false).None?
    ensures MatchAt(p, a + b, false).None?
    ensures forall i :: 0 <= i < |a[1..]| ==> MatchAt(p, (a[1..] + b)[i..], false).None?
  {
    assert (a + b)[0..] == a + b;
    forall i | 0 <= i < |a[1..]| ensures MatchAt(p, (a[1..] + b)[i..], false).None? {
      assert (a[1..] + b)[i..] == (a + b)[i + 1..];
    }
  }

  /** Where no match begins, the global replace copies one character and moves on. */
  lemma StepUnmatched(p: Pattern, s: String, f: bool)
    requires s != []
    requires MatchAt(p, s, f).None?
    ensures ReplaceAll(p, s, f) == [s[0]] + ReplaceAll(p, s[1..], IsLineTerminator(s[0]))
  {
  }

  lemma MatchFlagIgnored(p: Pattern, t: String, f: bool)
    requires !Anchored(p)
    ensures MatchAt(p, t, f) == MatchAt(p, t, false)
  {
  }

  /** A text in which no match begins is left as it is. */
  lemma NoMatchUnchanged(p: Pattern, s: String)
    requires !Anchored(p)
    requires forall i :: 0 <= i < |s| ==> MatchAt(p, s[i..], false).None?
    ensures Replace(p, s) == s
  {
    assert s + [] == s;
    SkipUnmatched(p, s, [], true);
  }

  /** The lazy `.*?)` closes at `e` when every character before it is an ordinary one. */
  lemma {:induction false} FindCloseAt(t: String, from: nat, e: nat)
    requires from <= e < |t| && t[e] == ')'
    requires forall m :: from <= m < e ==> t[m] != ')' && !IsLineTerminator(t[m])
    decreases e - from
    ensures FindLazy(t, from, ")") == Some(e)
  {
    assert t[e..e + 1] == [t[e]];
    if from < e {
      assert t[from..from + 1] == [t[from]];
      FindCloseAt(t, from + 1, e);
    }
  }

  /** The lazy bracket text grows past positions where `mid` does not start. */
  lemma {:induction false} LazyRefSkips(t: String, a: nat, j: nat, e: nat, mid: String)
    requires a <= j <= e <= |t| && mid != []
    requires OnOneLine(t, a, j)
    requires forall m :: j <= m < e ==> !OccursAt(t, mid, m) && !IsLineTerminator(t[m])
    decreases e - j
    ensures OnOneLine(t, a, e)
    ensures LazyRef(t, a, j, mid) == LazyRef(t, a, e, mid)
  {
    if j < e {
      LazyRefSkips(t, a, j + 1, e, mid);
    }
  }

  /** The parts of `[alt](target)` that a lazy scan reads in one go. */
  predicate PlainRef(alt: String, target: String) {
    && (forall m :: 0 <= m < |alt| ==> !IsLineTerminator(alt[m]))
    && (forall k :: 0 <= k <= |alt| ==> !OccursAt(alt, "](", k))
    && (forall m :: 0 <= m < |target| ==> !IsLineTerminator(target[m]) && target[m] != ')')
  }

  /** After an opener, `alt<mid>target)` is recognised whole, with its own bracket text and target. */
  lemma RefWhole(t: String, opener: String, alt: String, mid: String, target: String, rest: String)
    requires StartsWith(mid, "](")
    requires t == opener + alt + mid + target + ")" + rest
    requires PlainRef(alt, target)
    ensures LazyRef(t, |opener|, |opener|, mid) == Some(Ref(alt, target, |opener| + |alt| + |mid| + |target| + 1))
  {
    var a := |opener|;
    var j := a + |alt|;
    var e := j + |mid| + |target|;
    RefSlices(t, opener, alt, mid, target, rest, a, j, e);
    RefAt(t, a, j, e, mid, alt, target);
  }

  lemma RefSlices(t: String, opener: String, alt: String, mid: String, target: String, rest: String, a: nat, j: nat, e: nat)
    requires t == opener + alt + mid + target + ")" + rest
    requires a == |opener| && j == a + |alt| && e == j + |mid| + |target|
    ensures e < |t| && t[a..j] == alt && t[j..j + |mid|] == mid && t[j + |mid|..e] == target && t[e] == ')'
  {
    assert t[a..j] == alt;
    assert t[j..j + |mid|] == mid;
    assert t[j + |mid|..e] == target;
    assert t[e] == ')';
  }

  /** The bracket text ends at the first `mid` and the target at the first ')' after it. */
  lemma RefAt(t: String, a: nat, j: nat, e: nat, mid: String, alt: String, target: String)
    requires StartsWith(mid, "](")
    requires a <= j && j + |mid| <= e < |t|
    requires t[j..j + |mid|] == mid && t[e] == ')'
    requires t[a..j] == alt && t[j + |mid|..e] == target
    requires PlainRef(alt, target)
    ensures LazyRef(t, a, a, mid) == Some(Ref(alt, target, e + 1))
  {
    RefAtScan(t, a, j, e, mid, alt, target);
    LazyRefHitAt(t, a, j, mid, e);
  }

  /** The scan passes over the alt text to `j`, where `mid` begins and the ')' at `e` is the first to close it. */
  lemma RefAtScan(t: String, a: nat, j: nat, e: nat, mid: String, alt: String, target: String)
    requires StartsWith(mid, "](")
    requires a <= j && j + |mid| <= e < |t|
    requires t[j..j + |mid|] == mid && t[e] == ')'
    requires t[a..j] == alt && t[j + |mid|..e] == target
    requires PlainRef(alt, target)
    ensures OnOneLine(t, a, j) && LazyRef(t, a, a, mid) == LazyRef(t, a, j, mid)
    ensures OccursAt(t, mid, j) && FindLazy(t, j + |mid|, ")") == Some(e)
  {
    AltSkipped(t, a, j, mid);
    TargetCloses(t, j + |mid|, e);
  }

  /** The lazy bracket text grows over a plain alt text to the `mid` that follows it. */
  lemma AltSkipped(t: String, a: nat, j: nat, mid: String)
    requires StartsWith(mid, "](")
    requires a <= j && j + |mid| <= |t|
    requires t[j..j + |mid|] == mid
    requires forall k :: 0 <= k <= j - a ==> !OccursAt(t[a..j], "](", k)
    requires forall m :: 0 <= m < j - a ==> !IsLineTerminator(t[a..j][m])
    ensures OnOneLine(t, a, j)
    ensures LazyRef(t, a, a, mid) == LazyRef(t, a, j, mid)
  {
    assert t[j] == t[j..j + |mid|][0] == mid[0] == ']';
    forall m | a <= m < j ensures !OccursAt(t, mid, m) && !IsLineTerminator(t[m]) {
      NoMidInAlt(t, a, j, m, mid);
    }
    LazyRefSkips(t, a, a, j, mid);
  }

  /** A target without ')' or line breaks is closed by the ')' right after it. */
  lemma TargetCloses(t: String, b: nat, e: nat)
    requires b <= e < |t| && t[e] == ')'
    requires forall m :: 0 <= m < e - b ==> !IsLineTerminator(t[b..e][m]) && t[b..e][m] != ')'
    ensures FindLazy(t, b, ")") == Some(e)
  {
    forall m | b <= m < e ensures t[m] != ')' && !IsLineTerminator(t[m]) {
      assert t[m] == t[b..e][m - b];
    }
    FindCloseAt(t, b, e);
  }

  /** No `mid` begins inside a bracket text that holds no "](" and is followed by "](". */
  lemma NoMidInAlt(t: String, a: nat, j: nat, m: nat, mid: String)
    requires StartsWith(mid, "](")
    requires a <= m < j && j + 2 <= |t| && t[j] == ']'
    requires forall k :: 0 <= k <= j - a ==> !OccursAt(t[a..j], "](", k)
    requires !IsLineTerminator(t[a..j][m - a])
    ensures !OccursAt(t, mid, m) && !IsLineTerminator(t[m])
  {
    var alt := t[a..j];
    assert t[m] == alt[m - a];
    assert mid[..2] == "](";
    if m + 2 <= j {
      assert alt[m - a + 1] == t[m + 1];
      assert t[m..m + 2] == alt[m - a..m - a + 2];
      assert !OccursAt(alt, "](", m - a);
      assert m + |mid| <= |t| ==> t[m..m + |mid|][..2] == t[m..m + 2];
    } else {
      assert m + 1 == j;
      assert m + |mid| <= |t| ==> t[m..m + |mid|][1] == t[m + 1];
    }
  }

  /** An image written `![alt](target)` at the front is removed whole by the image pass. */
  lemma ImageRemovedWhole(alt: String, target: String, rest: String)
    requires PlainRef(alt, target)
    ensures Replace(Images, "![" + alt + "](" + target + ")" + rest) == Replace(Images, rest)
  {
    var img := "![" + alt + "](" + target + ")";
    var t := img + rest;
    RefWhole(t, "![", alt, "](", target, rest);
    assert StartsWith(t, "![");
    assert MatchAt(Images, t, true) == Some(Match(|img|, []));
    assert t[|img|..] == rest;
    FlagIgnored(Images, rest, false, true);
  }

  /** The link pass, run on the same image, keeps a '!' and the alt text. */
  lemma LinkPassKeepsAlt(alt: String, target: String)
    requires PlainRef(alt, target)
    ensures Replace(Links, "![" + alt + "](" + target + ")") == "!" + alt
  {
    var t := "![" + alt + "](" + target + ")";
    var u := "[" + alt + "](" + target + ")";
    assert t == "!" + u && t[0] == '!';
    NoLinkAtBang(t);
    StepUnmatched(Links, t, true);
    assert t[1..] == u;
    LinkWhole(u, alt, target);
    StepMatched(Links, u, false);
    assert u[|u|..] == [];
  }

  lemma NoLinkAtBang(t: String)
    requires t != [] && t[0] == '!'
    ensures MatchAt(Links, t, true).None?
  {
  }

  lemma LinkWhole(u: String, alt: String, target: String)
    requires u == "[" + alt + "](" + target + ")"
    requires PlainRef(alt, target)
    ensures MatchAt(Links, u, false) == Some(Match(|u|, alt))
  {
    assert u == "[" + alt + "](" + target + ")" + [];
    RefWhole(u, "[", alt, "](", target, []);
  }

  /** Where a match begins, the global replace emits its replacement and resumes after it. */
  lemma StepMatched(p: Pattern, s: String, f: bool)
    requires MatchAt(p, s, f).Some?
    ensures var m := MatchAt(p, s, f).value;
      ReplaceAll(p, s, f) == m.rep + ReplaceAll(p, s[m.len..], IsLineTerminator(s[m.len - 1]))
  {
  }

  /** Front matter is recognised only at the start of a line, so text without line breaks keeps everything after its first character. */
  lemma {:induction false} FrontMatterNeedsLineStart(s: String)
    requires forall m :: 0 <= m < |s| ==> !IsLineTerminator(s[m])
    decreases |s|
    ensures ReplaceFirst(FrontMatter, s, false) == s
  {
    if s != [] {
      FrontMatterNeedsLineStart(s[1..]);
      assert [s[0]] + s[1..] == s;
    }
  }

  /** A one-line text that does not open with "---" has no front matter to remove. */
  lemma NoFrontMatter(s: String)
    requires forall m :: 0 <= m < |s| ==> !IsLineTerminator(s[m])
    requires !StartsWith(s, "---")
    ensures RemoveFrontMatter(s) == s
  {
    if s != [] {
      FrontMatterNeedsLineStart(s[1..]);
      assert [s[0]] + s[1..] == s;
    }
  }

  /** Every pass maps the empty text to itself. */
  lemma {:induction false} ReplaceEachEmpty(ps: seq<Pattern>)
    decreases |ps|
    ensures ReplaceEach(ps, []) == []
  {
    if ps != [] {
      ReplaceEachEmpty(ps[1..]);
    }
  }

  /**
   * A reference whose target starts with "./images/" is also a match of the
   * relative-image pattern, found no later in the bracket text.
   */
  lemma {:induction false} RelativeRefFound(t: String, a: nat, j: nat)
    requires a <= j <= |t| && OnOneLine(t, a, j)
    requires LazyRef(t, a, j, "](").Some?
    requires StartsWith(LazyRef(t, a, j, "](").value.target, "./images/")
    decreases |t| - j
    ensures LazyRef(t, a, j, "](./images/").Some?
  {
    RelativeStep(t, a, j);
    if LazyRef(t, a, j, "](./images/").None? {
      RelativeRefFound(t, a, j + 1);
    }
  }

  /** One step of `RelativeRefFound`: the relative scan succeeds at `j`, or the generic one still does from `j + 1`. */
  lemma RelativeStep(t: String, a: nat, j: nat)
    requires a <= j <= |t| && OnOneLine(t, a, j)
    requires LazyRef(t, a, j, "](").Some?
    requires StartsWith(LazyRef(t, a, j, "](").value.target, "./images/")
    ensures LazyRef(t, a, j, "](./images/").Some? ||
      (j < |t| && OnOneLine(t, a, j + 1) && LazyRef(t, a, j + 1, "](") == LazyRef(t, a, j, "](") &&
       LazyRef(t, a, j + 1, "](./images/") == LazyRef(t, a, j, "](./images/"))
  {
    if OccursAt(t, "](", j) && FindLazy(t, j + 2, ")").Some? {
      RelativeRefAt(t, a, j);
    } else if OccursAt(t, "](./images/", j) && FindLazy(t, j + 11, ")").Some? {
      LazyRefHit(t, a, j, "](./images/");
    } else {
      BothMiss(t, a, j);
    }
  }

  /** Neither scan closes at `j` while one of them still succeeds: both move on to `j + 1`. */
  lemma BothMiss(t: String, a: nat, j: nat)
    requires a <= j <= |t| && OnOneLine(t, a, j)
    requires !(OccursAt(t, "](", j) && FindLazy(t, j + 2, ")").Some?)
    requires !(OccursAt(t, "](./images/", j) && FindLazy(t, j + 11, ")").Some?)
    requires LazyRef(t, a, j, "](").Some? || LazyRef(t, a, j, "](./images/").Some?
    ensures j < |t| && OnOneLine(t, a, j + 1)
    ensures LazyRef(t, a, j, "](") == LazyRef(t, a, j + 1, "](")
    ensures LazyRef(t, a, j, "](./images/") == LazyRef(t, a, j + 1, "](./images/")
  {
    if LazyRef(t, a, j, "](").Some? {
      LazyRefMiss(t, a, j, "](");
    } else {
      LazyRefMiss(t, a, j, "](./images/");
    }
    LazyRefMiss(t, a, j, "](");
    LazyRefMiss(t, a, j, "](./images/");
  }

  lemma RelativeRefAt(t: String, a: nat, j: nat)
    requires a <= j <= |t| && OnOneLine(t, a, j)
    requires OccursAt(t, "](", j) && FindLazy(t, j + 2, ")").Some?
    requires StartsWith(LazyRef(t, a, j, "](").value.target, "./images/")
    ensures LazyRef(t, a, j, "](./images/").Some?
  {
    LazyRefHit(t, a, j, "](");
    RelativeHit(t, a, j, FindLazy(t, j + 2, ")").value);
    LazyRefHit(t, a, j, "](./images/");
  }

  lemma RelativeHit(t: String, a: nat, j: nat, k: nat)
    requires a <= j && j + 2 <= k < |t|
    requires OccursAt(t, "](", j) && OccursAt(t, ")", k) && OnOneLine(t, j + 2, k)
    requires StartsWith(t[j + 2..k], "./images/")
    ensures OccursAt(t, "](./images/", j) && FindLazy(t, j + 11, ")").Some?
  {
    var target := t[j + 2..k];
    assert target[..9] == "./images/";
    assert t[j..j + 11] == t[j..j + 2] + target[..9];
    assert OnOneLine(t, j + 11, k);
  }

  /** One step of the lazy scan: `mid` and a closing ')' found at `j`. */
  lemma LazyRefHit(t: String, a: nat, j: nat, mid: String)
    requires a <= j <= |t| && OnOneLine(t, a, j) && mid != []
    requires OccursAt(t, mid, j) && FindLazy(t, j + |mid|, ")").Some?
    ensures var k := FindLazy(t, j + |mid|, ")").value;
      LazyRef(t, a, j, mid) == Some(Ref(t[a..j], t[j + |mid|..k], k + 1))
  {
  }

  /** `LazyRefHit` with the closing ')' at `k`. */
  lemma LazyRefHitAt(t: String, a: nat, j: nat, mid: String, k: nat)
    requires a <= j <= |t| && OnOneLine(t, a, j) && mid != []
    requires OccursAt(t, mid, j) && FindLazy(t, j + |mid|, ")") == Some(k)
    ensures k < |t| && LazyRef(t, a, j, mid) == Some(Ref(t[a..j], t[j + |mid|..k], k + 1))
  {
    LazyRefHit(t, a, j, mid);
  }

  /** One step of the lazy scan: nothing closes at `j`, so the bracket text grows by one character. */
  lemma LazyRefMiss(t: String, a: nat, j: nat, mid: String)
    requires a <= j <= |t| && OnOneLine(t, a, j) && mid != []
    requires !(OccursAt(t, mid, j) && FindLazy(t, j + |mid|, ")").Some?)
    requires LazyRef(t, a, j, mid).Some? || (j < |t| && !IsLineTerminator(t[j]))
    ensures j < |t| && !IsLineTerminator(t[j]) && OnOneLine(t, a, j + 1)
    ensures LazyRef(t, a, j, mid) == LazyRef(t, a, j + 1, mid)
  {
  }

  /** When the leftmost image points into ./images/, the relative-image search succeeds too. */
  lemma {:induction false} RelativeImageFound(s: String, from: nat)
    requires from <= |s|
    requires FirstImageFrom(s, "](", from).Some?
    requires StartsWith(FirstImageFrom(s, "](", from).value.target, "./images/")
    decreases |s| - from
    ensures FirstImageFrom(s, "](./images/", from).Some?
  {
    RelativeImageStep(s, from);
    if FirstImageFrom(s, "](./images/", from).None? {
      RelativeImageFound(s, from + 1);
    }
  }

  /** One step of `RelativeImageFound`: a relative image is found at `from`, or both searches go on from `from + 1`. */
  lemma RelativeImageStep(s: String, from: nat)
    requires from <= |s|
    requires FirstImageFrom(s, "](", from).Some?
    requires StartsWith(FirstImageFrom(s, "](", from).value.target, "./images/")
    ensures FirstImageFrom(s, "](./images/", from).Some? ||
      (from < |s| && FirstImageFrom(s, "](", from + 1) == FirstImageFrom(s, "](", from) &&
       FirstImageFrom(s, "](./images/", from + 1) == FirstImageFrom(s, "](./images/", from))
  {
    FirstImageInside(s, "](", from);
    var t := s[from..];
    if ImageAt(t, "](").Some? {
      RelativeAtFront(t);
      FirstImageHit(s, "](./images/", from);
    } else {
      FirstImageMiss(s, "](", from);
      if ImageAt(t, "](./images/").Some? {
        FirstImageHit(s, "](./images/", from);
      } else {
        FirstImageMiss(s, "](./images/", from);
      }
    }
  }

  /** The leftmost-image search finds nothing once it has reached the end. */
  lemma FirstImageInside(s: String, mid: String, from: nat)
    requires StartsWith(mid, "](") && from <= |s|
    ensures FirstImageFrom(s, mid, from).Some? ==> from < |s|
  {
  }

  /** An image at `from` is the one the search from `from` finds. */
  lemma FirstImageHit(s: String, mid: String, from: nat)
    requires StartsWith(mid, "](") && from < |s|
    requires ImageAt(s[from..], mid).Some?
    ensures FirstImageFrom(s, mid, from) == ImageAt(s[from..], mid)
  {
  }

  /** Without an image at `from`, the search goes on from `from + 1`. */
  lemma FirstImageMiss(s: String, mid: String, from: nat)
    requires StartsWith(mid, "](") && from < |s|
    requires ImageAt(s[from..], mid).None?
    ensures FirstImageFrom(s, mid, from) == FirstImageFrom(s, mid, from + 1)
  {
  }

  /** An image at the front whose target starts with "./images/" is a relative image at the front. */
  lemma RelativeAtFront(t: String)
    requires ImageAt(t, "](").Some?
    requires StartsWith(ImageAt(t, "](").value.target, "./images/")
    ensures ImageAt(t, "](./images/").Some?
  {
    RelativeRefFound(t, 2, 2);
  }

  /** Conversely, every relative image is an image: the generic scan succeeds no later. */
  lemma {:induction false} GenericRefFound(t: String, a: nat, j: nat)
    requires a <= j <= |t| && OnOneLine(t, a, j)
    requires LazyRef(t, a, j, "](./images/").Some?
    decreases |t| - j
    ensures LazyRef(t, a, j, "](").Some?
  {
    GenericStep(t, a, j);
    if LazyRef(t, a, j, "](").None? {
      GenericRefFound(t, a, j + 1);
    }
  }

  /** One step of `GenericRefFound`: the generic scan succeeds at `j`, or the relative one still does from `j + 1`. */
  lemma GenericStep(t: String, a: nat, j: nat)
    requires a <= j <= |t| && OnOneLine(t, a, j)
    requires LazyRef(t, a, j, "](./images/").Some?
    ensures LazyRef(t, a, j, "](").Some? ||
      (j < |t| && OnOneLine(t, a, j + 1) && LazyRef(t, a, j + 1, "](") == LazyRef(t, a, j, "](") &&
       LazyRef(t, a, j + 1, "](./images/") == LazyRef(t, a, j, "](./images/"))
  {
    if OccursAt(t, "](./images/", j) && FindLazy(t, j + 11, ")").Some? {
      GenericHit(t, j, FindLazy(t, j + 11, ")").value);
      LazyRefHit(t, a, j, "](");
    } else if !(OccursAt(t, "](", j) && FindLazy(t, j + 2, ")").Some?) {
      BothMiss(t, a, j);
    } else {
      LazyRefHit(t, a, j, "](");
    }
  }

  lemma GenericHit(t: String, j: nat, k: nat)
    requires OccursAt(t, "](./images/", j) && j + 11 <= k < |t|
    requires OccursAt(t, ")", k) && OnOneLine(t, j + 11, k)
    ensures OccursAt(t, "](", j) && FindLazy(t, j + 2, ")").Some?
  {
    assert t[j..j + 2] == t[j..j + 11][..2];
    forall m | j + 2 <= m < j + 11 ensures !IsLineTerminator(t[m]) {
      assert t[m] == t[j..j + 11][m - j];
    }
    assert OnOneLine(t, j + 2, k);
  }

  /** A relative image at the front is an image at the front. */
  lemma RelativeIsImage(t: String)
    ensures ImageAt(t, "](./images/").Some? ==> ImageAt(t, "](").Some?
  {
    if ImageAt(t, "](./images/").Some? {
      GenericRefFound(t, 2, 2);
    }
  }

  /** Text without any image has no relative image either. */
  lemma NoImageNoRelative(s: String)
    requires FirstImage(s, "](").None?
    ensures FirstImage(s, "](./images/").None?
  {
    var _ := FirstImageFound(s, "](", 0);
    forall i | 0 <= i < |s| ensures ImageAt(s[i..], "](./images/").None? {
      RelativeIsImage(s[i..]);
    }
    var _ := FirstImageFound(s, "](./images/", 0);
  }

  /**
   * A relative image `![alt](./images/name)` at the front is rewritten to the
   * resolved address when there is one and kept as written when there is not;
   * the replace then goes on with what follows.
   */
  lemma LocalImageRewritten(alt: String, name: String, rest: String, resolve: String -> Option<String>)
    requires PlainRef(alt, name)
    ensures var img := "![" + alt + "](./images/" + name + ")";
      Replace(LocalImages(resolve), img + rest) ==
        (if resolve(name).Some? then "![" + alt + "](" + resolve(name).value + ")" else img)
        + Replace(LocalImages(resolve), rest)
  {
    var img := "![" + alt + "](./images/" + name + ")";
    var t := img + rest;
    LocalImageMatch(alt, name, rest, resolve);
    StepMatched(LocalImages(resolve), t, true);
    assert t[|img|..] == rest;
    FlagIgnored(LocalImages(resolve), rest, IsLineTerminator(t[|img| - 1]), true);
  }

  /** The relative image at the front is one match, replaced by the resolved reference or by itself. */
  lemma LocalImageMatch(alt: String, name: String, rest: String, resolve: String -> Option<String>)
    requires PlainRef(alt, name)
    ensures var img := "![" + alt + "](./images/" + name + ")";
      MatchAt(LocalImages(resolve), img + rest, true) ==
        Some(Match(|img|, if resolve(name).Some? then "![" + alt + "](" + resolve(name).value + ")" else img))
  {
    var img := "![" + alt + "](./images/" + name + ")";
    var t := img + rest;
    RefWhole(t, "![", alt, "](./images/", name, rest);
    assert StartsWith(t, "![");
    assert t[..|img|] == img;
  }

  /** When no relative image in the text resolves, the rewrite leaves the text as it is. */
  lemma {:induction false} UnresolvedKept(s: String, resolve: String -> Option<String>, f: bool)
    requires forall i :: 0 <= i < |s| && ImageAt(s[i..], "](./images/").Some? ==>
      resolve(ImageAt(s[i..], "](./images/").value.target).None?
    decreases |s|
    ensures ReplaceAll(LocalImages(resolve), s, f) == s
  {
    AllUnresolvedOf(s, resolve);
    KeptWhenUnresolved(s, resolve, f);
  }

  /** No relative image at the front of `s` or of any of its suffixes resolves. */
  predicate AllUnresolved(s: String, resolve: String -> Option<String>)
    decreases |s|
  {
    && (ImageAt(s, "](./images/").Some? ==> resolve(ImageAt(s, "](./images/").value.target).None?)
    && (s != [] ==> AllUnresolved(s[1..], resolve))
  }

  lemma {:induction false} AllUnresolvedOf(s: String, resolve: String -> Option<String>)
    requires forall i :: 0 <= i < |s| && ImageAt(s[i..], "](./images/").Some? ==>
      resolve(ImageAt(s[i..], "](./images/").value.target).None?
    decreases |s|
    ensures AllUnresolved(s, resolve)
  {
    if s != [] {
      assert s[0..] == s;
      forall i | 0 <= i < |s[1..]| && ImageAt(s[1..][i..], "](./images/").Some?
        ensures resolve(ImageAt(s[1..][i..], "](./images/").value.target).None?
      {
        assert s[1..][i..] == s[1 + i..];
      }
      AllUnresolvedOf(s[1..], resolve);
    }
  }

  lemma {:induction false} AllUnresolvedSuffix(s: String, resolve: String -> Option<String>, n: nat)
    requires n <= |s| && AllUnresolved(s, resolve)
    decreases n
    ensures AllUnresolved(s[n..], resolve)
  {
    if n > 0 {
      AllUnresolvedSuffix(s[1..], resolve, n - 1);
      assert s[1..][n - 1..] == s[n..];
    }
  }

  lemma {:induction false} KeptWhenUnresolved(s: String, resolve: String -> Option<String>, f: bool)
    requires AllUnresolved(s, resolve)
    decreases |s|
    ensures ReplaceAll(LocalImages(resolve), s, f) == s
  {
    if s != [] {
      var n := UnresolvedStep(s, resolve, f);
      AllUnresolvedSuffix(s, resolve, n);
      KeptWhenUnresolved(s[n..], resolve, IsLineTerminator(s[n - 1]));
      Reassembled(s, n, ReplaceAll(LocalImages(resolve), s, f), ReplaceAll(LocalImages(resolve), s[n..], IsLineTerminator(s[n - 1])));
    }
  }

  /** Text that is `s`'s first `n` characters followed by `s`'s rest is `s`. */
  lemma Reassembled(s: String, n: nat, x: String, y: String)
    requires n <= |s| && x == s[..n] + y && y == s[n..]
    ensures x == s
  {
    assert s[..n] + s[n..] == s;
  }

  /** The rewrite copies the first `n` characters, a match or a single character, and goes on after them. */
  lemma UnresolvedStep(s: String, resolve: String -> Option<String>, f: bool) returns (n: nat)
    requires s != []
    requires ImageAt(s, "](./images/").Some? ==> resolve(ImageAt(s, "](./images/").value.target).None?
    ensures 0 < n <= |s|
    ensures ReplaceAll(LocalImages(resolve), s, f) == s[..n] + ReplaceAll(LocalImages(resolve), s[n..], IsLineTerminator(s[n - 1]))
  {
    var p := LocalImages(resolve);
    if MatchAt(p, s, f).Some? {
      n := MatchAt(p, s, f).value.len;
      UnresolvedMatchKept(s, resolve, f);
      StepMatched(p, s, f);
    } else {
      n := 1;
      StepUnmatched(p, s, f);
      assert s[..1] == [s[0]];
    }
  }

  /** An image the rewrite cannot resolve is replaced by itself. */
  lemma UnresolvedMatchKept(s: String, resolve: String -> Option<String>, f: bool)
    requires ImageAt(s, "](./images/").Some? ==> resolve(ImageAt(s, "](./images/").value.target).None?
    ensures var m := MatchAt(LocalImages(resolve), s, f);
      m.Some? ==> m.value.rep == s[..m.value.len]
  {
  }
}

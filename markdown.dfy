/**
 * The two text helpers of the markdown library: the 160-character SEO
 * description and the preview excerpt that tries not to cut a link in half.
 */
module Markdown {
  import opened Results
  import opened Text
  import opened Patterns

  /** The markup-stripping passes of the SEO description, in the order they are applied after the front matter is gone. */
  const MarkupPasses: seq<Pattern> :=
    [Images, Headers, Bold, Italic, Code, Links, ListMarkers, NumberMarkers, BlankLines]

  /** The article text with its markup, line structure and surplus white space removed; white space is collapsed last. */
  function CleanText(content: String): String {
    Trim(Replace(Spaces, ReplaceEach(MarkupPasses, RemoveFrontMatter(content))))
  }

  function Fallback(title: String): String {
    title + " by Ivan Tregear. Read more about robotics, engineering, and entrepreneurship."
  }

  /**
   * `createCleanDescription(content, title)`: the first line of the cleaned text,
   * cut to 157 characters plus "..." when it is longer than 160; the fixed
   * sentence about the author when nothing is left.
   */
  function CleanDescription(content: String, title: String): (r: String)
    ensures var c := CleanText(content);
      && (|c| > 160 ==> r == c[..157] + "..." && |r| == 160)
      && (0 < |c| <= 160 ==> r == c)
      && (c == [] ==> r == Fallback(title))
  {
    var c := CleanText(content);
    CleanTextNormalized(content);
    NoNewlineFirstLine(c);
    var first := FirstPiece(c, "\n");
    var d := if |first| > 160 then first[..157] + "..." else first;
    if d != [] then d else Fallback(title)
  }

  /** White space occurs only as single ' ' characters. */
  predicate Normalized(s: String) {
    forall i :: 0 <= i < |s| && IsSpace(s[i]) ==> s[i] == ' ' && (i + 1 == |s| || !IsSpace(s[i + 1]))
  }

  /** After the last pass every white-space run is one ' ', and no other character changes its spacing. */
  lemma {:induction false} SpacesNormalize(s: String, f: bool)
    decreases |s|
    ensures Normalized(ReplaceAll(Spaces, s, f))
    ensures ReplaceAll(Spaces, s, f) == [] <==> s == []
    ensures s != [] ==> (IsSpace(ReplaceAll(Spaces, s, f)[0]) <==> IsSpace(s[0]))
  {
    if s != [] {
      var n := SpaceRun(s, 0);
      if n >= 1 {
        assert MatchAt(Spaces, s, f) == Some(Match(n, " "));
        SpacesNormalize(s[n..], IsLineTerminator(s[n - 1]));
      } else {
        assert MatchAt(Spaces, s, f).None?;
        SpacesNormalize(s[1..], IsLineTerminator(s[0]));
      }
    }
  }

  lemma NormalizedSlice(s: String, a: nat, b: nat)
    requires a <= b <= |s|
    requires Normalized(s)
    ensures Normalized(s[a..b])
  {
    forall i | 0 <= i < b - a && IsSpace(s[a..b][i])
      ensures s[a..b][i] == ' ' && (i + 1 == b - a || !IsSpace(s[a..b][i + 1]))
    {
      assert s[a..b][i] == s[a + i];
      if i + 1 < b - a {
        assert s[a..b][i + 1] == s[a + i + 1];
      }
    }
  }

  /** The cleaned text holds no line break, no run of white space, and no white space at either end. */
  lemma CleanTextNormalized(content: String)
    ensures Normalized(CleanText(content))
    ensures '\n' !in CleanText(content)
    ensures CleanText(content) == [] || (!IsSpace(CleanText(content)[0]) && !IsSpace(CleanText(content)[|CleanText(content)| - 1]))
  {
    var stripped := ReplaceEach(MarkupPasses, RemoveFrontMatter(content));
    var r := Trim(Replace(Spaces, stripped));
    assert CleanText(content) == r;
    TrimmedSpacesNormalized(stripped);
  }

  /** Collapsing white space and then trimming leaves normalized text without line breaks. */
  lemma TrimmedSpacesNormalized(s: String)
    ensures Normalized(Trim(Replace(Spaces, s)))
    ensures '\n' !in Trim(Replace(Spaces, s))
    ensures var r := Trim(Replace(Spaces, s)); r == [] || (!IsSpace(r[0]) && !IsSpace(r[|r| - 1]))
  {
    SpacesNormalize(s, true);
    TrimNormalized(Replace(Spaces, s));
  }

  /** Trimming normalized text keeps it normalized; it has no line break and no white space at either end. */
  lemma TrimNormalized(t: String)
    requires Normalized(t)
    ensures Normalized(Trim(t))
    ensures '\n' !in Trim(t)
    ensures var r := Trim(t); r == [] || (!IsSpace(r[0]) && !IsSpace(r[|r| - 1]))
  {
    assert Normalized(Trim(t)) by {
      var a, _ := TrimIsSlice(t);
      NormalizedSlice(t, a, a + |Trim(t)|);
    }
    NormalizedNoNewline(Trim(t));
  }

  /** In normalized text every white-space character is ' ', so there is no line break. */
  lemma NormalizedNoNewline(r: String)
    requires Normalized(r)
    ensures '\n' !in r
  {
    assert IsSpace('\n');
  }

  lemma NoNewlineFirstLine(s: String)
    requires '\n' !in s
    ensures FirstPiece(s, "\n") == s
  {
    forall k | 0 <= k <= |s| ensures !OccursAt(s, "\n", k) {
      if k < |s| {
        assert s[k..k + 1] == [s[k]];
      }
    }
  }

  /** The text before the first blank line, once the front matter is gone and the rest trimmed. */
  function FirstParagraph(content: String): (p: String)
    ensures forall k :: 0 <= k <= |p| ==> !OccursAt(p, "\n\n", k)
  {
    FirstPiece(Trim(RemoveFrontMatter(content)), "\n\n")
  }

  /**
   * The cut looks like the middle of a link: the last '[' is after the last ']',
   * or the last ']' is after the last '[' and before the last '('.
   */
  predicate InLink(t: String) {
    var openBracket := LastIndexOf(t, '[');
    var closeBracket := LastIndexOf(t, ']');
    var openParen := LastIndexOf(t, '(');
    openBracket > closeBracket || (openBracket < closeBracket && closeBracket < openParen)
  }

  /**
   * How much of the paragraph the excerpt keeps: all of it when it fits,
   * otherwise `maxLength` characters, extended through the first ')' after the
   * cut when the cut is inside a link and that ')' is fewer than 100 characters away.
   */
  function ExcerptCut(p: String, maxLength: nat): (c: nat)
    ensures |p| <= maxLength ==> c == |p|
    ensures |p| > maxLength ==> maxLength <= c <= |p| && c <= maxLength + 100
    ensures c > maxLength && |p| > maxLength ==>
      InLink(p[..maxLength]) && p[c - 1] == ')' && ')' !in p[maxLength..c - 1]
    ensures |p| > maxLength && InLink(p[..maxLength]) && ')' in p[maxLength..Min(|p|, maxLength + 100)] ==> c > maxLength
  {
    if |p| <= maxLength then |p|
    else if !InLink(p[..maxLength]) then maxLength
    else
      var e := IndexOf(p[maxLength..], ')');
      assert p[maxLength..Min(|p|, maxLength + 100)] == p[maxLength..][..Min(|p|, maxLength + 100) - maxLength];
      if e != -1 && e < 100 then
        assert p[maxLength..maxLength + e] == p[maxLength..][..e];
        maxLength + e + 1
      else maxLength
  }

  function Min(a: int, b: int): int {
    if a < b then a else b
  }

  /**
   * `createMarkdownExcerpt(content, maxLength)`: the first paragraph when it fits,
   * otherwise the kept prefix, followed by "..." exactly when something was cut off.
   */
  function MarkdownExcerpt(content: String, maxLength: nat): (r: String)
    ensures var p := FirstParagraph(content);
      var kept := p[..ExcerptCut(p, maxLength)];
      && (|p| <= maxLength ==> r == p)
      && (|kept| < |p| ==> r == kept + "...")
      && (|kept| == |p| ==> r == p)
    ensures forall k :: 0 <= k <= |r| ==> !OccursAt(r, "\n\n", k)
  {
    var p := FirstParagraph(content);
    if |p| <= maxLength then p
    else
      var kept := p[..ExcerptCut(p, maxLength)];
      var r := kept + (if |kept| < |p| then "..." else "");
      NoBlankLineInPrefix(p, |kept|);
      r
  }

  /** A prefix of a paragraph, with or without "..." after it, holds no blank line. */
  lemma NoBlankLineInPrefix(p: String, c: nat)
    requires c <= |p|
    requires forall k :: 0 <= k <= |p| ==> !OccursAt(p, "\n\n", k)
    ensures forall k :: 0 <= k <= c + 3 ==> !OccursAt(p[..c] + "...", "\n\n", k)
    ensures forall k :: 0 <= k <= c ==> !OccursAt(p[..c], "\n\n", k)
  {
    var t := p[..c] + "...";
    forall k | 0 <= k <= c + 3 ensures !OccursAt(t, "\n\n", k) {
      if k + 2 <= c {
        assert t[k..k + 2] == p[k..k + 2] && !OccursAt(p, "\n\n", k);
      } else if k + 2 <= |t| {
        assert t[k..k + 2][1] == t[k + 1] == '.';
      }
    }
    forall k | 0 <= k <= c ensures !OccursAt(p[..c], "\n\n", k) {
      if k + 2 <= c {
        assert p[..c][k..k + 2] == p[k..k + 2] && !OccursAt(p, "\n\n", k);
      }
    }
  }

  /**
   * Images go before links, shown for the case of a body that is exactly one
   * image: `![alt](target)` alone leaves nothing behind, so the description is the fallback sentence and the alt text is gone.
   * Had the link pass run first it would have kept "!" and the alt text.
   */
  lemma ImageAltNeverSurvives(alt: String, target: String, title: String)
    requires PlainRef(alt, target)
    ensures CleanDescription("![" + alt + "](" + target + ")", title) == Fallback(title)
    ensures Replace(Links, "![" + alt + "](" + target + ")") == "!" + alt
  {
    var img := "![" + alt + "](" + target + ")";
    forall m | 0 <= m < |img| ensures !IsLineTerminator(img[m]) {
      if 2 <= m < 2 + |alt| {
        assert img[m] == alt[m - 2];
      } else if 4 + |alt| <= m < 4 + |alt| + |target| {
        assert img[m] == target[m - 4 - |alt|];
      }
    }
    assert img[0] == '!';
    NoFrontMatter(img);
    assert img + [] == img;
    ImageRemovedWhole(alt, target, []);
    assert MarkupPasses == [Images] + MarkupPasses[1..];
    ReplaceEachEmpty(MarkupPasses[1..]);
    assert ReplaceEach(MarkupPasses, img) == [];
    assert CleanText(img) == [];
    LinkPassKeepsAlt(alt, target);
  }
}

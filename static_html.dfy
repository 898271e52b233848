/**
 * The build script that writes one static HTML page per article: the image
 * lookup in the build output, the preview image, the 300-character description,
 * the page metadata and the loop over the article directory.
 */
module StaticHtml {
  import opened Results
  import opened Text
  import opened Patterns
  import opened Content

  /** `name.replace(/\.[^.]+$/, '')`: the name without its last extension. */
  function DropExtension(name: String): (r: String)
    ensures StartsWith(name, r)
    ensures r == name || (|r| + 1 < |name| && name[|r|] == '.' && '.' !in name[|r| + 1..])
    ensures '.' !in name ==> r == name
  {
    var k := LastIndexOf(name, '.');
    if k >= 0 && k + 1 < |name| then name[..k] else name
  }

  /** `files.find(file => file.startsWith(prefix))` */
  function FindWithPrefix(files: seq<String>, prefix: String): (r: Option<nat>)
    ensures r.Some? ==> r.value < |files| && StartsWith(files[r.value], prefix)
    ensures r.Some? ==> forall i :: 0 <= i < r.value ==> !StartsWith(files[i], prefix)
    ensures r.None? ==> forall i :: 0 <= i < |files| ==> !StartsWith(files[i], prefix)
  {
    if files == [] then None
    else if StartsWith(files[0], prefix) then Some(0)
    else
      var r := FindWithPrefix(files[1..], prefix);
      if r.Some? then Some(r.value + 1) else None
  }

  /**
   * `getThoughtsImageUrl(imageName, distDir)`: the first file of the built asset
   * directory (when it exists) whose name starts with the image name minus its
   * extension, under "/assets/"; otherwise the image name itself under "/assets/".
   */
  function AssetUrl(name: String, assets: Option<seq<String>>): (r: String)
    ensures StartsWith(r, "/assets/")
    ensures assets.None? ==> r == "/assets/" + name
    ensures assets.Some? && FindWithPrefix(assets.value, DropExtension(name)).None? ==> r == "/assets/" + name
    ensures assets.Some? && FindWithPrefix(assets.value, DropExtension(name)).Some? ==>
      var f := assets.value[FindWithPrefix(assets.value, DropExtension(name)).value];
      r == "/assets/" + (if f != [] then f else name)
  {
    var found := if assets.Some? then FindWithPrefix(assets.value, DropExtension(name)) else None;
    var r := if found.Some? && assets.value[found.value] != [] then "/assets/" + assets.value[found.value]
      else "/assets/" + name;
    assert r[..8] == "/assets/";
    r
  }

  /**
   * `extractFirstImage(content, distDir)`: the first `./images/` image anywhere,
   * resolved in the build output; otherwise the first image of any kind when its
   * target is absolute ("http…" as it is, "/…" on the site's domain); otherwise none.
   */
  function FirstImageUrl(content: String, assets: Option<seq<String>>): (r: Option<String>)
    ensures r.Some? ==> r.value != []
    ensures var rel := FirstImage(content, "](./images/");
      rel.Some? ==> r == Some(Domain + AssetUrl(rel.value.target, assets))
    ensures var any := FirstImage(content, "](");
      FirstImage(content, "](./images/").None? ==> r == if any.None? then None else AbsoluteImage(any.value.target)
  {
    var relative := FirstImage(content, "](./images/");
    if relative.Some? then Some(Domain + AssetUrl(relative.value.target, assets))
    else
      var any := FirstImage(content, "](");
      if any.None? then None else AbsoluteImage(any.value.target)
  }

  /** Content without any `![..](..)` has no preview image. */
  lemma NoImageNoUrl(content: String, assets: Option<seq<String>>)
    requires FirstImage(content, "](").None?
    ensures FirstImageUrl(content, assets).None?
  {
    NoImageNoRelative(content);
  }

  /**
   * A relative image wins over every other image: when the first image of the
   * content points into ./images/, the result is a site address under /assets/.
   */
  lemma RelativeImageWins(content: String, assets: Option<seq<String>>)
    requires FirstImage(content, "](").Some?
    requires StartsWith(FirstImage(content, "](").value.target, "./images/")
    ensures FirstImageUrl(content, assets).Some?
    ensures StartsWith(FirstImageUrl(content, assets).value, Domain + "/assets/")
  {
    RelativeImageFound(content, 0);
    var rel := FirstImage(content, "](./images/").value;
    var u := AssetUrl(rel.target, assets);
    assert FirstImageUrl(content, assets) == Some(Domain + u);
    StartsWithAppend(Domain, u, "/assets/");
  }

  /**
   * A relative image anywhere in the content wins, even after absolute images:
   * the preview is the site address of the leftmost relative image `i`, which
   * lies at or before any relative image `k`.
   */
  lemma RelativeAnywhereWins(content: String, assets: Option<seq<String>>, k: nat) returns (i: nat)
    requires k < |content| && ImageAt(content[k..], "](./images/").Some?
    ensures i <= k && ImageAt(content[i..], "](./images/").Some?
    ensures forall j :: 0 <= j < i ==> ImageAt(content[j..], "](./images/").None?
    ensures FirstImageUrl(content, assets) == Some(Domain + AssetUrl(ImageAt(content[i..], "](./images/").value.target, assets))
    ensures StartsWith(FirstImageUrl(content, assets).value, Domain + "/assets/")
  {
    i := FirstImageFound(content, "](./images/", 0);
    var rel := FirstImage(content, "](./images/");
    assert rel.Some?;
    StartsWithAppend(Domain, AssetUrl(rel.value.target, assets), "/assets/");
  }

  /**
   * Without any relative image the preview is the first image of any kind,
   * kept only when its target is absolute.
   */
  lemma NoRelativeFallsThrough(content: String, assets: Option<seq<String>>)
    requires forall k :: 0 <= k < |content| ==> ImageAt(content[k..], "](./images/").None?
    ensures var any := FirstImage(content, "](");
      FirstImageUrl(content, assets) == if any.None? then None else AbsoluteImage(any.value.target)
  {
    var _ := FirstImageFound(content, "](./images/", 0);
  }

  /** The markup-stripping passes of the build script, in order. */
  const StaticPasses: seq<Pattern> :=
    [Images, PlainLinks, Headers, Bold, Italic, PlainCode, Rules, Newlines]

  /** The article text with markup removed, line breaks turned into spaces, and trimmed. */
  function StaticText(content: String): String {
    Trim(ReplaceEach(StaticPasses, content))
  }

  /** A fragment the script keeps: longer than 10 characters once trimmed. */
  predicate IsLong(s: String) {
    |Trim(s)| > 10
  }

  /** `sentences.filter(s => s.trim().length > 10)` */
  function LongSentences(ss: seq<String>): seq<String> {
    if ss == [] then []
    else if IsLong(ss[0]) then [ss[0]] + LongSentences(ss[1..])
    else LongSentences(ss[1..])
  }

  /** Every fragment kept is long. */
  lemma {:induction false} LongSentencesKept(ss: seq<String>)
    ensures forall i :: 0 <= i < |LongSentences(ss)| ==> IsLong(LongSentences(ss)[i])
    ensures |LongSentences(ss)| <= |ss|
  {
    if ss != [] {
      LongSentencesKept(ss[1..]);
      var rest := LongSentences(ss[1..]);
      if IsLong(ss[0]) {
        var r := [ss[0]] + rest;
        assert LongSentences(ss) == r;
        forall i | 0 <= i < |r| ensures IsLong(r[i]) {
          if i > 0 {
            assert r[i] == rest[i - 1];
          }
        }
      }
    }
  }

  /** The description grown by one sentence, with ". " between sentences. */
  function Extend(desc: String, sentence: String): String {
    desc + (if desc != [] then ". " else []) + sentence
  }

  const MaxDescription: nat := 300

  /** The loop over the sentences: each trimmed sentence is added while the result stays within 300 characters; the first that does not fit ends it. */
  function Grow(desc: String, ss: seq<String>): String
    decreases |ss|
  {
    if ss == [] then desc
    else if |Extend(desc, Trim(ss[0]))| <= MaxDescription then Grow(Extend(desc, Trim(ss[0])), ss[1..])
    else desc
  }

  /** `description.substring(0, lastSpace)` when the last space lies beyond index 100. */
  function CutAtWord(s: String): (r: String)
    ensures StartsWith(s, r)
    ensures r == s || (|r| > 100 && s[|r|] == ' ' && ' ' !in s[|r| + 1..])
    ensures r == s <==> forall i :: 100 < i < |s| ==> s[i] != ' '
  {
    var lastSpace := LastIndexOf(s, ' ');
    if lastSpace > 100 then
      assert s[lastSpace] == ' ';
      s[..lastSpace]
    else
      assert forall i :: 100 < i < |s| ==> s[i] != ' ' by {
        forall i | 100 < i < |s| ensures s[i] != ' ' {
          if lastSpace >= 0 {
            assert s[i] == s[lastSpace + 1..][i - lastSpace - 1];
          } else {
            assert s[i] in s;
          }
        }
      }
      s
  }

  /**
   * What `createCleanDescription` makes of the stripped text: the accumulated
   * sentences; when they come to fewer than 100 characters, the text's first
   * 300 characters cut at a word; when that is empty too, the fixed sentence.
   */
  function DescriptionOf(text: String): (r: String)
    ensures 0 < |r| <= MaxDescription
    ensures var d := Grow([], LongSentences(SplitSentences(text)));
      && (|d| >= 100 ==> r == d)
      && (|d| < 100 && FallbackOf(text) != [] ==> r == FallbackOf(text))
      && (|d| < 100 && FallbackOf(text) == [] ==> r == "Read this article by Ivan Tregear")
  {
    var ss := LongSentences(SplitSentences(text));
    var d := Grow([], ss);
    GrowBound([], ss);
    var e := if |d| < 100 then FallbackOf(text) else d;
    if e != [] then e else "Read this article by Ivan Tregear"
  }

  /** The text's first 300 characters, trimmed and cut at a word. */
  function FallbackOf(text: String): (r: String)
    ensures |r| <= MaxDescription
    ensures r == CutAtWord(Trim(Take(text, MaxDescription)))
  {
    var cut := Take(text, MaxDescription);
    var trimmed := Trim(cut);
    var r := CutAtWord(trimmed);
    assert |r| <= |trimmed| <= |cut| <= MaxDescription;
    r
  }

  /** `createCleanDescription(content, title)` of the build script. */
  function Description(content: String): (r: String)
    ensures 0 < |r| <= MaxDescription
    ensures r == DescriptionOf(StaticText(content))
  {
    DescriptionOf(StaticText(content))
  }

  /** Growing never passes the 300-character cap. */
  lemma {:induction false} GrowBound(desc: String, ss: seq<String>)
    requires |desc| <= MaxDescription
    decreases |ss|
    ensures |Grow(desc, ss)| <= MaxDescription
  {
    if ss != [] && |Extend(desc, Trim(ss[0]))| <= MaxDescription {
      GrowBound(Extend(desc, Trim(ss[0])), ss[1..]);
    }
  }

  /** The trimmed sentences. */
  function TrimAll(ss: seq<String>): (r: seq<String>)
    ensures |r| == |ss| && forall i :: 0 <= i < |ss| ==> r[i] == Trim(ss[i])
  {
    if ss == [] then [] else [Trim(ss[0])] + TrimAll(ss[1..])
  }

  /** The number of leading sentences whose ". "-joined text fits in 300 characters, counted from `k`. */
  function FitCount(ts: seq<String>, k: nat): (n: nat)
    requires k <= |ts|
    decreases |ts| - k
    ensures k <= n <= |ts|
  {
    if k == |ts| || |Join(ts[..k + 1], ". ")| > MaxDescription then k else FitCount(ts, k + 1)
  }

  lemma {:induction false} JoinNonEmpty(parts: seq<String>, sep: String)
    requires parts != [] && parts[|parts| - 1] != []
    ensures Join(parts, sep) != []
  {
  }

  lemma JoinStep(ts: seq<String>, k: nat)
    requires k < |ts|
    requires forall i :: 0 <= i < |ts| ==> ts[i] != []
    ensures Extend(Join(ts[..k], ". "), ts[k]) == Join(ts[..k + 1], ". ")
  {
    assert ts[..k + 1][..k] == ts[..k];
    if k > 0 {
      JoinNonEmpty(ts[..k], ". ");
    }
  }

  /** One sentence that fits: the loop appends it, and the count of fitting sentences moves past it. */
  lemma GrowAccepts(ss: seq<String>, k: nat)
    requires k < |ss|
    requires forall i :: 0 <= i < |ss| ==> IsLong(ss[i])
    requires |Join(TrimAll(ss)[..k + 1], ". ")| <= MaxDescription
    ensures Grow(Join(TrimAll(ss)[..k], ". "), ss[k..]) == Grow(Join(TrimAll(ss)[..k + 1], ". "), ss[k + 1..])
    ensures FitCount(TrimAll(ss), k) == FitCount(TrimAll(ss), k + 1)
  {
    var ts := TrimAll(ss);
    JoinStep(ts, k);
    assert ss[k..][0] == ss[k] && ss[k..][1..] == ss[k + 1..];
  }

  /** One sentence that does not fit: the loop stops, and so does the count. */
  lemma GrowRejects(ss: seq<String>, k: nat)
    requires k < |ss|
    requires forall i :: 0 <= i < |ss| ==> IsLong(ss[i])
    requires |Join(TrimAll(ss)[..k + 1], ". ")| > MaxDescription
    ensures Grow(Join(TrimAll(ss)[..k], ". "), ss[k..]) == Join(TrimAll(ss)[..k], ". ")
    ensures FitCount(TrimAll(ss), k) == k
  {
    var ts := TrimAll(ss);
    JoinStep(ts, k);
    assert ss[k..][0] == ss[k];
  }

  /**
   * The loop keeps exactly the longest run of leading sentences whose joined
   * text fits: the result is those sentences, trimmed, joined by ". ", and the
   * next sentence would have pushed it past 300 characters.
   */
  lemma {:induction false} GrowJoins(ss: seq<String>, k: nat)
    requires k <= |ss|
    requires forall i :: 0 <= i < |ss| ==> IsLong(ss[i])
    requires |Join(TrimAll(ss)[..k], ". ")| <= MaxDescription
    decreases |ss| - k
    ensures Grow(Join(TrimAll(ss)[..k], ". "), ss[k..]) == Join(TrimAll(ss)[..FitCount(TrimAll(ss), k)], ". ")
  {
    if k == |ss| {
      assert ss[k..] == [];
    } else if |Join(TrimAll(ss)[..k + 1], ". ")| <= MaxDescription {
      GrowAccepts(ss, k);
      GrowJoins(ss, k + 1);
    } else {
      GrowRejects(ss, k);
    }
  }

  /** What the sentence loop keeps, stated without the loop. */
  lemma AcceptedSentences(text: String)
    ensures var ss := LongSentences(SplitSentences(text));
      var n := FitCount(TrimAll(ss), 0);
      && Grow([], ss) == Join(TrimAll(ss)[..n], ". ")
      && |Join(TrimAll(ss)[..n], ". ")| <= MaxDescription
      && (n < |ss| ==> |Join(TrimAll(ss)[..n + 1], ". ")| > MaxDescription)
  {
    var ss := LongSentences(SplitSentences(text));
    LongSentencesKept(SplitSentences(text));
    assert TrimAll(ss)[..0] == [] && ss[0..] == ss;
    GrowJoins(ss, 0);
    FitCountStops(TrimAll(ss), 0);
  }

  /**
   * The description chosen, stated without the loop: the longest run of
   * leading long sentences that fits, joined by ". ", when it has at least 100
   * characters; otherwise the cut first 300 characters; otherwise the fixed sentence.
   */
  lemma DescriptionChoice(text: String)
    ensures var ss := LongSentences(SplitSentences(text));
      var joined := Join(TrimAll(ss)[..FitCount(TrimAll(ss), 0)], ". ");
      && (|joined| >= 100 ==> DescriptionOf(text) == joined)
      && (|joined| < 100 ==>
            DescriptionOf(text) == if FallbackOf(text) != [] then FallbackOf(text) else "Read this article by Ivan Tregear")
  {
    AcceptedSentences(text);
  }

  lemma {:induction false} FitCountStops(ts: seq<String>, k: nat)
    requires k <= |ts|
    requires |Join(ts[..k], ". ")| <= MaxDescription
    decreases |ts| - k
    ensures |Join(ts[..FitCount(ts, k)], ". ")| <= MaxDescription
    ensures FitCount(ts, k) < |ts| ==> |Join(ts[..FitCount(ts, k) + 1], ". ")| > MaxDescription
  {
    if k < |ts| && |Join(ts[..k + 1], ". ")| <= MaxDescription {
      FitCountStops(ts, k + 1);
    }
  }

  /**
   * `createCleanDescription`, as the script runs it: the sentence loop, then
   * the fallback to the first 300 characters, then the fixed sentence.
   */
  method CleanDescription(content: String, title: String) returns (description: String)
    ensures description == Description(content)
  {
    var text := StaticText(content);
    description := DescribeText(text);
  }

  /** The body of `createCleanDescription` once the markup is stripped (scripts/generate-static-html.js, lines 56-81). */
  method DescribeText(text: String) returns (description: String)
    ensures description == DescriptionOf(text)
  {
    var sentences := LongSentences(SplitSentences(text));
    var accumulated := AccumulateSentences(sentences);
    description := accumulated;
    if |accumulated| < 100 {
      description := FallbackDescription(text);
    }
    assert description == if |Grow([], sentences)| < 100 then FallbackOf(text) else Grow([], sentences);
    if description == [] {
      description := "Read this article by Ivan Tregear";
    }
  }

  /** The fallback for a short result (the `if (description.length < 100)` block): the text's first 300 characters, trimmed, cut at the last space beyond index 100. */
  method FallbackDescription(text: String) returns (description: String)
    ensures description == FallbackOf(text)
  {
    description := Trim(Take(text, MaxDescription));
    var lastSpace := LastIndexOf(description, ' ');
    if lastSpace > 100 {
      description := description[..lastSpace];
    }
  }

  /** The `for (const sentence of sentences)` loop: accumulate into `description`, and break at the first sentence that does not fit. */
  method AccumulateSentences(sentences: seq<String>) returns (description: String)
    ensures description == Grow([], sentences)
  {
    description := [];
    var i := 0;
    while i < |sentences|
      invariant 0 <= i <= |sentences|
      invariant Grow(description, sentences[i..]) == Grow([], sentences)
    {
      var cleanSentence := Trim(sentences[i]);
      var potentialDescription := description + (if description != [] then ". " else []) + cleanSentence;
      if |potentialDescription| <= MaxDescription {
        description := potentialDescription;
      } else {
        break;
      }
      i := i + 1;
    }
  }

  /** The page an article gets: its metadata and its structured data. */
  datatype StaticPage = StaticPage(meta: PageMeta, data: ArticleData)

  /**
   * The records `generateHTML` interpolates into the page: the extracted
   * image or the default one, the canonical address, and an Article record
   * that agrees with them.
   */
  function PageFor(article: Article, assets: Option<seq<String>>): (p: StaticPage)
    ensures var img := FirstImageUrl(article.content, assets);
      p.meta.image == (if img.Some? then img.value else DefaultImage)
    ensures p.meta.url == ArticleUrl(article.slug) && p.data.pageId == p.meta.url
    ensures p.meta.title == p.data.headline == article.title
    ensures p.data.datePublished == p.data.dateModified == article.date
    ensures 0 < |p.meta.description| <= MaxDescription
    ensures p.meta.description == Description(article.content)
    ensures p.meta.pageType == "article" && p.meta.author == Author
    ensures p.meta.publishedTime == article.date
    ensures p.data == ArticleDataOf(p.meta)
  {
    var image := FirstImageUrl(article.content, assets);
    var meta := PageMeta(article.title, Description(article.content),
      if image.Some? && image.value != [] then image.value else DefaultImage,
      ArticleUrl(article.slug), "article", article.date, Author);
    StaticPage(meta, ArticleDataOf(meta))
  }

  /** The article record built for one listed file. */
  function ArticleFromFile(file: String, read: String -> Doc): (a: Article)
    ensures a.slug == SlugOf(file) && a.content == read(file).body
  {
    ArticleOf(SlugOf(file), read(file), read(file).body)
  }

  /** The articles written for the given files, in order: a later file with the same slug overwrites an earlier one. */
  function Written(files: seq<String>, article: String -> Article): map<String, Article>
  {
    if files == [] then map[]
    else
      var file := files[|files| - 1];
      Written(files[..|files| - 1], article)[SlugOf(file) := article(file)]
  }

  /** Exactly one page per slug of a listed file. */
  lemma {:induction false} WrittenKeys(files: seq<String>, article: String -> Article)
    ensures Written(files, article).Keys == set f | f in files :: SlugOf(f)
  {
    if files != [] {
      var p := files[..|files| - 1];
      WrittenKeys(p, article);
      assert files == p + [files[|files| - 1]];
      assert (set f | f in files :: SlugOf(f)) == (set f | f in p :: SlugOf(f)) + {SlugOf(files[|files| - 1])};
    }
  }

  /** The page under a slug is the one built from the last file with that slug. */
  lemma {:induction false} LastFileWins(files: seq<String>, article: String -> Article, i: nat)
    requires i < |files|
    requires forall j :: i < j < |files| ==> SlugOf(files[j]) != SlugOf(files[i])
    ensures SlugOf(files[i]) in Written(files, article)
    ensures Written(files, article)[SlugOf(files[i])] == article(files[i])
  {
    if i < |files| - 1 {
      LastFileWins(files[..|files| - 1], article, i);
    }
  }

  /**
   * The page under a slug comes from the last ".md" file of the listing with
   * that slug: the filter keeps the listing order, so a later file overwrites.
   */
  lemma LastListedFileWins(files: seq<String>, article: String -> Article, i: nat)
    requires i < |files| && EndsWith(files[i], ".md")
    requires forall j :: i < j < |files| && EndsWith(files[j], ".md") ==> SlugOf(files[j]) != SlugOf(files[i])
    ensures SlugOf(files[i]) in Written(MarkdownFiles(files), article)
    ensures Written(MarkdownFiles(files), article)[SlugOf(files[i])] == article(files[i])
  {
    var r := MarkdownFiles(files);
    var a := ListedAt(files, i);
    forall j | a < j < |r| ensures SlugOf(r[j]) != SlugOf(r[a]) {
      var m :| i < m < |files| && files[m] == r[j];
      assert r[j] in r;
    }
    LastFileWins(r, article, a);
  }

  /** A ".md" file keeps its place among the filtered files: only files listed after it follow it. */
  lemma ListedAt(files: seq<String>, i: nat) returns (a: nat)
    requires i < |files| && EndsWith(files[i], ".md")
    ensures a < |MarkdownFiles(files)| && MarkdownFiles(files)[a] == files[i]
    ensures forall j :: a < j < |MarkdownFiles(files)| ==> exists m :: i < m < |files| && files[m] == MarkdownFiles(files)[j]
  {
    var r := MarkdownFiles(files);
    var b := MarkdownFiles(files[i + 1..]);
    a := |MarkdownFiles(files[..i])|;
    assert r == MarkdownFiles(files[..i]) + [files[i]] + b by {
      assert files == files[..i] + ([files[i]] + files[i + 1..]);
      MarkdownFilesAppend(files[..i], [files[i]] + files[i + 1..]);
      MarkdownFilesAppend([files[i]], files[i + 1..]);
    }
    assert r[a] == files[i] && r[a + 1..] == b;
    ListedLater(files, i, r, a);
  }

  /** The filtered files after position `a` are files listed after position `i`. */
  lemma ListedLater(files: seq<String>, i: nat, r: seq<String>, a: nat)
    requires i < |files| && a < |r| && r[a + 1..] == MarkdownFiles(files[i + 1..])
    ensures forall j :: a < j < |r| ==> exists m :: i < m < |files| && files[m] == r[j]
  {
    var after := files[i + 1..];
    forall j | a < j < |r| ensures exists m :: i < m < |files| && files[m] == r[j] {
      assert r[j] == r[a + 1..][j - a - 1];
      assert r[j] in MarkdownFiles(after);
      var m :| 0 <= m < |after| && after[m] == r[j];
      assert files[i + 1 + m] == r[j];
    }
  }

  /**
   * `generateStaticHTML()`: nothing is written when the article directory is
   * missing; otherwise every ".md" file is read and a page written under
   * thoughts/<slug>/index.html. The result maps each written slug to the
   * article its page was generated from; `PageFor` gives that page's records.
   */
  method GenerateStaticHtml(listing: Option<seq<String>>, read: String -> Doc)
    returns (written: map<String, Article>)
    ensures listing.None? ==> written == map[]
    ensures listing.Some? ==> written == Written(MarkdownFiles(listing.value), file => ArticleFromFile(file, read))
  {
    written := map[];
    if listing.None? {
      return;
    }
    var markdownFiles := MarkdownFiles(listing.value);
    var i := 0;
    while i < |markdownFiles|
      invariant 0 <= i <= |markdownFiles|
      invariant written == Written(markdownFiles[..i], file => ArticleFromFile(file, read))
    {
      var file := markdownFiles[i];
      var slug := SlugOf(file);
      var doc := read(file);
      var article := ArticleOf(slug, doc, doc.body);
      written := written[slug := article];
      assert markdownFiles[..i + 1][..i] == markdownFiles[..i];
      i := i + 1;
    }
    assert markdownFiles[..i] == markdownFiles;
  }
}

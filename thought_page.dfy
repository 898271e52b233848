/**
 * The server-side data hook of an article page: the image lookup against the
 * image directory, the preview image, the 150-character description that
 * leaves out sentences naming the title's first word, the rewrite of relative
 * image references, and the page metadata.
 */
module ThoughtPage {
  import opened Results
  import opened Text
  import opened Patterns
  import opened Content
  import StaticHtml

  /**
   * `getThoughtsImageUrl(imageName)`: the served address of an image that
   * exists in the image directory, and nothing for one that does not.
   * `existing` holds the names of the files in that directory.
   */
  function ImageUrl(name: String, existing: set<String>): (r: Option<String>)
    ensures r.Some? <==> name in existing
    ensures r.Some? ==> StartsWith(r.value, ImagesDir) && r.value[|ImagesDir|..] == name
  {
    if name in existing then
      assert (ImagesDir + name)[..|ImagesDir|] == ImagesDir;
      Some(ImagesDir + name)
    else None
  }

  /**
   * `extractFirstImage(content)`: the first `./images/` image when its file
   * exists, on the site's domain; otherwise the first image of any kind when
   * its target is absolute; otherwise none.
   */
  function FirstImageUrl(content: String, existing: set<String>): (r: Option<String>)
    ensures r.Some? ==> r.value != []
  {
    var relative := FirstImage(content, "](./images/");
    var url := if relative.Some? then ImageUrl(relative.value.target, existing) else None;
    if url.Some? then Some(Domain + url.value)
    else
      var any := FirstImage(content, "](");
      if any.None? then None else AbsoluteImage(any.value.target)
  }

  /** Content without any `![..](..)` has no preview image. */
  lemma NoImageNoUrl(content: String, existing: set<String>)
    requires FirstImage(content, "](").None?
    ensures FirstImageUrl(content, existing).None?
  {
    NoImageNoRelative(content);
  }

  /** The first relative image wins over every other image when its file exists. */
  lemma ExistingRelativeWins(content: String, existing: set<String>)
    requires FirstImage(content, "](./images/").Some?
    requires FirstImage(content, "](./images/").value.target in existing
    ensures FirstImageUrl(content, existing) == Some(Domain + ImagesDir + FirstImage(content, "](./images/").value.target)
  {
    var name := FirstImage(content, "](./images/").value.target;
    assert ImageUrl(name, existing) == Some(ImagesDir + name);
    assert Domain + (ImagesDir + name) == Domain + ImagesDir + name;
  }

  /**
   * A relative image whose file is missing does not end the search: the
   * preview comes from the first image of any kind, as when there is no
   * relative image at all.
   */
  lemma MissingRelativeFallsThrough(content: String, existing: set<String>)
    requires FirstImage(content, "](./images/").None? || FirstImage(content, "](./images/").value.target !in existing
    ensures var any := FirstImage(content, "](");
      FirstImageUrl(content, existing) == if any.None? then None else AbsoluteImage(any.value.target)
  {
  }

  /** The description bound of this page: 150 characters, not counting the ". " before the last sentence. */
  const MaxShort: nat := 150

  /** `title.toLowerCase().split(' ')[0]`: the title's first word, in lower case. */
  function FirstWord(title: String): String {
    FirstPiece(ToLower(title), " ")
  }

  /** A fragment the loop takes: longer than 10 characters once trimmed, and not mentioning the title's first word. */
  predicate Qualifies(sentence: String, word: String) {
    |Trim(sentence)| > 10 && !Contains(ToLower(Trim(sentence)), word)
  }

  /** `sentences.filter(s => s.trim().length > 0)` */
  function NonBlank(ss: seq<String>): seq<String>
  {
    if ss == [] then []
    else if |Trim(ss[0])| > 0 then [ss[0]] + NonBlank(ss[1..])
    else NonBlank(ss[1..])
  }

  /** Every fragment kept is non-blank once trimmed, and none is added. */
  lemma {:induction false} NonBlankKept(ss: seq<String>)
    ensures forall i :: 0 <= i < |NonBlank(ss)| ==> Trim(NonBlank(ss)[i]) != []
    ensures |NonBlank(ss)| <= |ss|
  {
    if ss != [] {
      NonBlankKept(ss[1..]);
      var rest := NonBlank(ss[1..]);
      if |Trim(ss[0])| > 0 {
        var r := [ss[0]] + rest;
        assert NonBlank(ss) == r;
        forall i | 0 <= i < |r| ensures Trim(r[i]) != [] {
          if i > 0 {
            assert r[i] == rest[i - 1];
          }
        }
      }
    }
  }

  /**
   * The sentence loop: fragments that do not qualify are passed over; a
   * qualifying one is appended (after ". " unless it is the first) while the
   * description and it together stay under 150 characters, and the first one
   * that does not ends the loop.
   */
  function Gather(desc: String, ss: seq<String>, word: String): String
    decreases |ss|
  {
    if ss == [] then desc
    else if !Qualifies(ss[0], word) then Gather(desc, ss[1..], word)
    else if |desc| + |Trim(ss[0])| < MaxShort then Gather(StaticHtml.Extend(desc, Trim(ss[0])), ss[1..], word)
    else desc
  }

  /**
   * `createCleanDescription(content, title)` of the article page: the gathered
   * sentences, or else the first 150 characters of the cleaned text, trimmed.
   * The separator is not counted against the bound, so a result can reach 151
   * characters; the fallback stays within 150, and it is empty when the text is.
   */
  function ShortDescription(content: String, title: String): (r: String)
    ensures |r| <= MaxShort + 1
    ensures var d := Gather([], NonBlank(SplitSentences(StaticHtml.StaticText(content))), FirstWord(title));
      (d != [] ==> r == d) && (d == [] ==> r == Trim(Take(StaticHtml.StaticText(content), MaxShort)) && |r| <= MaxShort)
  {
    var text := StaticHtml.StaticText(content);
    var d := Gather([], NonBlank(SplitSentences(text)), FirstWord(title));
    GatherBound([], NonBlank(SplitSentences(text)), FirstWord(title));
    if d != [] then d else Trim(Take(text, MaxShort))
  }

  /** Each appended sentence leaves the description at most 151 characters long. */
  lemma {:induction false} GatherBound(desc: String, ss: seq<String>, word: String)
    requires |desc| <= MaxShort + 1
    decreases |ss|
    ensures |Gather(desc, ss, word)| <= MaxShort + 1
  {
    if ss != [] {
      if !Qualifies(ss[0], word) {
        GatherBound(desc, ss[1..], word);
      } else if |desc| + |Trim(ss[0])| < MaxShort {
        GatherBound(StaticHtml.Extend(desc, Trim(ss[0])), ss[1..], word);
      }
    }
  }

  /** `createCleanDescription` as the page runs it (pages/thoughts/@slug/index.page.server.tsx, lines 43-70): a loop with `continue` for unqualified fragments and `break` at the bound. */
  method CleanDescription(content: String, title: String) returns (description: String)
    ensures description == ShortDescription(content, title)
  {
    var text := StaticHtml.StaticText(content);
    var sentences := NonBlank(SplitSentences(text));
    description := GatherSentences(sentences, FirstWord(title));
    if description == [] {
      description := Trim(Take(text, MaxShort));
    }
  }

  /** The `for (const sentence of sentences)` loop itself (lines 56-67 of the same file), over the non-blank fragments. */
  method GatherSentences(sentences: seq<String>, word: String) returns (description: String)
    ensures description == Gather([], sentences, word)
  {
    description := [];
    var i := 0;
    while i < |sentences|
      invariant 0 <= i <= |sentences|
      invariant Gather(description, sentences[i..], word) == Gather([], sentences, word)
    {
      var cleanSentence := Trim(sentences[i]);
      assert sentences[i..][1..] == sentences[i + 1..];
      if |cleanSentence| > 10 && !Contains(ToLower(cleanSentence), word) {
        if |description| + |cleanSentence| < MaxShort {
          description := description + (if description != [] then ". " else []) + cleanSentence;
        } else {
          break;
        }
      }
      i := i + 1;
    }
  }

  /** The fragments the loop considers at all: the qualifying ones, in order. */
  function Qualifying(ss: seq<String>, word: String): (r: seq<String>)
    ensures forall i :: 0 <= i < |r| ==> Qualifies(r[i], word)
    ensures |r| <= |ss|
  {
    if ss == [] then []
    else if Qualifies(ss[0], word) then [ss[0]] + Qualifying(ss[1..], word)
    else Qualifying(ss[1..], word)
  }

  /** The greedy accumulation over the trimmed qualifying sentences, stopping at the first that does not fit. */
  function Fit(desc: String, ts: seq<String>): String
    decreases |ts|
  {
    if ts == [] then desc
    else if |desc| + |ts[0]| < MaxShort then Fit(StaticHtml.Extend(desc, ts[0]), ts[1..])
    else desc
  }

  /** Unqualified fragments never matter: the loop is the greedy accumulation over the qualifying ones. */
  lemma {:induction false} GatherIsFit(desc: String, ss: seq<String>, word: String)
    decreases |ss|
    ensures Gather(desc, ss, word) == Fit(desc, StaticHtml.TrimAll(Qualifying(ss, word)))
  {
    if ss != [] {
      QualifyingStep(ss, word);
      var rest := StaticHtml.TrimAll(Qualifying(ss[1..], word));
      if !Qualifies(ss[0], word) {
        GatherIsFit(desc, ss[1..], word);
      } else {
        var ts := [Trim(ss[0])] + rest;
        assert ts[0] == Trim(ss[0]) && ts[1..] == rest;
        if |desc| + |Trim(ss[0])| < MaxShort {
          GatherIsFit(StaticHtml.Extend(desc, Trim(ss[0])), ss[1..], word);
        }
      }
    }
  }

  /** One fragment of the qualifying list: kept and trimmed when it qualifies, passed over otherwise. */
  lemma QualifyingStep(ss: seq<String>, word: String)
    requires ss != []
    ensures Qualifies(ss[0], word) ==>
      StaticHtml.TrimAll(Qualifying(ss, word)) == [Trim(ss[0])] + StaticHtml.TrimAll(Qualifying(ss[1..], word))
    ensures !Qualifies(ss[0], word) ==> Qualifying(ss, word) == Qualifying(ss[1..], word)
  {
    if Qualifies(ss[0], word) {
      var q := [ss[0]] + Qualifying(ss[1..], word);
      assert Qualifying(ss, word) == q;
      assert q[0] == ss[0] && q[1..] == Qualifying(ss[1..], word);
    }
  }

  /** How many leading sentences are taken, counted from `k`: the next is taken while the joined text and it stay under 150. */
  function TakenCount(ts: seq<String>, k: nat): (n: nat)
    requires k <= |ts|
    decreases |ts| - k
    ensures k <= n <= |ts|
  {
    if k == |ts| || |Join(ts[..k], ". ")| + |ts[k]| >= MaxShort then k else TakenCount(ts, k + 1)
  }

  /** From the `k`-th sentence on, the accumulation continues the join of the first `k`. */
  lemma {:induction false} FitJoins(ts: seq<String>, k: nat)
    requires k <= |ts|
    requires forall i :: 0 <= i < |ts| ==> ts[i] != []
    decreases |ts| - k
    ensures Fit(Join(ts[..k], ". "), ts[k..]) == Join(ts[..TakenCount(ts, k)], ". ")
  {
    if k < |ts| {
      assert ts[k..][0] == ts[k] && ts[k..][1..] == ts[k + 1..];
      if |Join(ts[..k], ". ")| + |ts[k]| < MaxShort {
        StaticHtml.JoinStep(ts, k);
        FitJoins(ts, k + 1);
      }
    }
  }

  /**
   * What the sentence loop keeps, stated without the loop: the first
   * `n` qualifying sentences, trimmed and joined by ". ", where the next
   * qualifying sentence would have reached the bound.
   */
  lemma AcceptedSentences(text: String, word: String)
    ensures var qs := Qualifying(NonBlank(SplitSentences(text)), word);
      var ts := StaticHtml.TrimAll(qs);
      var n := TakenCount(ts, 0);
      && Gather([], NonBlank(SplitSentences(text)), word) == Join(ts[..n], ". ")
      && (n < |ts| ==> |Join(ts[..n], ". ")| + |ts[n]| >= MaxShort)
  {
    AcceptedOf(NonBlank(SplitSentences(text)), word);
  }

  /** `AcceptedSentences` for any list of fragments. */
  lemma AcceptedOf(ss: seq<String>, word: String)
    ensures var ts := StaticHtml.TrimAll(Qualifying(ss, word));
      var n := TakenCount(ts, 0);
      && Gather([], ss, word) == Join(ts[..n], ". ")
      && (n < |ts| ==> |Join(ts[..n], ". ")| + |ts[n]| >= MaxShort)
  {
    var ts := StaticHtml.TrimAll(Qualifying(ss, word));
    GatherIsFit([], ss, word);
    assert ts[..0] == [] && ts[0..] == ts;
    FitJoins(ts, 0);
    TakenCountStops(ts, 0);
  }

  lemma {:induction false} TakenCountStops(ts: seq<String>, k: nat)
    requires k <= |ts|
    decreases |ts| - k
    ensures TakenCount(ts, k) < |ts| ==> |Join(ts[..TakenCount(ts, k)], ". ")| + |ts[TakenCount(ts, k)]| >= MaxShort
  {
    if k < |ts| && |Join(ts[..k], ". ")| + |ts[k]| < MaxShort {
      TakenCountStops(ts, k + 1);
    }
  }

  /** Every string includes the empty one, so a title whose first word is empty rules out every sentence. */
  lemma {:induction false} EmptyWordGathersNothing(ss: seq<String>)
    decreases |ss|
    ensures Gather([], ss, []) == []
  {
    if ss != [] {
      assert OccursAt(ToLower(Trim(ss[0])), [], 0);
      EmptyWordGathersNothing(ss[1..]);
    }
  }

  /** A title that is empty or starts with a space leaves only the fallback text. */
  lemma EmptyFirstWord(content: String, title: String)
    requires FirstWord(title) == []
    ensures ShortDescription(content, title) == Trim(Take(StaticHtml.StaticText(content), MaxShort))
  {
    EmptyWordGathersNothing(NonBlank(SplitSentences(StaticHtml.StaticText(content))));
  }

  /** Unlike the build script's description, this one is empty when nothing is left of the text. */
  lemma EmptyTextEmptyDescription(content: String, title: String)
    requires StaticHtml.StaticText(content) == []
    ensures ShortDescription(content, title) == []
  {
    var text := StaticHtml.StaticText(content);
    assert NonBlank(SplitSentences(text)) == [] by {
      var ss := SplitSentences([]);
      assert ss == [[]];
      assert NonBlank(ss) == NonBlank(ss[1..]);
    }
    assert Take(text, MaxShort) == [];
  }

  /** The rewrite of relative image references, with existence decided by the image directory. */
  function Resolver(existing: set<String>): String -> Option<String> {
    name => ImageUrl(name, existing)
  }

  /**
   * `body.replace(/!\[(.*?)\]\(\.\/images\/(.*?)\)/g, …)`: a relative image whose
   * file exists points at the served image, keeping its alt text; one whose file
   * is missing stays as written.
   */
  function RewriteImages(body: String, existing: set<String>): String {
    Replace(LocalImages(Resolver(existing)), body)
  }

  /** One relative image at the front is rewritten, or kept when its file is missing; the rest is rewritten on its own. */
  lemma ImageRewritten(alt: String, name: String, rest: String, existing: set<String>)
    requires PlainRef(alt, name)
    ensures name in existing ==>
      RewriteImages("![" + alt + "](./images/" + name + ")" + rest, existing)
        == "![" + alt + "](" + ImagesDir + name + ")" + RewriteImages(rest, existing)
    ensures name !in existing ==>
      RewriteImages("![" + alt + "](./images/" + name + ")" + rest, existing)
        == "![" + alt + "](./images/" + name + ")" + RewriteImages(rest, existing)
  {
    LocalImageRewritten(alt, name, rest, Resolver(existing));
  }

  /** When none of the referenced images exists, the body is left exactly as it is. */
  lemma MissingImagesKept(body: String, existing: set<String>)
    requires forall i :: 0 <= i < |body| && ImageAt(body[i..], "](./images/").Some? ==>
      ImageAt(body[i..], "](./images/").value.target !in existing
    ensures RewriteImages(body, existing) == body
  {
    UnresolvedKept(body, Resolver(existing), true);
  }

  /** What the page receives: the article and its metadata. */
  datatype PageProps = PageProps(article: Article, meta: PageMeta)

  /**
   * `onBeforeRender` for the route's slug. `docs` maps the slug of every
   * article file to its parsed front matter and body; `existing` names the
   * files of the image directory.
   */
  function OnBeforeRender(slug: String, docs: map<String, Doc>, existing: set<String>): (r: Result<PageProps, String>)
    ensures r.Err? <==> slug !in docs
    ensures r.Err? ==> r.error == "Article not found: " + slug
    ensures r.Ok? ==> var a := r.value.article;
      && a == ArticleOf(slug, docs[slug], RewriteImages(docs[slug].body, existing))
      && r.value.meta.title == a.title + " - Ivan Tregear"
      && r.value.meta.url == ArticleUrl(slug)
      && r.value.meta.description == ShortDescription(a.content, a.title)
      && r.value.meta.image == (if FirstImageUrl(a.content, existing).Some? then FirstImageUrl(a.content, existing).value else DefaultImage)
      && r.value.meta.pageType == "article" && r.value.meta.publishedTime == a.date && r.value.meta.author == Author
  {
    if slug !in docs then Err("Article not found: " + slug)
    else
      var doc := docs[slug];
      var article := ArticleOf(slug, doc, RewriteImages(doc.body, existing));
      var image := FirstImageUrl(article.content, existing);
      Ok(PageProps(article, PageMeta(
        article.title + " - Ivan Tregear",
        ShortDescription(article.content, article.title),
        if image.Some? then image.value else DefaultImage,
        ArticleUrl(article.slug), "article", article.date, Author)))
  }
}

/**
 * The client-side article page: the article is looked up among the bundled
 * markdown files, its relative images are pointed at the bundled image files,
 * and the page's head properties are derived from it.
 */
module ArticlePage {
  import opened Results
  import opened Text
  import opened Patterns
  import opened Content
  import Seo

  /** The bundle key of an article's markdown file. */
  function ArticlePath(slug: String): String {
    "/src/assets/thoughts/" + slug + ".md"
  }

  /**
   * The resolver the rewrite uses: every relative image name resolves, to the
   * address `new URL(…, import.meta.url)` gives its file in the image
   * directory (`href` is a parameter).
   */
  function BundledImages(href: String -> String): String -> Option<String> {
    name => Some(href(ImagesDir + name))
  }

  /** `body.replace(/!\[(.*?)\]\(\.\/images\/(.*?)\)/g, …)`. */
  function RewriteBody(body: String, href: String -> String): String {
    Replace(LocalImages(BundledImages(href)), body)
  }

  /** A relative image at the front keeps its alt text and points at its bundled file; the rest is rewritten on its own. */
  lemma ImageRewritten(alt: String, name: String, rest: String, href: String -> String)
    requires PlainRef(alt, name)
    ensures RewriteBody("![" + alt + "](./images/" + name + ")" + rest, href)
      == "![" + alt + "](" + href(ImagesDir + name) + ")" + RewriteBody(rest, href)
  {
    LocalImageRewritten(alt, name, rest, BundledImages(href));
  }

  /** A body with no relative image anywhere is left exactly as it is. */
  lemma NoImageUnchanged(body: String, href: String -> String)
    requires forall i :: 0 <= i < |body| ==> ImageAt(body[i..], "](./images/").None?
    ensures RewriteBody(body, href) == body
  {
    UnresolvedKept(body, BundledImages(href), true);
  }

  /**
   * What loading the article for `slug` produces. `files` maps each bundled
   * markdown path to its front-matter result, or to nothing when reading or
   * parsing it throws.
   */
  function LoadArticle(slug: String, files: map<String, Option<Doc>>, href: String -> String): (r: Option<Article>)
    ensures r.None? <==> ArticlePath(slug) !in files || files[ArticlePath(slug)].None?
    ensures r.Some? ==> var doc := files[ArticlePath(slug)].value;
      r.value == ArticleOf(slug, doc, RewriteBody(doc.body, href))
  {
    var path := ArticlePath(slug);
    if path !in files || files[path].None? then None
    else
      var doc := files[path].value;
      Some(ArticleOf(slug, doc, RewriteBody(doc.body, href)))
  }

  /** The page's article state (`useState<Article | null>`). */
  class ArticleState {
    var article: Option<Article>

    constructor ()
      ensures article.None?
    {
      article := None;
    }

    /** `fetchArticle()` for the current slug: each branch sets the state. */
    method FetchArticle(slug: String, files: map<String, Option<Doc>>, href: String -> String)
      modifies this
      ensures article == LoadArticle(slug, files, href)
    {
      var path := ArticlePath(slug);
      if path !in files {
        article := None;
        return;
      }
      var loaded := files[path];
      if loaded.None? {
        article := None;
      } else {
        var doc := loaded.value;
        var body := RewriteBody(doc.body, href);
        article := Some(ArticleOf(slug, doc, body));
      }
    }
  }

  const NotFoundTitle: String := "Article Not Found - Ivan Tregear"
  const NotFoundDescription: String := "The requested article could not be found."

  /** The description of an article page: its title, the author, and the first 160 characters of its content. */
  function SeoDescription(a: Article): (d: String)
    ensures StartsWith(d, a.title + " by Ivan Tregear. ") && EndsWith(d, "...")
    ensures |d| == |a.title| + 18 + (if |a.content| < 160 then |a.content| else 160) + 3
    ensures d[|a.title| + 18..|d| - 3] == Take(a.content, 160)
  {
    var head := a.title + " by Ivan Tregear. ";
    var middle := Take(a.content, 160);
    var d := head + middle + "...";
    assert d[..|head|] == head;
    assert d[|d| - 3..] == "...";
    assert d[|head|..|d| - 3] == middle;
    d
  }

  /**
   * The head properties of the page: for an article, its title with the
   * author, the description above, the article's address, the "article" type,
   * its date and the author; for a missing article, the not-found title, the
   * "website" type, and the address built from the requested slug.
   */
  function PageSeo(slug: String, article: Option<Article>): Seo.SeoProps
  {
    match article
    case None => Seo.SeoProps(Some(NotFoundTitle), Some(NotFoundDescription), None, Some(ArticleUrl(slug)), Some("website"), None, None, None)
    case Some(a) => Seo.SeoProps(Some(a.title + " - Ivan Tregear"), Some(SeoDescription(a)), None,
      Some(ArticleUrl(a.slug)), Some("article"), Some(a.date), None, Some(Author))
  }

  /**
   * Whatever loading gives, the page's canonical address is the one of the
   * requested slug; it is an article page exactly when the article loaded, and
   * then its structured data names that address and the article's title.
   */
  lemma PageAddressIsSlug(slug: String, files: map<String, Option<Doc>>, href: String -> String)
    ensures var article := LoadArticle(slug, files, href);
      var head := Seo.HeadOf(PageSeo(slug, article));
      && head.canonical == ArticleUrl(slug)
      && (head.structuredData.ArticleLd? <==> article.Some?)
      && (article.Some? ==>
            head.structuredData.pageId == ArticleUrl(slug) &&
            head.structuredData.headline == article.value.title + " - Ivan Tregear")
  {
    var article := LoadArticle(slug, files, href);
    var s := Seo.Resolve(PageSeo(slug, article));
    if article.None? {
      assert s.pageType == "website";
      assert !Seo.IsArticle(s) by {
        assert s.pageType[0] != "article"[0];
      }
    } else {
      assert Seo.IsArticle(s);
    }
  }

  /**
   * A loaded article's head: its title with the author's name, the description
   * built from its content, the article tags for its date (when it has one)
   * and its author, and the structured data's publication date.
   */
  lemma LoadedArticleHead(slug: String, files: map<String, Option<Doc>>, href: String -> String)
    requires LoadArticle(slug, files, href).Some?
    ensures var a := LoadArticle(slug, files, href).value;
      var p := PageSeo(slug, Some(a));
      && Seo.HeadOf(p).title == a.title + " - Ivan Tregear"
      && Seo.MetaOf(p, Seo.DescriptionKey) == Some(SeoDescription(a))
      && (Seo.MetaOf(p, Seo.ArticlePublishedTime).Some? <==> a.date != [])
      && Seo.MetaOf(p, Seo.ArticleAuthor) == Some(Author)
      && Seo.HeadOf(p).structuredData.datePublished == Some(a.date)
      && Seo.HeadOf(p).structuredData.dateModified == Some(a.date)
  {
    var a := LoadArticle(slug, files, href).value;
    assert Seo.IsArticle(Seo.Resolve(PageSeo(slug, Some(a))));
  }

  /** An article that is not bundled gets the not-found head, whose address still names the slug. */
  lemma MissingArticleNotFound(slug: String, files: map<String, Option<Doc>>, href: String -> String)
    requires ArticlePath(slug) !in files
    ensures var p := PageSeo(slug, LoadArticle(slug, files, href));
      && Seo.HeadOf(p).title == NotFoundTitle
      && Seo.HeadOf(p).canonical == Domain + "/thoughts/" + slug
      && Seo.HeadOf(p).structuredData == Seo.AuthorPerson
  {
    var s := Seo.Resolve(PageSeo(slug, LoadArticle(slug, files, href)));
    assert !Seo.IsArticle(s) by {
      assert s.pageType[0] != "article"[0];
    }
  }
}

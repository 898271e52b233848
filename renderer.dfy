/**
 * The server renderer: the list of article addresses to prerender, and the
 * document each page is rendered into (its head records, not its HTML text).
 */
module Renderer {
  import opened Results
  import opened Text
  import opened Content
  import StaticHtml
  import ThoughtPage

  /** The address of the article page for a markdown file, with the first ".md" of its name removed. */
  function PageUrl(file: String): String {
    "/thoughts/" + SlugOf(file)
  }

  /** `markdownFiles.map(…)`: one address per file, in order. */
  function UrlsOf(files: seq<String>): (r: seq<String>)
    ensures |r| == |files|
  {
    if files == [] then [] else [PageUrl(files[0])] + UrlsOf(files[1..])
  }

  lemma {:induction false} UrlsOfAt(files: seq<String>, i: nat)
    requires i < |files|
    ensures UrlsOf(files)[i] == PageUrl(files[i])
  {
    if i > 0 {
      UrlsOfAt(files[1..], i - 1);
    }
  }

  /** `onBeforePrerenderStart()`: no addresses without the article directory, otherwise one per ".md" file. */
  function PrerenderUrls(listing: Option<seq<String>>): seq<String>
  {
    if listing.None? then [] else UrlsOf(MarkdownFiles(listing.value))
  }

  /**
   * The addresses, in listing order, are those of the ".md" files: the i-th
   * one belongs to the i-th of them.
   */
  lemma PrerenderOnePerFile(listing: Option<seq<String>>)
    ensures listing.None? ==> PrerenderUrls(listing) == []
    ensures listing.Some? ==> var files := MarkdownFiles(listing.value);
      && |PrerenderUrls(listing)| == |files|
      && forall i :: 0 <= i < |files| ==> PrerenderUrls(listing)[i] == "/thoughts/" + SlugOf(files[i])
  {
    if listing.Some? {
      var files := MarkdownFiles(listing.value);
      forall i | 0 <= i < |files| ensures PrerenderUrls(listing)[i] == "/thoughts/" + SlugOf(files[i]) {
        UrlsOfAt(files, i);
      }
    }
  }

  /** Every address prerendered names a page the static generator writes, and every written page is prerendered. */
  lemma PrerenderMatchesGenerated(listing: seq<String>, article: String -> Article, slug: String)
    ensures "/thoughts/" + slug in PrerenderUrls(Some(listing)) <==>
      slug in StaticHtml.Written(MarkdownFiles(listing), article)
  {
    var files := MarkdownFiles(listing);
    StaticHtml.WrittenKeys(files, article);
    PrerenderOnePerFile(Some(listing));
    if "/thoughts/" + slug in PrerenderUrls(Some(listing)) {
      var i :| 0 <= i < |files| && PrerenderUrls(Some(listing))[i] == "/thoughts/" + slug;
      assert ("/thoughts/" + slug)[10..] == slug;
      assert ("/thoughts/" + SlugOf(files[i]))[10..] == SlugOf(files[i]);
      assert files[i] in files;
    }
    if slug in StaticHtml.Written(files, article) {
      var f :| f in files && SlugOf(f) == slug;
      var i :| 0 <= i < |files| && files[i] == f;
      assert PrerenderUrls(Some(listing))[i] == "/thoughts/" + slug;
    }
  }

  /** The rendered document: a minimal one without page metadata, otherwise one carrying the metadata and its structured data. */
  datatype Document =
    | Minimal(title: String)
    | Full(meta: PageMeta, data: ArticleData)

  /** `render(pageContext)`. */
  function Render(meta: Option<PageMeta>): (d: Document)
    ensures meta.None? <==> d.Minimal?
    ensures d.Minimal? ==> d.title == Author
    ensures d.Full? ==> d.meta == meta.value && d.data == ArticleDataOf(meta.value)
  {
    match meta
    case None => Minimal(Author)
    case Some(m) => Full(m, ArticleDataOf(m))
  }

  /**
   * An article page rendered from `onBeforeRender`'s metadata names its own
   * address, is headed by the page title, and counts as modified when it was
   * published.
   */
  lemma RenderedArticle(slug: String, docs: map<String, Doc>, existing: set<String>)
    requires slug in docs
    ensures var r := ThoughtPage.OnBeforeRender(slug, docs, existing);
      && r.Ok?
      && var d := Render(Some(r.value.meta));
      && d.Full?
      && d.data.pageId == ArticleUrl(slug)
      && d.data.headline == r.value.article.title + " - Ivan Tregear"
      && d.data.datePublished == d.data.dateModified == r.value.article.date
      && d.data.publisher == Author && d.data.author == Author
  {
  }
}

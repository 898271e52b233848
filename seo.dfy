/**
 * The document-head component: the page's properties with their defaults, the
 * schema.org record it embeds, and the head tags it emits.
 */
module Seo {
  import opened Results
  import opened Text
  import opened Content

  /** The component's properties; a missing one is `undefined`, which the defaults replace. */
  datatype SeoProps = SeoProps(
    title: Option<String>, description: Option<String>, image: Option<String>, url: Option<String>,
    pageType: Option<String>, publishedTime: Option<String>, modifiedTime: Option<String>, author: Option<String>)

  const SiteTitle: String := "Ivan Tregear - Engineer & Entrepreneur"
  const SiteDescription: String := "Personal website of Ivan Tregear, engineer and entrepreneur working on robotics and automation at KAIKAKU."
  const SiteUrl: String := "https://ivantregear.com/"

  /** The properties once the defaults are applied. */
  datatype Settings = Settings(
    title: String, description: String, image: String, url: String, pageType: String,
    publishedTime: Option<String>, modifiedTime: Option<String>, author: String)

  /** A default parameter: used only when the value is missing, not when it is empty. */
  function Default(x: Option<String>, d: String): (r: String)
    ensures x.Some? ==> r == x.value
    ensures x.None? ==> r == d
  {
    if x.Some? then x.value else d
  }

  /** The defaults of the component's parameter list. */
  function Resolve(p: SeoProps): (s: Settings)
    ensures s.title == Default(p.title, SiteTitle) && s.description == Default(p.description, SiteDescription)
    ensures s.image == Default(p.image, DefaultImage) && s.url == Default(p.url, SiteUrl)
    ensures s.pageType == Default(p.pageType, "website") && s.author == Default(p.author, Author)
    ensures s.publishedTime == p.publishedTime && s.modifiedTime == p.modifiedTime
  {
    Settings(Default(p.title, SiteTitle), Default(p.description, SiteDescription), Default(p.image, DefaultImage),
      Default(p.url, SiteUrl), Default(p.pageType, "website"), p.publishedTime, p.modifiedTime, Default(p.author, Author))
  }

  /** JavaScript truthiness of an optional string: present and not empty. */
  predicate Truthy(x: Option<String>) {
    x.Some? && x.value != []
  }

  /** The embedded schema.org record: an `Article`, or the fixed `Person` of the site's author. */
  datatype StructuredData =
    | ArticleLd(headline: String, description: String, image: String, authorName: String, publisherName: String,
                datePublished: Option<String>, dateModified: Option<String>, pageId: String)
    | PersonLd(name: String, jobTitle: String, worksFor: String, url: String, sameAs: seq<String>)

  const AuthorPerson: StructuredData := PersonLd(Author, "Chief Technology Officer", "KAIKAKU", SiteUrl,
    ["https://www.linkedin.com/in/ivantregear", "https://github.com/ITregear", "https://x.com/IvanTregear"])

  /**
   * `structuredData`: for an article page, an `Article` whose headline is the
   * title, whose page is the url, and which counts as modified when it was
   * published unless a modification time is given; for every other page the
   * author's `Person` record.
   */
  function StructuredDataOf(s: Settings): (d: StructuredData)
    ensures d.ArticleLd? <==> IsArticle(s)
    ensures d.ArticleLd? ==>
      && d.headline == s.title && d.description == s.description && d.image == s.image && d.pageId == s.url
      && d.authorName == s.author && d.publisherName == Author && d.datePublished == s.publishedTime
      && d.dateModified == (if Truthy(s.modifiedTime) then s.modifiedTime else s.publishedTime)
    ensures d.PersonLd? ==> d == AuthorPerson
  {
    if IsArticle(s) then
      ArticleLd(s.title, s.description, s.image, s.author, Author, s.publishedTime,
        if Truthy(s.modifiedTime) then s.modifiedTime else s.publishedTime, s.url)
    else AuthorPerson
  }

  /** The keys of the head's meta tags; `KeyName` gives each key as written in the page. */
  datatype Key =
    | TitleKey | DescriptionKey | AuthorKey | KeywordsKey | RobotsKey
    | OgSiteName | OgType | OgUrl | OgTitle | OgDescription | OgImage | OgImageWidth | OgImageHeight | OgLocale
    | TwitterCard | TwitterSite | TwitterCreator | TwitterUrl | TwitterTitle | TwitterDescription | TwitterImage
    | ArticlePublishedTime | ArticleModifiedTime | ArticleAuthor
    | ThemeColor | ColorScheme | SupportedColorSchemes

  function KeyName(k: Key): String {
    match k
    case TitleKey => "title"
    case DescriptionKey => "description"
    case AuthorKey => "author"
    case KeywordsKey => "keywords"
    case RobotsKey => "robots"
    case OgSiteName => "og:site_name"
    case OgType => "og:type"
    case OgUrl => "og:url"
    case OgTitle => "og:title"
    case OgDescription => "og:description"
    case OgImage => "og:image"
    case OgImageWidth => "og:image:width"
    case OgImageHeight => "og:image:height"
    case OgLocale => "og:locale"
    case TwitterCard => "twitter:card"
    case TwitterSite => "twitter:site"
    case TwitterCreator => "twitter:creator"
    case TwitterUrl => "twitter:url"
    case TwitterTitle => "twitter:title"
    case TwitterDescription => "twitter:description"
    case TwitterImage => "twitter:image"
    case ArticlePublishedTime => "article:published_time"
    case ArticleModifiedTime => "article:modified_time"
    case ArticleAuthor => "article:author"
    case ThemeColor => "theme-color"
    case ColorScheme => "color-scheme"
    case SupportedColorSchemes => "supported-color-schemes"
  }

  /** Whether the page is an article. */
  predicate IsArticle(s: Settings) {
    s.pageType == "article"
  }

  /**
   * The meta tag with key `k` in the rendered head: its content, or none when
   * the tag is not emitted. The description, url and title tags carry those
   * properties; an article tag is emitted exactly when the page is an article
   * and the value is truthy, and carries that value; every other tag is
   * always emitted.
   */
  function MetaContent(s: Settings, k: Key): (r: Option<String>)
    ensures k == DescriptionKey || k == OgDescription || k == TwitterDescription ==> r == Some(s.description)
    ensures k == OgUrl || k == TwitterUrl ==> r == Some(s.url)
    ensures k == OgTitle || k == TwitterTitle ==> r == Some(s.title)
    ensures k == ArticlePublishedTime ==>
      (r.Some? <==> IsArticle(s) && Truthy(s.publishedTime)) && (r.Some? ==> r == s.publishedTime)
    ensures k == ArticleModifiedTime ==>
      (r.Some? <==> IsArticle(s) && Truthy(s.modifiedTime)) && (r.Some? ==> r == s.modifiedTime)
    ensures k == ArticleAuthor ==>
      (r.Some? <==> IsArticle(s) && s.author != []) && (r.Some? ==> r == Some(s.author))
    ensures r.None? ==> k == ArticlePublishedTime || k == ArticleModifiedTime || k == ArticleAuthor
  {
    match k
    case TitleKey => Some(s.title)
    case DescriptionKey => Some(s.description)
    case AuthorKey => Some(s.author)
    case KeywordsKey => Some("Ivan Tregear, engineer, entrepreneur, robotics, automation, KAIKAKU, Fusion, robot")
    case RobotsKey => Some("index, follow")
    case OgSiteName => Some(Author)
    case OgType => Some(s.pageType)
    case OgUrl => Some(s.url)
    case OgTitle => Some(s.title)
    case OgDescription => Some(s.description)
    case OgImage => Some(s.image)
    case OgImageWidth => Some("1200")
    case OgImageHeight => Some("630")
    case OgLocale => Some("en_US")
    case TwitterCard => Some("summary_large_image")
    case TwitterSite => Some("@IvanTregear")
    case TwitterCreator => Some("@IvanTregear")
    case TwitterUrl => Some(s.url)
    case TwitterTitle => Some(s.title)
    case TwitterDescription => Some(s.description)
    case TwitterImage => Some(s.image)
    case ArticlePublishedTime => if IsArticle(s) && Truthy(s.publishedTime) then s.publishedTime else None
    case ArticleModifiedTime => if IsArticle(s) && Truthy(s.modifiedTime) then s.modifiedTime else None
    case ArticleAuthor => if IsArticle(s) && s.author != [] then Some(s.author) else None
    case ThemeColor => Some("#8B4513")
    case ColorScheme => Some("light")
    case SupportedColorSchemes => Some("light")
  }

  /** The rest of the document head: the title element, the canonical link and the embedded structured data. */
  datatype Head = Head(title: String, canonical: String, structuredData: StructuredData)

  /** The head the component renders, apart from its meta tags: the title element and the canonical link carry the title and url. */
  function HeadOf(p: SeoProps): (h: Head)
    ensures h.title == Resolve(p).title && h.canonical == Resolve(p).url
    ensures h.structuredData == StructuredDataOf(Resolve(p))
  {
    var s := Resolve(p);
    Head(s.title, s.url, StructuredDataOf(s))
  }

  /** The meta tag with key `k` the component renders. */
  function MetaOf(p: SeoProps, k: Key): Option<String>
  {
    MetaContent(Resolve(p), k)
  }
}

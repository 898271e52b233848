/**
 * What every stage reads from an article file, and the site-wide constants the
 * page metadata is built from.
 */
module Content {
  import opened Results
  import opened Text

  /**
   * The front-matter parser's result for one markdown file: the `title` and
   * `date` attributes (absent, or a string) and the body after the front matter.
   */
  datatype Doc = Doc(title: Option<String>, date: Option<String>, body: String)

  const Author: String := "Ivan Tregear"
  const Domain: String := "https://ivantregear.com"
  const DefaultImage: String := "https://ivantregear.com/og-image.png"

  /** Where the article images live in the source tree. */
  const ImagesDir: String := "/src/assets/thoughts/images/"

  /** `x || d` on an optional string: a missing or empty value is falsy. */
  function Or(x: Option<String>, d: String): (r: String)
    ensures x.Some? && x.value != [] ==> r == x.value
    ensures x.None? || x.value == [] ==> r == d
  {
    if x.Some? && x.value != [] then x.value else d
  }

  /** `slug.replace(/-/g, ' ')`: the title shown for an article without one. */
  function Humanize(slug: String): (r: String)
    ensures |r| == |slug| && '-' !in r
    ensures forall i :: 0 <= i < |slug| && slug[i] != '-' ==> r[i] == slug[i]
    ensures forall i :: 0 <= i < |slug| && slug[i] == '-' ==> r[i] == ' '
  {
    ReplaceChars(slug, {'-'}, ' ')
  }

  /** The canonical address of an article page. */
  function ArticleUrl(slug: String): (r: String)
    ensures StartsWith(r, Domain + "/thoughts/") && EndsWith(r, slug)
    ensures r == Domain + "/thoughts/" + slug
  {
    var r := Domain + "/thoughts/" + slug;
    assert r[..|Domain + "/thoughts/"|] == Domain + "/thoughts/";
    assert r[|r| - |slug|..] == slug;
    r
  }

  /**
   * The preview image a generic image target gives: an "http…" address as it
   * is, a site path ("/…") on the site's domain, anything else none.
   */
  function AbsoluteImage(target: String): (r: Option<String>)
    ensures StartsWith(target, "http") ==> r == Some(target)
    ensures !StartsWith(target, "http") && StartsWith(target, "/") ==> r == Some(Domain + target)
    ensures r.Some? <==> StartsWith(target, "http") || StartsWith(target, "/")
    ensures r.Some? ==> r.value != []
  {
    if StartsWith(target, "http") then Some(target)
    else if StartsWith(target, "/") then Some(Domain + target)
    else None
  }

  /** An article as the page generators hold it: title and date with their defaults applied. */
  datatype Article = Article(title: String, date: String, content: String, slug: String)

  /**
   * `{ title: attributes.title || slug.replace(/-/g, ' '), date: attributes.date || '', content, slug }`:
   * a missing or empty title becomes the slug with hyphens turned into spaces, a missing date the empty string.
   */
  function ArticleOf(slug: String, doc: Doc, content: String): (a: Article)
    ensures a.slug == slug && a.content == content
    ensures doc.title.None? || doc.title.value == [] ==> a.title == Humanize(slug)
    ensures doc.title.Some? && doc.title.value != [] ==> a.title == doc.title.value
    ensures doc.date.Some? && doc.date.value != [] ==> a.date == doc.date.value
    ensures doc.date.None? || doc.date.value == [] ==> a.date == []
  {
    Article(Or(doc.title, Humanize(slug)), Or(doc.date, []), content, slug)
  }

  /** The metadata an article page hands to the document renderer. */
  datatype PageMeta = PageMeta(
    title: String, description: String, image: String, url: String,
    pageType: String, publishedTime: String, author: String)

  /** The schema.org `Article` record embedded in an article page; author and publisher are `Person`s given by name. */
  datatype ArticleData = ArticleData(
    headline: String, description: String, image: String, author: String,
    publisher: String, datePublished: String, dateModified: String, pageId: String)

  /** The structured data built from page metadata: the page's own title, text, picture and address, published and modified on the same date. */
  function ArticleDataOf(meta: PageMeta): (d: ArticleData)
    ensures d.headline == meta.title && d.description == meta.description && d.image == meta.image
    ensures d.datePublished == d.dateModified == meta.publishedTime
    ensures d.pageId == meta.url && d.author == meta.author && d.publisher == Author
  {
    ArticleData(meta.title, meta.description, meta.image, meta.author, Author,
      meta.publishedTime, meta.publishedTime, meta.url)
  }

  /** `files.filter(file => file.endsWith('.md'))` */
  function MarkdownFiles(files: seq<String>): (r: seq<String>)
    ensures forall f :: f in r <==> f in files && EndsWith(f, ".md")
    ensures |r| <= |files|
    ensures |files| == 1 ==> r == if EndsWith(files[0], ".md") then files else []
  {
    if files == [] then []
    else if EndsWith(files[0], ".md") then [files[0]] + MarkdownFiles(files[1..])
    else MarkdownFiles(files[1..])
  }

  /**
   * The filter keeps the listing order: filtering two listings one after the
   * other gives their filtered parts one after the other.
   */
  lemma {:induction false} MarkdownFilesAppend(a: seq<String>, b: seq<String>)
    ensures MarkdownFiles(a + b) == MarkdownFiles(a) + MarkdownFiles(b)
  {
    if a == [] {
      assert a + b == b;
    } else {
      var ab := a + b;
      assert ab[0] == a[0] && ab[1..] == a[1..] + b;
      MarkdownFilesAppend(a[1..], b);
      var head := if EndsWith(a[0], ".md") then [a[0]] else [];
      assert MarkdownFiles(ab) == head + MarkdownFiles(a[1..] + b);
      assert MarkdownFiles(a) == head + MarkdownFiles(a[1..]);
    }
  }

  /** `file.replace('.md', '')`: the first ".md" goes, wherever it is. */
  function SlugOf(file: String): String {
    RemoveFirst(file, ".md")
  }


  /** `file.replace(/\.md$/, '')`: ".md" goes only where it ends the name. */
  function StemOf(file: String): String {
    StripSuffix(file, ".md")
  }

  /** Where ".md" occurs only as the ending, both slug rules give the same slug. */
  lemma SlugRulesAgree(name: String)
    requires forall k :: 0 <= k <= |name| ==> !OccursAt(name, ".md", k)
    ensures SlugOf(name + ".md") == StemOf(name + ".md") == name
  {
    var f := name + ".md";
    assert f[|name|..|name| + 3] == ".md";
    forall k | 0 <= k < |name| ensures !OccursAt(f, ".md", k) {
      if k + 3 <= |name| {
        assert f[k..k + 3] == name[k..k + 3];
        assert !OccursAt(name, ".md", k);
      } else {
        assert f[k..k + 3][|name| - k] == '.';
        assert ".md"[|name| - k] != '.';
      }
    }
    assert OccursAt(f, ".md", |name|);
    assert IndexOfSub(f, ".md") == |name|;
    assert f[..|name|] == name && f[|name| + 3..] == [];
  }

  /** Where ".md" also occurs earlier in the name, the two rules differ. */
  lemma SlugRulesDiffer()
    ensures SlugOf("x.mdy.md") == "xy.md"
    ensures StemOf("x.mdy.md") == "x.mdy"
  {
    var f := "x.mdy.md";
    assert f[0..3][0] == 'x';
    assert OccursAt(f, ".md", 1);
    assert IndexOfSub(f, ".md") == 1;
  }
}

/**
 * The server-rendered list of articles: one post per markdown file of the
 * article directory, with its excerpt, newest first.
 */
module PostIndex {
  import opened Results
  import opened Text
  import opened Content
  import opened Ordering
  import Markdown

  datatype Post = Post(title: String, date: String, content: String, slug: String, excerpt: String)

  /** The excerpt length of the list page. */
  const ExcerptLength: nat := 200

  /** The post for one file: the slug is the name without its ".md" ending. */
  function PostOf(file: String, doc: Doc): (p: Post)
    ensures p.slug == StemOf(file) && p.content == doc.body
    ensures p.excerpt == Markdown.MarkdownExcerpt(doc.body, ExcerptLength)
    ensures p.title == Or(doc.title, Humanize(p.slug)) && p.date == Or(doc.date, [])
  {
    var slug := StemOf(file);
    Post(Or(doc.title, Humanize(slug)), Or(doc.date, []), doc.body, slug, Markdown.MarkdownExcerpt(doc.body, ExcerptLength))
  }

  /** The posts of the listed files, in listing order. */
  function PostsOf(files: seq<String>, read: String -> Doc): (r: seq<Post>)
    ensures |r| == |files|
    ensures forall i :: 0 <= i < |files| ==> r[i] == PostOf(files[i], read(files[i]))
  {
    if files == [] then [] else [PostOf(files[0], read(files[0]))] + PostsOf(files[1..], read)
  }

  function DateOf(p: Post): String {
    p.date
  }

  /**
   * `getPosts()`: no posts when the directory is missing; otherwise one post
   * per ".md" file, sorted by date, newest first.
   */
  function GetPosts(listing: Option<seq<String>>, read: String -> Doc): (r: seq<Post>)
  {
    if listing.None? then []
    else SortByDateDesc(PostsOf(MarkdownFiles(listing.value), read), DateOf)
  }

  /** The list holds exactly the posts of the markdown files, each once, newest first, and undated posts last. */
  lemma GetPostsCorrect(listing: Option<seq<String>>, read: String -> Doc)
    ensures listing.None? ==> GetPosts(listing, read) == []
    ensures listing.Some? ==>
      multiset(GetPosts(listing, read)) == multiset(PostsOf(MarkdownFiles(listing.value), read))
    ensures SortedDesc(GetPosts(listing, read), DateOf)
    ensures forall i, j :: 0 <= i < j < |GetPosts(listing, read)| && GetPosts(listing, read)[i].date == [] ==>
      GetPosts(listing, read)[j].date == []
  {
    if listing.Some? {
      var posts := PostsOf(MarkdownFiles(listing.value), read);
      SortByDateDescCorrect(posts, DateOf);
      forall i, j | 0 <= i < j < |GetPosts(listing, read)| && GetPosts(listing, read)[i].date == []
        ensures GetPosts(listing, read)[j].date == []
      {
        UndatedLast(posts, DateOf, i, j);
      }
    }
  }

  /** A post of the list of files is the post of one of those files. */
  lemma PostOfSomeFile(files: seq<String>, read: String -> Doc, p: Post) returns (f: String)
    requires p in multiset(PostsOf(files, read))
    ensures f in files && p == PostOf(f, read(f))
  {
    var posts := PostsOf(files, read);
    assert p in posts;
    var i :| 0 <= i < |posts| && posts[i] == p;
    f := files[i];
  }

  /** Every post comes from a listed ".md" file, and its slug is that file's name without the ending. */
  lemma PostsFromMarkdownFiles(listing: Option<seq<String>>, read: String -> Doc, p: Post)
    requires p in GetPosts(listing, read)
    ensures listing.Some?
    ensures exists f :: f in listing.value && EndsWith(f, ".md") && p.slug + ".md" == f && p == PostOf(f, read(f))
  {
    var files := MarkdownFiles(listing.value);
    SortByDateDescCorrect(PostsOf(files, read), DateOf);
    assert p in multiset(GetPosts(listing, read));
    var f := PostOfSomeFile(files, read, p);
    assert f in listing.value && EndsWith(f, ".md");
  }
}

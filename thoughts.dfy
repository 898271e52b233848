/**
 * The client-side list of articles: every bundled markdown file becomes a
 * post, sorted newest first; images inside a post are pointed at the image
 * directory.
 */
module ThoughtsPage {
  import opened Results
  import opened Text
  import opened Content
  import opened Ordering

  datatype Post = Post(title: String, date: String, content: String)

  /**
   * The title of the post at `path`: the front-matter title, else the file
   * name without its ".md" ending (hyphens kept), else "Untitled".
   */
  function TitleOf(path: String, doc: Doc): (t: String)
    ensures doc.title.Some? && doc.title.value != [] ==> t == doc.title.value
    ensures (doc.title.None? || doc.title.value == []) && StripSuffix(LastSegment(path), ".md") != [] ==>
      t == StripSuffix(LastSegment(path), ".md")
    ensures (doc.title.None? || doc.title.value == []) && StripSuffix(LastSegment(path), ".md") == [] ==> t == "Untitled"
    ensures t != []
  {
    Or(doc.title, Or(Some(StripSuffix(LastSegment(path), ".md")), "Untitled"))
  }

  /** The post object built for one glob entry: its title, its date or "", and the body after the front matter. */
  function PostOf(path: String, doc: Doc): (p: Post)
    ensures p.title == TitleOf(path, doc) && p.content == doc.body
    ensures doc.date.Some? && doc.date.value != [] ==> p.date == doc.date.value
    ensures doc.date.None? || doc.date.value == [] ==> p.date == []
  {
    Post(TitleOf(path, doc), Or(doc.date, []), doc.body)
  }

  /** The posts of the glob entries (path, front-matter result), in glob order. */
  function PostsOf(entries: seq<(String, Doc)>): (r: seq<Post>)
    ensures |r| == |entries|
    ensures forall i :: 0 <= i < |entries| ==> r[i] == PostOf(entries[i].0, entries[i].1)
  {
    if entries == [] then [] else [PostOf(entries[0].0, entries[0].1)] + PostsOf(entries[1..])
  }

  function DateOf(p: Post): String {
    p.date
  }

  /** `usePosts()` once loading has finished: the posts are sorted in place, newest first. */
  method UsePosts(entries: seq<(String, Doc)>) returns (posts: seq<Post>)
    ensures posts == SortByDateDesc(PostsOf(entries), DateOf)
  {
    var all := PostsOf(entries);
    var a := ArrayOf(all);
    SortInPlace(a, DateOf);
    posts := a[..];
  }

  /** The list holds every post once, newest first, with the undated ones last. */
  lemma PostsNewestFirst(entries: seq<(String, Doc)>)
    ensures var posts := SortByDateDesc(PostsOf(entries), DateOf);
      && multiset(posts) == multiset(PostsOf(entries))
      && SortedDesc(posts, DateOf)
      && forall i, j :: 0 <= i < j < |posts| && posts[i].date == [] ==> posts[j].date == []
  {
    var posts := SortByDateDesc(PostsOf(entries), DateOf);
    SortByDateDescCorrect(PostsOf(entries), DateOf);
    forall i, j | 0 <= i < j < |posts| && posts[i].date == [] ensures posts[j].date == [] {
      UndatedLast(PostsOf(entries), DateOf, i, j);
    }
  }

  /** An absolute address: "http://…" or "https://…". */
  predicate IsAbsolute(src: String) {
    StartsWith(src, "http://") || StartsWith(src, "https://")
  }

  /** `src.replace(/^\.\/?images\//, "")`: a leading "./images/" or ".images/" removed. */
  function StripImagesPrefix(src: String): (r: String)
    ensures StartsWith(src, "./images/") ==> r == src[9..]
    ensures !StartsWith(src, "./images/") && StartsWith(src, ".images/") ==> r == src[8..]
    ensures !StartsWith(src, "./images/") && !StartsWith(src, ".images/") ==> r == src
  {
    if StartsWith(src, "./images/") then src[9..]
    else if StartsWith(src, ".images/") then src[8..]
    else src
  }

  /**
   * The `img` renderer's address: an absolute or site-rooted address is kept;
   * any other (or a missing one, read as "") is taken as a file of the image
   * directory, with a leading "./images/" or ".images/" removed.
   */
  function ImageSource(src: Option<String>): (r: String)
    ensures var s := Or(src, []); IsAbsolute(s) || StartsWith(s, "/") ==> r == s
    ensures var s := Or(src, []); !IsAbsolute(s) && !StartsWith(s, "/") ==> r == ImagesDir + StripImagesPrefix(s)
    ensures StartsWith(r, "/") || IsAbsolute(r)
  {
    var s := Or(src, []);
    if IsAbsolute(s) || StartsWith(s, "/") then s
    else
      var r := ImagesDir + StripImagesPrefix(s);
      assert r[0] == '/';
      r
  }

  /** A missing address becomes the image directory itself. */
  lemma MissingSourceIsDirectory()
    ensures ImageSource(None) == ImagesDir
    ensures ImageSource(Some([])) == ImagesDir
  {
    assert !StartsWith([], "/");
    assert StripImagesPrefix([]) == [];
  }

  /** A relative image reference points at the same file as the server-side rewrite does. */
  lemma RelativeImageSource(name: String)
    ensures ImageSource(Some("./images/" + name)) == ImagesDir + name
  {
    var s := "./images/" + name;
    assert s[..9] == "./images/";
    assert s[9..] == name;
    assert s[0] == '.';
  }

  /** Rendering an address a second time changes nothing. */
  lemma ImageSourceIdempotent(src: Option<String>)
    ensures ImageSource(Some(ImageSource(src))) == ImageSource(src)
  {
    var r := ImageSource(src);
    assert r != [] && Or(Some(r), []) == r;
  }
}

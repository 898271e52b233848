/**
 * The home page: the hero image labels, the two latest article previews, and
 * the hero index that the Shuffle button advances.
 */
module Home {
  import opened Results
  import opened Text
  import opened Content
  import opened Ordering
  import Markdown

  /** Removing a ".png" ending keeps the characters before it. */
  lemma StemPrefix(name: String)
    ensures var stem := StripSuffix(name, ".png");
      && |stem| == (if EndsWith(name, ".png") then |name| - 4 else |name|)
      && forall i :: 0 <= i < |stem| ==> stem[i] == name[i]
  {
    var stem := StripSuffix(name, ".png");
    if EndsWith(name, ".png") {
      assert stem == name[..|name| - 4];
    }
  }

  /**
   * The label of a hero image: its file name without a ".png" ending, with
   * every '-' and '_' shown as a space. (`split('/').pop()` always yields a
   * string, so the "Field Notes" fallback of the source is never taken.)
   */
  function HeroLabel(path: String): (r: String)
    ensures '/' !in r && '-' !in r && '_' !in r
  {
    ReplaceChars(StripSuffix(LastSegment(path), ".png"), {'-', '_'}, ' ')
  }

  /** The label has one character per character of the file name before ".png", each the same or a space. */
  lemma HeroLabelOfName(path: String)
    ensures var name := LastSegment(path); var r := HeroLabel(path);
      && |r| == (if EndsWith(name, ".png") then |name| - 4 else |name|)
      && forall i :: 0 <= i < |r| ==> r[i] == (if name[i] == '-' || name[i] == '_' then ' ' else name[i])
  {
    LabelOfName(LastSegment(path));
  }

  lemma LabelOfName(name: String)
    ensures var r := ReplaceChars(StripSuffix(name, ".png"), {'-', '_'}, ' ');
      && |r| == (if EndsWith(name, ".png") then |name| - 4 else |name|)
      && forall i :: 0 <= i < |r| ==> r[i] == (if name[i] == '-' || name[i] == '_' then ' ' else name[i])
  {
    var stem := StripSuffix(name, ".png");
    var r := ReplaceChars(stem, {'-', '_'}, ' ');
    StemPrefix(name);
    assert |r| == |stem| <= |name|;
    forall i | 0 <= i < |r| ensures r[i] == (if name[i] == '-' || name[i] == '_' then ' ' else name[i]) {
      assert stem[i] == name[i];
      assert r[i] == if stem[i] in {'-', '_'} then ' ' else stem[i];
    }
  }

  datatype Preview = Preview(title: String, date: String, slug: String, excerpt: String)

  /** The excerpt length of a home-page preview. */
  const PreviewExcerptLength: nat := 220

  /** The number of previews the home page asks for. */
  const HomeLimit: nat := 2

  /** The preview of the article at `path`: the slug is its file name without the ".md" ending. */
  function PreviewOf(path: String, doc: Doc): (p: Preview)
    ensures p.slug == StemOf(LastSegment(path)) && '/' !in p.slug
    ensures p.title == Or(doc.title, Humanize(p.slug)) && p.date == Or(doc.date, [])
    ensures p.excerpt == Markdown.MarkdownExcerpt(doc.body, PreviewExcerptLength)
  {
    var slug := StemOf(LastSegment(path));
    Preview(Or(doc.title, Humanize(slug)), Or(doc.date, []), slug, Markdown.MarkdownExcerpt(doc.body, PreviewExcerptLength))
  }

  /** The previews of the glob entries (path, front-matter result): one per entry, in glob order. */
  function PreviewsOf(entries: seq<(String, Doc)>): (r: seq<Preview>)
    ensures |r| == |entries|
    ensures forall i :: 0 <= i < |entries| ==> r[i] == PreviewOf(entries[i].0, entries[i].1)
  {
    seq(|entries|, i requires 0 <= i < |entries| => PreviewOf(entries[i].0, entries[i].1))
  }

  function DateOf(p: Preview): String {
    p.date
  }

  /** `posts.slice(0, limit)`. */
  function Slice<T>(s: seq<T>, limit: nat): (r: seq<T>)
    ensures |r| == if limit < |s| then limit else |s|
    ensures r == s[..|r|]
  {
    if limit < |s| then s[..limit] else s
  }

  /**
   * `useThoughtPreviews(limit)` once loading has finished: the previews are
   * sorted in place, newest first, and the first `limit` of them are shown.
   */
  method ThoughtPreviews(entries: seq<(String, Doc)>, limit: nat) returns (shown: seq<Preview>)
    ensures shown == Slice(SortByDateDesc(PreviewsOf(entries), DateOf), limit)
  {
    var previews := PreviewsOf(entries);
    var posts := ArrayOf(previews);
    SortInPlace(posts, DateOf);
    shown := Slice(posts[..], limit);
  }

  /**
   * The previews shown are the newest: at most `limit` of them, newest first,
   * taken from the previews given, and every preview left out is no newer
   * than every one shown.
   */
  lemma ShownAreLatest<T>(all: seq<T>, key: T -> String, limit: nat)
    ensures var sorted := SortByDateDesc(all, key);
      var shown := Slice(sorted, limit);
      && |shown| == (if limit < |all| then limit else |all|)
      && SortedDesc(shown, key)
      && multiset(shown) <= multiset(all)
      && forall i, j :: 0 <= i < |shown| <= j < |sorted| ==> AtMost(key(sorted[j]), key(shown[i]))
  {
    var sorted := SortByDateDesc(all, key);
    SortByDateDescCorrect(all, key);
    var shown := Slice(sorted, limit);
    assert sorted == shown + sorted[|shown|..];
    assert multiset(sorted) == multiset(shown) + multiset(sorted[|shown|..]);
    assert forall i, j :: 0 <= i < j < |shown| ==> shown[i] == sorted[i] && shown[j] == sorted[j];
  }

  /**
   * The hero carousel: `count` images (fixed when the module loads) and the
   * index of the one shown.
   */
  class HeroState {
    const count: nat
    var index: int

    ghost predicate Valid()
      reads this
    {
      if count == 0 then index == 0 else 0 <= index < count
    }

    /** The first index: 0 without images, otherwise the random pick, which is a parameter here. */
    constructor (count: nat, pick: nat)
      requires count > 0 ==> pick < count
      ensures Valid() && this.count == count
      ensures index == if count == 0 then 0 else pick
    {
      this.count := count;
      index := if count == 0 then 0 else pick;
    }

    /** `shuffleHero()`: nothing without images, otherwise the next image, wrapping to the first. */
    method ShuffleHero()
      requires Valid()
      modifies this
      ensures Valid()
      ensures index == NextHero(old(index), count)
    {
      if count == 0 {
        return;
      }
      index := (index + 1) % count;
    }

    /** The Shuffle button is offered only when there is more than one image. */
    function ShowsShuffle(): (r: bool)
      reads this
      ensures r <==> count > 1
    {
      count > 1
    }
  }

  /** The index after one shuffle. */
  function NextHero(index: int, count: nat): (r: int)
    ensures count == 0 ==> r == index
    ensures count > 0 && 0 <= index < count ==> 0 <= r < count && (r == 0 <==> index == count - 1)
    ensures count > 0 && 0 <= index < count - 1 ==> r == index + 1
  {
    if count == 0 then index else (index + 1) % count
  }

  /** The index after `k` shuffles from `start`. */
  function Shuffled(start: int, count: nat, k: nat): int
  {
    if k == 0 then start else NextHero(Shuffled(start, count, k - 1), count)
  }

  /** Before the wrap, each shuffle moves one image forward. */
  lemma {:induction false} ShuffledForward(start: nat, count: nat, k: nat)
    requires start + k < count
    ensures Shuffled(start, count, k) == start + k
  {
    if k > 0 {
      ShuffledForward(start, count, k - 1);
    }
  }

  /** Shuffling from the last image goes back to the first. */
  lemma ShuffledWraps(start: nat, count: nat)
    requires start < count
    ensures Shuffled(start, count, count - start) == 0
  {
    ShuffledForward(start, count, count - start - 1);
  }

  /** `a + b` shuffles are `a` shuffles followed by `b` more. */
  lemma {:induction false} ShuffledCompose(start: int, count: nat, a: nat, b: nat)
    ensures Shuffled(start, count, a + b) == Shuffled(Shuffled(start, count, a), count, b)
  {
    if b > 0 {
      ShuffledCompose(start, count, a, b - 1);
    }
  }

  /**
   * Shuffling reaches every image within `count - 1` presses from any starting
   * image, and `count` presses bring back the image shown first.
   */
  lemma EveryImageReached(start: nat, count: nat, j: nat)
    requires start < count && j < count
    ensures exists k :: 0 <= k < count && Shuffled(start, count, k) == j
    ensures Shuffled(start, count, count) == start
  {
    ShuffledWraps(start, count);
    ShuffledCompose(start, count, count - start, start);
    ShuffledForward(0, count, start);
    if start <= j {
      ShuffledForward(start, count, j - start);
    } else {
      ShuffledCompose(start, count, count - start, j);
      ShuffledForward(0, count, j);
      assert Shuffled(start, count, count - start + j) == j;
    }
  }

  /** With a single image, shuffling would change nothing; that is when the button is hidden. */
  lemma SingleImageFixed(index: int)
    requires 0 <= index < 1
    ensures NextHero(index, 1) == index
  {
  }
}

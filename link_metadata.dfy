/**
 * Bibliography link metadata: each URL is served from the browser-storage
 * cache when an entry exists, and otherwise fetched from the metadata service.
 * The successful fetches are merged into the cache as it is re-read after
 * fetching, and the merged cache is written back.
 */
module LinkMetadata {
  import opened Results
  import opened Text
  import opened Content

  datatype LinkMeta = LinkMeta(title: String, publisher: String, date: Option<String>)

  const CacheKey: String := "bib-link-meta-v1"

  /** The `data` object of a service reply, as far as it is read. */
  datatype ReplyData = ReplyData(title: Option<String>, publisher: Option<String>, date: Option<String>)

  /**
   * The outcome of one request: it threw (network error or unreadable JSON),
   * or it answered with an HTTP ok flag, a `status` field and a `data` field.
   */
  datatype Reply =
    | Threw
    | Answered(ok: bool, status: Option<String>, data: Option<ReplyData>)

  /**
   * `fetchSingle(url)`, given the reply: nothing for a failure, a non-ok
   * response, a status other than "success" or missing data; otherwise the
   * title and publisher (empty when missing) and the date (absent when missing).
   */
  function FetchSingle(reply: Reply): (r: Option<LinkMeta>)
    ensures r.Some? <==> reply.Answered? && reply.ok && reply.status == Some("success") && reply.data.Some?
    ensures r.Some? ==> var d := reply.data.value;
      && r.value.title == Or(d.title, []) && r.value.publisher == Or(d.publisher, [])
      && (d.date.Some? && d.date.value != [] ==> r.value.date == d.date)
      && (d.date.None? || d.date.value == [] ==> r.value.date.None?)
  {
    if reply.Threw? || !reply.ok || reply.status != Some("success") || reply.data.None? then None
    else
      var d := reply.data.value;
      Some(LinkMeta(Or(d.title, []), Or(d.publisher, []), if d.date.Some? && d.date.value != [] then d.date else None))
  }

  /**
   * The browser's `localStorage`: its items, whether it can be used at all, and
   * whether it accepts writes (it refuses them when full).
   */
  class Storage {
    var items: map<String, String>
    var available: bool
    var writable: bool

    constructor (items: map<String, String>, available: bool, writable: bool)
      ensures this.items == items && this.available == available && this.writable == writable
    {
      this.items := items;
      this.available := available;
      this.writable := writable;
    }

    /** `setItem(key, value)`: stored when storage accepts it; a refusal is swallowed by the caller and changes nothing. */
    method SetItem(key: String, value: String)
      modifies this
      ensures available == old(available) && writable == old(writable)
      ensures items == if available && writable then old(items)[key := value] else old(items)
    {
      if available && writable {
        items := items[key := value];
      }
    }
  }

  /**
   * `readCache()`: the parsed cache entry; empty when storage is unavailable,
   * when nothing (or the empty string) is stored, and when parsing fails.
   * `parse` is `JSON.parse`, returning nothing where it throws.
   */
  function ReadCache(store: Storage, parse: String -> Option<map<String, LinkMeta>>): (cache: map<String, LinkMeta>)
    reads store
    ensures !store.available ==> cache == map[]
    ensures store.available && (CacheKey !in store.items || store.items[CacheKey] == []) ==> cache == map[]
    ensures store.available && CacheKey in store.items && store.items[CacheKey] != [] ==>
      cache == (if parse(store.items[CacheKey]).Some? then parse(store.items[CacheKey]).value else map[])
  {
    if !store.available || CacheKey !in store.items || store.items[CacheKey] == [] then map[]
    else match parse(store.items[CacheKey])
      case Some(c) => c
      case None => map[]
  }

  /** `writeCache(cache)`: the serialised cache goes under the cache key; any failure is swallowed. */
  method WriteCache(store: Storage, cache: map<String, LinkMeta>, serialize: map<String, LinkMeta> -> String)
    modifies store
    ensures store.available == old(store.available) && store.writable == old(store.writable)
    ensures store.items == if store.available && store.writable then old(store.items)[CacheKey := serialize(cache)] else old(store.items)
  {
    store.SetItem(CacheKey, serialize(cache));
  }

  /** The results the first loop collects: every listed URL with a cache entry, under that entry. */
  function CachedResults(urls: seq<String>, cache: map<String, LinkMeta>): map<String, LinkMeta>
  {
    if urls == [] then map[]
    else
      var url := urls[|urls| - 1];
      var prefix := CachedResults(urls[..|urls| - 1], cache);
      if url in cache then prefix[url := cache[url]] else prefix
  }

  /** The URLs the first loop sets aside for fetching, in listing order. */
  function Uncached(urls: seq<String>, cache: map<String, LinkMeta>): (r: seq<String>)
    ensures forall u :: u in r <==> u in urls && u !in cache
  {
    if urls == [] then []
    else
      var url := urls[|urls| - 1];
      var prefix := Uncached(urls[..|urls| - 1], cache);
      assert forall u :: u in urls <==> u in urls[..|urls| - 1] || u == url;
      if url !in cache then prefix + [url] else prefix
  }

  /** `m` with every URL of `us` whose fetch succeeded set to the fetched metadata. */
  function AddFetched(m: map<String, LinkMeta>, us: seq<String>, fetch: String -> Reply): map<String, LinkMeta>
  {
    if us == [] then m
    else
      var url := us[|us| - 1];
      var prefix := AddFetched(m, us[..|us| - 1], fetch);
      if FetchSingle(fetch(url)).Some? then prefix[url := FetchSingle(fetch(url)).value] else prefix
  }

  /** `fetchAllLinkMeta(urls)`'s result, for the cache it first reads and the reply each URL would get. */
  function AllLinkMeta(urls: seq<String>, cache: map<String, LinkMeta>, fetch: String -> Reply): map<String, LinkMeta>
  {
    AddFetched(CachedResults(urls, cache), Uncached(urls, cache), fetch)
  }

  lemma {:induction false} CachedResultsServed(urls: seq<String>, cache: map<String, LinkMeta>, u: String)
    ensures u in CachedResults(urls, cache) <==> u in urls && u in cache
    ensures u in CachedResults(urls, cache) ==> CachedResults(urls, cache)[u] == cache[u]
  {
    if urls != [] {
      CachedResultsServed(urls[..|urls| - 1], cache, u);
      assert u in urls <==> u in urls[..|urls| - 1] || u == urls[|urls| - 1];
    }
  }

  /** URLs outside `us` keep whatever `m` had for them; a URL of `us` is set exactly when its fetch succeeded. */
  lemma {:induction false} AddFetchedEffect(m: map<String, LinkMeta>, us: seq<String>, fetch: String -> Reply, u: String)
    ensures u !in us ==> (u in AddFetched(m, us, fetch) <==> u in m)
    ensures u !in us && u in m ==> AddFetched(m, us, fetch)[u] == m[u]
    ensures u in us ==> (u in AddFetched(m, us, fetch) <==> u in m || FetchSingle(fetch(u)).Some?)
    ensures u in us && FetchSingle(fetch(u)).Some? ==> AddFetched(m, us, fetch)[u] == FetchSingle(fetch(u)).value
  {
    if us != [] {
      AddFetchedEffect(m, us[..|us| - 1], fetch, u);
      assert u in us <==> u in us[..|us| - 1] || u == us[|us| - 1];
    }
  }

  /** A listed URL with a cache entry is served from the cache. */
  lemma CachedUrlServed(urls: seq<String>, cache: map<String, LinkMeta>, fetch: String -> Reply, u: String)
    requires u in urls && u in cache
    ensures u in AllLinkMeta(urls, cache, fetch) && AllLinkMeta(urls, cache, fetch)[u] == cache[u]
  {
    CachedResultsServed(urls, cache, u);
    AddFetchedEffect(CachedResults(urls, cache), Uncached(urls, cache), fetch, u);
  }

  /** A listed URL without a cache entry is in the result exactly when its fetch succeeded, with the fetched metadata. */
  lemma UncachedUrlFetched(urls: seq<String>, cache: map<String, LinkMeta>, fetch: String -> Reply, u: String)
    requires u in urls && u !in cache
    ensures u in AllLinkMeta(urls, cache, fetch) <==> FetchSingle(fetch(u)).Some?
    ensures u in AllLinkMeta(urls, cache, fetch) ==> AllLinkMeta(urls, cache, fetch)[u] == FetchSingle(fetch(u)).value
  {
    CachedResultsServed(urls, cache, u);
    AddFetchedEffect(CachedResults(urls, cache), Uncached(urls, cache), fetch, u);
  }

  /** Nothing but the listed URLs appears in the result. */
  lemma OnlyListedUrls(urls: seq<String>, cache: map<String, LinkMeta>, fetch: String -> Reply, u: String)
    requires u !in urls
    ensures u !in AllLinkMeta(urls, cache, fetch)
  {
    CachedResultsServed(urls, cache, u);
    AddFetchedEffect(CachedResults(urls, cache), Uncached(urls, cache), fetch, u);
  }

  /**
   * The cache written back keeps every entry of the re-read cache for the URLs
   * it did not fetch, and has the fetched metadata for every successful fetch.
   */
  lemma WriteBackPreserves(reread: map<String, LinkMeta>, urls: seq<String>, cache: map<String, LinkMeta>, fetch: String -> Reply, u: String)
    ensures var written := AddFetched(reread, Uncached(urls, cache), fetch);
      && ((u !in urls || u in cache) ==> (u in written <==> u in reread) && (u in reread ==> written[u] == reread[u]))
      && (u in urls && u !in cache && FetchSingle(fetch(u)).Some? ==> u in written && written[u] == FetchSingle(fetch(u)).value)
  {
    AddFetchedEffect(reread, Uncached(urls, cache), fetch, u);
  }

  /**
   * `fetchAllLinkMeta(urls)`. The replies are a parameter, one per URL, and the
   * cache is re-read after fetching from the same storage: nothing else writes
   * to it in between. When every URL is cached the storage is not written.
   */
  method FetchAllLinkMeta(urls: seq<String>, store: Storage, fetch: String -> Reply,
                          parse: String -> Option<map<String, LinkMeta>>, serialize: map<String, LinkMeta> -> String)
    returns (results: map<String, LinkMeta>)
    modifies store
    ensures results == AllLinkMeta(urls, old(ReadCache(store, parse)), fetch)
    ensures store.available == old(store.available) && store.writable == old(store.writable)
    ensures Uncached(urls, old(ReadCache(store, parse))) == [] ==> store.items == old(store.items)
    ensures Uncached(urls, old(ReadCache(store, parse))) != [] ==>
      var written := AddFetched(old(ReadCache(store, parse)), Uncached(urls, old(ReadCache(store, parse))), fetch);
      store.items == if store.available && store.writable then old(store.items)[CacheKey := serialize(written)] else old(store.items)
  {
    var cache := ReadCache(store, parse);
    var uncached;
    results, uncached := SplitCached(urls, cache);
    if |uncached| == 0 {
      return;
    }
    var freshCache := ReadCache(store, parse);
    results, freshCache := MergeFetched(results, freshCache, uncached, fetch);
    WriteCache(store, freshCache, serialize);
  }

  /** The first loop: cached URLs go into the results, the others are set aside in order. */
  method SplitCached(urls: seq<String>, cache: map<String, LinkMeta>) returns (results: map<String, LinkMeta>, uncached: seq<String>)
    ensures results == CachedResults(urls, cache)
    ensures uncached == Uncached(urls, cache)
  {
    results := map[];
    uncached := [];
    var i := 0;
    while i < |urls|
      invariant 0 <= i <= |urls|
      invariant results == CachedResults(urls[..i], cache)
      invariant uncached == Uncached(urls[..i], cache)
    {
      var url := urls[i];
      assert urls[..i + 1][..i] == urls[..i];
      if url in cache {
        results := results[url := cache[url]];
      } else {
        uncached := uncached + [url];
      }
      i := i + 1;
    }
    assert urls[..i] == urls;
  }

  /** The second loop: each successful fetch is added both to the results and to the re-read cache. */
  method MergeFetched(cachedResults: map<String, LinkMeta>, cache: map<String, LinkMeta>, uncached: seq<String>, fetch: String -> Reply)
    returns (results: map<String, LinkMeta>, freshCache: map<String, LinkMeta>)
    ensures results == AddFetched(cachedResults, uncached, fetch)
    ensures freshCache == AddFetched(cache, uncached, fetch)
  {
    var fetched := seq(|uncached|, k requires 0 <= k < |uncached| => FetchSingle(fetch(uncached[k])));
    results, freshCache := cachedResults, cache;
    var i := 0;
    while i < |uncached|
      invariant 0 <= i <= |uncached|
      invariant results == AddFetched(cachedResults, uncached[..i], fetch)
      invariant freshCache == AddFetched(cache, uncached[..i], fetch)
    {
      var url := uncached[i];
      var meta := fetched[i];
      assert uncached[..i + 1][..i] == uncached[..i];
      if meta.Some? {
        results := results[url := meta.value];
        freshCache := freshCache[url := meta.value];
      }
      i := i + 1;
    }
    assert uncached[..i] == uncached;
  }
}

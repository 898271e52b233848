/**
 * The registry of article images built by the bundler's glob import: a map
 * from file name to served URL, filled in glob order, where a later path with
 * the same file name overwrites the URL but keeps the name's first position
 * (a JavaScript `Map` keeps insertion order).
 */
module Images {
  import opened Results
  import opened Text

  /** No element occurs twice. */
  predicate Distinct(s: seq<String>) {
    forall i, j :: 0 <= i < j < |s| ==> s[i] != s[j]
  }

  /** The registry after the glob entries (module path, URL) have been set in order; entries whose file name is empty are skipped. */
  function FilenameMap(entries: seq<(String, String)>): map<String, String>
  {
    if entries == [] then map[]
    else
      var (path, url) := entries[|entries| - 1];
      var prefix := FilenameMap(entries[..|entries| - 1]);
      if LastSegment(path) != [] then prefix[LastSegment(path) := url] else prefix
  }

  /** The registry's keys in insertion order: each file name where it was first set. */
  function FilenameOrder(entries: seq<(String, String)>): seq<String>
  {
    if entries == [] then []
    else
      var name := LastSegment(entries[|entries| - 1].0);
      var prefix := FilenameOrder(entries[..|entries| - 1]);
      if name != [] && name !in prefix then prefix + [name] else prefix
  }

  /** The file names of the glob paths, in glob order. */
  function Names(entries: seq<(String, String)>): (r: seq<String>)
    ensures |r| == |entries|
    ensures forall i :: 0 <= i < |entries| ==> r[i] == LastSegment(entries[i].0)
  {
    seq(|entries|, i requires 0 <= i < |entries| => LastSegment(entries[i].0))
  }

  /** A file name is a key exactly when some glob path ends in it. */
  lemma RegistryKeys(entries: seq<(String, String)>, f: String)
    ensures f in FilenameMap(entries) <==> f != [] && exists i :: 0 <= i < |entries| && LastSegment(entries[i].0) == f
  {
    KeysAreNames(entries, f);
    var r := Names(entries);
    if f in r {
      var i :| 0 <= i < |r| && r[i] == f;
      assert LastSegment(entries[i].0) == f;
    }
  }

  /** The keys are the non-empty file names. */
  lemma {:induction false} KeysAreNames(entries: seq<(String, String)>, f: String)
    ensures f in FilenameMap(entries) <==> f != [] && f in Names(entries)
  {
    if entries != [] {
      var p := entries[..|entries| - 1];
      KeysAreNames(p, f);
      KeyStep(entries, f);
      NameStep(entries, f);
    }
  }

  /** The last glob entry adds its own file name to the names before it. */
  lemma NameStep(entries: seq<(String, String)>, f: String)
    requires entries != []
    ensures f in Names(entries) <==>
      f in Names(entries[..|entries| - 1]) || LastSegment(entries[|entries| - 1].0) == f
  {
    var n := Names(entries);
    NamesPrefix(entries);
    LastOrEarlier(n, f);
  }

  /** The names of the entries before the last are the names before the last. */
  lemma NamesPrefix(entries: seq<(String, String)>)
    requires entries != []
    ensures Names(entries[..|entries| - 1]) == Names(entries)[..|entries| - 1]
  {
    var p := entries[..|entries| - 1];
    forall i | 0 <= i < |p| ensures Names(p)[i] == Names(entries)[i] {
      assert p[i] == entries[i];
    }
  }

  /** An element of a non-empty sequence is its last one or one before. */
  lemma LastOrEarlier<T>(n: seq<T>, f: T)
    requires n != []
    ensures f in n <==> f in n[..|n| - 1] || n[|n| - 1] == f
  {
    assert n == n[..|n| - 1] + [n[|n| - 1]];
  }

  /** The last glob entry adds its own file name, when not empty, to the keys before it. */
  lemma KeyStep(entries: seq<(String, String)>, f: String)
    requires entries != []
    ensures f in FilenameMap(entries) <==>
      f in FilenameMap(entries[..|entries| - 1]) || (f != [] && LastSegment(entries[|entries| - 1].0) == f)
  {
  }

  /** One more glob entry: set under its file name when that is not empty. */
  lemma Step(entries: seq<(String, String)>, i: nat)
    requires i < |entries|
    ensures var name := LastSegment(entries[i].0);
      && FilenameMap(entries[..i + 1]) == (if name != [] then FilenameMap(entries[..i])[name := entries[i].1] else FilenameMap(entries[..i]))
      && FilenameOrder(entries[..i + 1]) == (if name != [] && name !in FilenameOrder(entries[..i]) then FilenameOrder(entries[..i]) + [name] else FilenameOrder(entries[..i]))
  {
    assert entries[..i + 1][..i] == entries[..i];
    assert entries[..i + 1][i] == entries[i];
  }

  /** The insertion order lists every key once and nothing else. */
  lemma {:induction false} OrderListsKeys(entries: seq<(String, String)>)
    ensures Distinct(FilenameOrder(entries))
    ensures forall f :: f in FilenameOrder(entries) <==> f in FilenameMap(entries)
  {
    if entries != [] {
      OrderListsKeys(entries[..|entries| - 1]);
    }
  }

  /** The URL under a file name is the one of the last glob path that ends in it. */
  lemma {:induction false} LaterOverwrites(entries: seq<(String, String)>, i: nat)
    requires i < |entries| && LastSegment(entries[i].0) != []
    requires forall j :: i < j < |entries| ==> LastSegment(entries[j].0) != LastSegment(entries[i].0)
    ensures LastSegment(entries[i].0) in FilenameMap(entries)
    ensures FilenameMap(entries)[LastSegment(entries[i].0)] == entries[i].1
  {
    var p := entries[..|entries| - 1];
    var last := entries[|entries| - 1];
    if i < |entries| - 1 {
      assert p[i] == entries[i];
      forall j | i < j < |p| ensures LastSegment(p[j].0) != LastSegment(p[i].0) {
        assert p[j] == entries[j];
      }
      LaterOverwrites(p, i);
      assert LastSegment(last.0) != LastSegment(entries[i].0);
    } else {
      assert last == entries[i];
    }
  }

  /** The filename-to-URL map and the order of its keys. */
  class ImageRegistry {
    var urls: map<String, String>
    var filenames: seq<String>

    ghost predicate Valid()
      reads this
    {
      Distinct(filenames) && forall f :: f in filenames <==> f in urls
    }

    constructor ()
      ensures Valid() && urls == map[] && filenames == []
    {
      urls := map[];
      filenames := [];
    }

    /** `imageMap.set(filename, url)`: a new name goes last, a known one keeps its place. */
    method Set(filename: String, url: String)
      requires Valid()
      modifies this
      ensures Valid()
      ensures urls == old(urls)[filename := url]
      ensures filenames == if filename in old(urls) then old(filenames) else old(filenames) + [filename]
    {
      if filename !in urls {
        filenames := filenames + [filename];
      }
      urls := urls[filename := url];
    }

    /** `getThoughtsImageUrl(filename)`: the registered URL; an unknown name or an empty URL gives none. */
    function Get(filename: String): (r: Option<String>)
      reads this
      ensures r.Some? <==> filename in urls && urls[filename] != []
      ensures r.Some? ==> r.value == urls[filename]
    {
      if filename in urls && urls[filename] != [] then Some(urls[filename]) else None
    }

    /** `getAvailableImageFilenames()`: every registered name once, in insertion order. */
    function AvailableFilenames(): (r: seq<String>)
      requires Valid()
      reads this
      ensures Distinct(r)
      ensures forall f :: f in r <==> f in urls
    {
      filenames
    }
  }

  /** The module-level loop: every glob entry whose path has a non-empty final segment is set under it. */
  method BuildRegistry(entries: seq<(String, String)>) returns (registry: ImageRegistry)
    ensures fresh(registry) && registry.Valid()
    ensures registry.urls == FilenameMap(entries)
    ensures registry.filenames == FilenameOrder(entries)
  {
    registry := new ImageRegistry();
    var i := 0;
    while i < |entries|
      invariant 0 <= i <= |entries|
      invariant fresh(registry)
      invariant registry.Valid()
      invariant registry.urls == FilenameMap(entries[..i])
      invariant registry.filenames == FilenameOrder(entries[..i])
    {
      OrderListsKeys(entries[..i]);
      Step(entries, i);
      var filename := LastSegment(entries[i].0);
      if filename != [] {
        registry.Set(filename, entries[i].1);
      }
      i := i + 1;
    }
    assert entries[..i] == entries;
  }
}

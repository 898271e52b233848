/**
 * Newest-first ordering of posts. The comparator `(b.date || '').localeCompare(a.date || '')`
 * is taken as plain lexicographic order on the date strings, which for ISO dates
 * (YYYY-MM-DD) is the order of the dates themselves. `Array.prototype.sort` is
 * stable, so posts with equal dates keep their listing order; the specification
 * below is the stable insertion sort that has that behaviour.
 */
module Ordering {
  import opened Text

  /** `a.localeCompare(b) < 0`, read as lexicographic order. */
  predicate Before(a: String, b: String) {
    if a == [] then b != []
    else if b == [] then false
    else a[0] < b[0] || (a[0] == b[0] && Before(a[1..], b[1..]))
  }

  predicate AtMost(a: String, b: String) {
    a == b || Before(a, b)
  }

  lemma {:induction false} BeforeIrreflexive(a: String)
    ensures !Before(a, a)
  {
    if a != [] {
      BeforeIrreflexive(a[1..]);
    }
  }

  lemma {:induction false} BeforeTransitive(a: String, b: String, c: String)
    requires Before(a, b) && Before(b, c)
    ensures Before(a, c)
  {
    if a != [] && b != [] && c != [] && a[0] == b[0] == c[0] {
      BeforeTransitive(a[1..], b[1..], c[1..]);
    }
  }

  /** Any two different strings are ordered one way or the other, and never both ways. */
  lemma {:induction false} BeforeTotal(a: String, b: String)
    ensures a != b ==> (Before(a, b) <==> !Before(b, a))
  {
    if a != [] && b != [] && a[0] == b[0] {
      BeforeTotal(a[1..], b[1..]);
      if a != b {
        assert a == [a[0]] + a[1..] && b == [b[0]] + b[1..];
      }
    } else if a != [] && b != [] {
    }
  }

  lemma AtMostTransitive(a: String, b: String, c: String)
    requires AtMost(a, b) && AtMost(b, c)
    ensures AtMost(a, c)
  {
    if Before(a, b) && Before(b, c) {
      BeforeTransitive(a, b, c);
    }
  }

  /** The empty date (a post without one) comes after every other date in newest-first order. */
  lemma EmptyIsLeast(a: String)
    ensures AtMost([], a)
    ensures AtMost(a, []) ==> a == []
  {
  }

  /** Newest first: along the sequence the keys never increase. */
  predicate SortedDesc<T>(s: seq<T>, key: T -> String) {
    forall i, j :: 0 <= i < j < |s| ==> AtMost(key(s[j]), key(s[i]))
  }

  /** Places `x` after `s`, then moves it forward past every trailing element with a smaller key. */
  function Insert<T>(s: seq<T>, x: T, key: T -> String): seq<T>
  {
    if s == [] || !Before(key(s[|s| - 1]), key(x)) then s + [x]
    else Insert(s[..|s| - 1], x, key) + [s[|s| - 1]]
  }

  /** `s.sort((a, b) => key(b).localeCompare(key(a)))`: a stable newest-first sort. */
  function SortByDateDesc<T>(s: seq<T>, key: T -> String): seq<T>
  {
    if s == [] then [] else Insert(SortByDateDesc(s[..|s| - 1], key), s[|s| - 1], key)
  }

  lemma {:induction false} InsertPermutes<T>(s: seq<T>, x: T, key: T -> String)
    ensures multiset(Insert(s, x, key)) == multiset(s) + multiset{x}
    ensures |Insert(s, x, key)| == |s| + 1
  {
    if s != [] && Before(key(s[|s| - 1]), key(x)) {
      InsertPermutes(s[..|s| - 1], x, key);
      assert s == s[..|s| - 1] + [s[|s| - 1]];
    }
  }

  /** Every element the insertion passes over keeps its order, and `x` lands where the keys allow. */
  lemma {:induction false} InsertSorted<T>(s: seq<T>, x: T, key: T -> String)
    requires SortedDesc(s, key)
    ensures SortedDesc(Insert(s, x, key), key)
  {
    if s == [] {
    } else if !Before(key(s[|s| - 1]), key(x)) {
      var r := s + [x];
      forall i, j | 0 <= i < j < |r| ensures AtMost(key(r[j]), key(r[i])) {
        if j == |s| {
          BeforeTotal(key(s[|s| - 1]), key(x));
          if i < |s| - 1 {
            AtMostTransitive(key(x), key(s[|s| - 1]), key(s[i]));
          }
        }
      }
    } else {
      var p := s[..|s| - 1];
      var last := s[|s| - 1];
      InsertSorted(p, x, key);
      InsertPermutes(p, x, key);
      var q := Insert(p, x, key);
      var r := q + [last];
      forall i | 0 <= i < |q| ensures AtMost(key(last), key(q[i])) {
        assert q[i] in multiset(q);
        if q[i] == x {
        } else {
          assert q[i] in multiset(p);
          var k :| 0 <= k < |p| && p[k] == q[i];
        }
      }
    }
  }

  /** The sort keeps exactly the posts it was given and orders them newest first. */
  lemma {:induction false} SortByDateDescCorrect<T>(s: seq<T>, key: T -> String)
    ensures multiset(SortByDateDesc(s, key)) == multiset(s)
    ensures |SortByDateDesc(s, key)| == |s|
    ensures SortedDesc(SortByDateDesc(s, key), key)
  {
    if s != [] {
      var p := s[..|s| - 1];
      SortByDateDescCorrect(p, key);
      InsertPermutes(SortByDateDesc(p, key), s[|s| - 1], key);
      InsertSorted(SortByDateDesc(p, key), s[|s| - 1], key);
      assert s == p + [s[|s| - 1]];
    }
  }

  /** The elements of `s` whose key is `k`, in their order in `s`. */
  function WithKey<T>(s: seq<T>, key: T -> String, k: String): seq<T> {
    if s == [] then []
    else WithKey(s[..|s| - 1], key, k) + (if key(s[|s| - 1]) == k then [s[|s| - 1]] else [])
  }

  lemma WithKeySnoc<T>(s: seq<T>, y: T, key: T -> String, k: String)
    ensures WithKey(s + [y], key, k) == WithKey(s, key, k) + (if key(y) == k then [y] else [])
  {
    assert (s + [y])[..|s|] == s;
  }

  /** The insertion passes only strictly older elements, so `x` lands after every element with its own key. */
  lemma {:induction false} InsertStable<T>(s: seq<T>, x: T, key: T -> String, k: String)
    ensures WithKey(Insert(s, x, key), key, k) == WithKey(s, key, k) + (if key(x) == k then [x] else [])
  {
    if s == [] || !Before(key(s[|s| - 1]), key(x)) {
      WithKeySnoc(s, x, key, k);
    } else {
      var p := s[..|s| - 1];
      var last := s[|s| - 1];
      InsertStable(p, x, key, k);
      WithKeySnoc(Insert(p, x, key), last, key, k);
      assert s == p + [last];
      WithKeySnoc(p, last, key, k);
      if key(last) == k && key(x) == k {
        BeforeIrreflexive(k);
      }
    }
  }

  /**
   * The sort is stable: for every date, the posts with that date (the undated
   * ones among them) come out in the order they were listed.
   */
  lemma {:induction false} SortStable<T>(s: seq<T>, key: T -> String, k: String)
    ensures WithKey(SortByDateDesc(s, key), key, k) == WithKey(s, key, k)
  {
    if s != [] {
      var p := s[..|s| - 1];
      SortStable(p, key, k);
      InsertStable(SortByDateDesc(p, key), s[|s| - 1], key, k);
    }
  }

  /** Posts without a date come after every dated post. */
  lemma UndatedLast<T>(s: seq<T>, key: T -> String, i: int, j: int)
    requires 0 <= i < j < |SortByDateDesc(s, key)|
    requires key(SortByDateDesc(s, key)[i]) == []
    ensures key(SortByDateDesc(s, key)[j]) == []
  {
    SortByDateDescCorrect(s, key);
  }

  /** The prefix `s[..j]` followed by `x` and then the rest is where the insertion puts `x`. */
  lemma {:induction false} InsertSplit<T>(s: seq<T>, x: T, key: T -> String, j: nat)
    requires j <= |s|
    requires j == 0 || !Before(key(s[j - 1]), key(x))
    requires forall k :: j <= k < |s| ==> Before(key(s[k]), key(x))
    decreases |s|
    ensures Insert(s, x, key) == s[..j] + [x] + s[j..]
  {
    if j < |s| {
      var p := s[..|s| - 1];
      InsertSplit(p, x, key, j);
      assert s[..j] + [x] + s[j..] == p[..j] + [x] + p[j..] + [s[|s| - 1]];
    } else {
      assert s[..j] == s;
    }
  }

  /** A new array holding the elements of `s`, as the list the sort works on. */
  method ArrayOf<T>(s: seq<T>) returns (a: array<T>)
    ensures fresh(a) && a[..] == s
  {
    a := new T[|s|](i requires 0 <= i < |s| => s[i]);
  }

  /**
   * `a.sort(...)` in place: insertion sort that shifts the larger-dated prefix
   * entries one slot right and drops each new element into the gap.
   */
  method SortInPlace<T>(a: array<T>, key: T -> String)
    modifies a
    ensures a[..] == SortByDateDesc(old(a[..]), key)
  {
    var i := 0;
    while i < a.Length
      invariant 0 <= i <= a.Length
      invariant a[..i] == SortByDateDesc(old(a[..])[..i], key)
      invariant a[i..] == old(a[..])[i..]
    {
      ghost var before := a[..];
      InsertAt(a, i, key);
      assert old(a[..])[..i + 1] == old(a[..])[..i] + [before[i]];
      assert a[i + 1..] == before[i + 1..];
      i := i + 1;
    }
    assert a[..] == a[..a.Length];
    assert old(a[..]) == old(a[..])[..a.Length];
  }

  /** One insertion step: `a[i]` moves into the newest-first prefix `a[..i]`; the rest stays. */
  method InsertAt<T>(a: array<T>, i: nat, key: T -> String)
    requires i < a.Length
    modifies a
    ensures a[..i + 1] == Insert(old(a[..i]), old(a[i]), key)
    ensures a[i + 1..] == old(a[i + 1..])
  {
    ghost var s := a[..i];
    var x := a[i];
    var j := i;
    while j > 0 && Before(key(a[j - 1]), key(x))
      invariant 0 <= j <= i
      invariant a[..j] == s[..j]
      invariant a[j + 1..i + 1] == s[j..i]
      invariant a[i + 1..] == old(a[i + 1..])
      invariant forall k :: j <= k < i ==> Before(key(s[k]), key(x))
    {
      ghost var shifted := a[j + 1..i + 1];
      a[j] := a[j - 1];
      assert a[j] == s[j - 1] && a[j + 1..i + 1] == shifted;
      assert a[j..i + 1] == [s[j - 1]] + s[j..i];
      j := j - 1;
    }
    a[j] := x;
    Placed(s, x, key, j, a[..i + 1]);
  }

  /** The prefix with `x` dropped into slot `j` is the insertion of `x`. */
  lemma Placed<T>(s: seq<T>, x: T, key: T -> String, j: nat, r: seq<T>)
    requires j <= |s| && |r| == |s| + 1
    requires r[..j] == s[..j] && r[j] == x && r[j + 1..] == s[j..]
    requires j == 0 || !Before(key(s[j - 1]), key(x))
    requires forall k :: j <= k < |s| ==> Before(key(s[k]), key(x))
    ensures r == Insert(s, x, key)
  {
    Spliced(s, x, j, r);
    InsertSplit(s, x, key, j);
  }

  /** A sequence that agrees with `s` before slot `j`, holds `x` there and `s[j..]` after is `s` with `x` put in at `j`. */
  lemma Spliced<T>(s: seq<T>, x: T, j: nat, r: seq<T>)
    requires j <= |s| && |r| == |s| + 1
    requires r[..j] == s[..j] && r[j] == x && r[j + 1..] == s[j..]
    ensures r == s[..j] + [x] + s[j..]
  {
    assert r == r[..j] + [r[j]] + r[j + 1..];
  }
}

/**
 * The page header's plane image: a click moves to the next image, wrapping
 * around, and stores the new index so that the next visit starts from it.
 */
module Header {
  import opened Results
  import opened Text

  const IndexKey: String := "heroImageIndex"

  /** JavaScript's `%` on integers: the remainder takes the sign of the dividend. */
  function JsRem(a: int, n: nat): (r: int)
    requires n > 0
    ensures a >= 0 ==> 0 <= r < n
    ensures a < 0 ==> -(n as int) < r <= 0
    ensures 0 <= a < n ==> r == a
    ensures a == n ==> r == 0
  {
    if a >= 0 then
      if a < n then a else if a == n then 0 else a % n
    else -((-a) % n)
  }

  /** `getNextIndex(current)`: one image on, wrapping from the last image to the first. */
  function GetNextIndex(current: int, count: nat): (r: int)
    requires count > 0
    ensures 0 <= current < count - 1 ==> r == current + 1
    ensures current == count - 1 ==> r == 0
    ensures 0 <= current ==> 0 <= r < count
  {
    JsRem(current + 1, count)
  }

  /** The number of leading decimal digits of `s`. */
  function DigitRun(s: String): (k: nat)
    ensures k <= |s|
    ensures forall i :: 0 <= i < k ==> IsDigit(s[i])
    ensures k < |s| ==> !IsDigit(s[k])
  {
    if s != [] && IsDigit(s[0]) then 1 + DigitRun(s[1..]) else 0
  }

  /** The value of a string of decimal digits. */
  function DigitsValue(ds: String): nat
    requires forall i :: 0 <= i < |ds| ==> IsDigit(ds[i])
  {
    if ds == [] then 0
    else
      var last := ds[|ds| - 1];
      assert IsDigit(last);
      DigitsValue(ds[..|ds| - 1]) * 10 + (last as int - '0' as int)
  }

  /** What follows an optional leading sign. */
  function Unsigned(t: String): (u: String)
    ensures t != [] && (t[0] == '-' || t[0] == '+') ==> u == t[1..]
    ensures t == [] || (t[0] != '-' && t[0] != '+') ==> u == t
  {
    if t != [] && (t[0] == '-' || t[0] == '+') then t[1..] else t
  }

  /**
   * `parseInt(s, 10)`: leading white space is skipped, an optional sign read,
   * and then the longest run of digits; without any digit the result is NaN
   * (none here).
   */
  function ParseInt10(s: String): (r: Option<int>)
  {
    var t := TrimStart(s);
    var negative := t != [] && t[0] == '-';
    var u := Unsigned(t);
    var k := DigitRun(u);
    if k == 0 then None
    else
      var v: int := DigitsValue(u[..k]);
      Some(if negative then -v else v)
  }

  /**
   * `getCurrentIndex()`: 0 when nothing (or the empty string) is stored or the
   * stored text does not parse; otherwise the parsed value, which is not
   * clamped to the number of images.
   */
  function GetCurrentIndex(stored: Option<String>): (r: int)
    ensures stored.None? || stored.value == [] ==> r == 0
    ensures stored.Some? && stored.value != [] && ParseInt10(stored.value).None? ==> r == 0
    ensures stored.Some? && stored.value != [] && ParseInt10(stored.value).Some? ==> r == ParseInt10(stored.value).value
  {
    if stored.None? || stored.value == [] then 0
    else match ParseInt10(stored.value)
      case None => 0
      case Some(v) => v
  }

  /** The digits of `n` read back as `n`. */
  lemma {:induction false} DigitsOfNat(n: nat)
    ensures DigitsValue(NatToString(n)) == n
  {
    var s := NatToString(n);
    if n >= 10 {
      DigitsOfNat(n / 10);
      assert s[..|s| - 1] == NatToString(n / 10);
    }
  }

  /** A stored index reads back as itself: `parseInt(String(n), 10) === n`. */
  lemma StoredIndexReadsBack(n: nat)
    ensures ParseInt10(NatToString(n)) == Some(n)
    ensures GetCurrentIndex(Some(NatToString(n))) == n
  {
    var s := NatToString(n);
    assert !IsSpace(s[0]);
    assert TrimStart(s) == s;
    assert s[0] != '-' && s[0] != '+';
    DigitRunAll(s);
    assert s[..|s|] == s;
    DigitsOfNat(n);
  }

  /** A string of digits is one run. */
  lemma {:induction false} DigitRunAll(s: String)
    requires forall i :: 0 <= i < |s| ==> IsDigit(s[i])
    ensures DigitRun(s) == |s|
  {
    if s != [] {
      DigitRunAll(s[1..]);
    }
  }

  /** The header's state: the plane image index, the browser's storage, and the number of plane images. */
  class HeaderState {
    var index: int
    var storage: map<String, String>
    const count: nat

    /** The first index: read from storage when there is a window, 0 during server rendering. */
    constructor (hasWindow: bool, storage: map<String, String>, count: nat)
      ensures this.storage == storage && this.count == count
      ensures !hasWindow ==> index == 0
      ensures hasWindow ==> index == GetCurrentIndex(if IndexKey in storage then Some(storage[IndexKey]) else None)
    {
      this.storage := storage;
      this.count := count;
      index := if hasWindow then GetCurrentIndex(if IndexKey in storage then Some(storage[IndexKey]) else None) else 0;
    }

    /** `images[index]`: the plane image shown, none for an index outside the list. */
    function PlaneImage(): (r: Option<nat>)
      reads this
      ensures r.Some? <==> 0 <= index < count
      ensures r.Some? ==> r.value == index
    {
      if 0 <= index < count then Some(index) else None
    }

    /**
     * `handleClick()`, which exists only while an image is shown: the index
     * moves to the next image and the same value is stored under the index key.
     */
    method HandleClick()
      requires 0 <= index < count
      modifies this
      ensures count > 0 && index == GetNextIndex(old(index), count)
      ensures storage == old(storage)[IndexKey := NatToString(index)]
      ensures 0 <= index < count
    {
      var next := GetNextIndex(index, count);
      storage := storage[IndexKey := NatToString(next)];
      index := next;
    }
  }

  /** After a click, a fresh page reads back the index the click moved to. */
  lemma ClickSurvivesReload(index: int, count: nat, storage: map<String, String>)
    requires 0 <= index < count
    ensures var next := GetNextIndex(index, count);
      var stored := storage[IndexKey := NatToString(next)];
      next >= 0 && GetCurrentIndex(Some(stored[IndexKey])) == next
  {
    var next := GetNextIndex(index, count);
    StoredIndexReadsBack(next);
  }
}

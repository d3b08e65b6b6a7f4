/** Read-only range queries of the `NSArray (StockChartUtils)` category.

    The array is immutable, so it is a `seq<T>`. The header does not say how its
    `id` elements compare, so each query takes an integer projection:
    `key` orders the elements for the two boundary searches (a chart's dates),
    `value` ranks them for the two extremum scans (a chart's prices).
    "Not found" (Foundation's NSNotFound, or nil) is `None`. */
module StockChartUtils {

  datatype Option<T> = None | Some(value: T)

  /** Foundation's NSRange: `length` consecutive indices starting at `location`. */
  datatype NSRange = NSRange(location: nat, length: nat) {
    /** One past the last index of the range. */
    function End(): nat { location + length }

    predicate Contains(i: int) { location <= i < End() }
  }

  predicate InBounds<T>(a: seq<T>, range: NSRange) {
    range.End() <= |a|
  }

  /** The elements of `range` ascend by `key`: what "inSortedRange" asks of the caller. */
  predicate SortedIn<T>(a: seq<T>, key: T -> int, range: NSRange)
    requires InBounds(a, range)
  {
    forall i, j :: range.location <= i < j < range.End() ==> key(a[i]) <= key(a[j])
  }

  // ---------------------------------------------------------------------------
  // Boundary searches
  // ---------------------------------------------------------------------------

  /** The first index of `range` whose key is strictly greater than `searchKey`
      (so the leftmost among equal keys), or `None` when every key is at most
      `searchKey`. This needs no sortedness; the binary search below does. */
  function SmallestBiggerThan<T>(a: seq<T>, key: T -> int, searchKey: int, range: NSRange): (r: Option<nat>)
    requires InBounds(a, range)
    ensures r.Some? ==> range.Contains(r.value) && key(a[r.value]) > searchKey
    ensures r.Some? ==> forall j :: range.location <= j < r.value ==> key(a[j]) <= searchKey
    ensures r.None? <==> forall j :: range.Contains(j) ==> key(a[j]) <= searchKey
    decreases range.length
  {
    if range.length == 0 then None
    else if key(a[range.location]) > searchKey then Some(range.location)
    else SmallestBiggerThan(a, key, searchKey, NSRange(range.location + 1, range.length - 1))
  }

  /** The last index of `range` whose key is strictly less than `searchKey`
      (so the rightmost among equal keys), or `None` when every key is at least
      `searchKey`. */
  function BiggestSmallerThan<T>(a: seq<T>, key: T -> int, searchKey: int, range: NSRange): (r: Option<nat>)
    requires InBounds(a, range)
    ensures r.Some? ==> range.Contains(r.value) && key(a[r.value]) < searchKey
    ensures r.Some? ==> forall j :: r.value < j < range.End() ==> key(a[j]) >= searchKey
    ensures r.None? <==> forall j :: range.Contains(j) ==> key(a[j]) >= searchKey
    decreases range.length
  {
    if range.length == 0 then None
    else if key(a[range.End() - 1]) < searchKey then Some(range.End() - 1)
    else BiggestSmallerThan(a, key, searchKey, NSRange(range.location, range.length - 1))
  }

  /** `indexOfSmallestObjectBiggerThan:inSortedRange:` as a binary search over
      `[lo, hi)`, which narrows to the boundary between keys `<= searchKey`
      and keys `> searchKey`. */
  method IndexOfSmallestObjectBiggerThan<T>(a: seq<T>, key: T -> int, searchKey: int, range: NSRange)
    returns (r: Option<nat>)
    requires InBounds(a, range) && SortedIn(a, key, range)
    ensures r == SmallestBiggerThan(a, key, searchKey, range)
  {
    var lo, hi := range.location, range.End();
    while lo < hi
      invariant range.location <= lo <= hi <= range.End()
      invariant forall j :: range.location <= j < lo ==> key(a[j]) <= searchKey
      invariant forall j :: hi <= j < range.End() ==> key(a[j]) > searchKey
    {
      var mid := lo + (hi - lo) / 2;
      if key(a[mid]) <= searchKey {
        lo := mid + 1;
      } else {
        hi := mid;
      }
    }
    r := if lo < range.End() then Some(lo) else None;
    if lo < range.End() {
      assert range.Contains(lo) && key(a[lo]) > searchKey;
    }
  }

  /** `indexOfBiggestObjectSmallerThan:inSortedRange:` as a binary search over
      `[lo, hi)`, which narrows to the boundary between keys `< searchKey`
      and keys `>= searchKey`; the answer is the index just below it. */
  method IndexOfBiggestObjectSmallerThan<T>(a: seq<T>, key: T -> int, searchKey: int, range: NSRange)
    returns (r: Option<nat>)
    requires InBounds(a, range) && SortedIn(a, key, range)
    ensures r == BiggestSmallerThan(a, key, searchKey, range)
  {
    var lo, hi := range.location, range.End();
    while lo < hi
      invariant range.location <= lo <= hi <= range.End()
      invariant forall j :: range.location <= j < lo ==> key(a[j]) < searchKey
      invariant forall j :: hi <= j < range.End() ==> key(a[j]) >= searchKey
    {
      var mid := lo + (hi - lo) / 2;
      if key(a[mid]) < searchKey {
        lo := mid + 1;
      } else {
        hi := mid;
      }
    }
    r := if lo > range.location then Some(lo - 1) else None;
    if lo > range.location {
      assert range.Contains(lo - 1) && key(a[lo - 1]) < searchKey;
    }
  }

  /** The index where the keys of a range start to exceed `searchKey`:
      the search result, or the end of the range when there is none. */
  function BiggerBoundary<T>(a: seq<T>, key: T -> int, searchKey: int, range: NSRange): nat
    requires InBounds(a, range)
  {
    match SmallestBiggerThan(a, key, searchKey, range)
    case Some(i) => i
    case None => range.End()
  }

  /** On a sorted range the search splits it in two: keys up to `searchKey`
      before the boundary, keys above it from the boundary on. */
  lemma SmallestBiggerPartitions<T>(a: seq<T>, key: T -> int, searchKey: int, range: NSRange)
    requires InBounds(a, range) && SortedIn(a, key, range)
    ensures range.location <= BiggerBoundary(a, key, searchKey, range) <= range.End()
    ensures forall j :: range.location <= j < BiggerBoundary(a, key, searchKey, range) ==> key(a[j]) <= searchKey
    ensures forall j :: BiggerBoundary(a, key, searchKey, range) <= j < range.End() ==> key(a[j]) > searchKey
  {
    var p := BiggerBoundary(a, key, searchKey, range);
    forall j | p <= j < range.End() ensures key(a[j]) > searchKey {
      assert key(a[p]) <= key(a[j]);
    }
  }

  /** On a sorted range the smaller-than search splits it in two: keys below
      `searchKey` up to the result, keys at least `searchKey` after it. */
  lemma BiggestSmallerPartitions<T>(a: seq<T>, key: T -> int, searchKey: int, range: NSRange)
    requires InBounds(a, range) && SortedIn(a, key, range)
    ensures forall j :: range.Contains(j) ==>
      (key(a[j]) < searchKey <==> (BiggestSmallerThan(a, key, searchKey, range).Some? &&
                                   j <= BiggestSmallerThan(a, key, searchKey, range).value))
  {
    var r := BiggestSmallerThan(a, key, searchKey, range);
    if r.Some? {
      forall j | range.location <= j <= r.value ensures key(a[j]) < searchKey {
        assert key(a[j]) <= key(a[r.value]);
      }
    }
  }

  /** A key below the whole sorted range: the bigger-than search answers the
      range's first index and the smaller-than search finds nothing. */
  lemma KeyBelowRange<T>(a: seq<T>, key: T -> int, searchKey: int, range: NSRange)
    requires InBounds(a, range) && SortedIn(a, key, range)
    requires range.length > 0 && searchKey < key(a[range.location])
    ensures SmallestBiggerThan(a, key, searchKey, range) == Some(range.location)
    ensures BiggestSmallerThan(a, key, searchKey, range) == None
  {
    forall j | range.Contains(j) ensures key(a[j]) >= searchKey {
      assert key(a[range.location]) <= key(a[j]);
    }
  }

  /** A key above the whole sorted range: the smaller-than search answers the
      range's last index and the bigger-than search finds nothing. */
  lemma KeyAboveRange<T>(a: seq<T>, key: T -> int, searchKey: int, range: NSRange)
    requires InBounds(a, range) && SortedIn(a, key, range)
    requires range.length > 0 && searchKey > key(a[range.End() - 1])
    ensures BiggestSmallerThan(a, key, searchKey, range) == Some(range.End() - 1)
    ensures SmallestBiggerThan(a, key, searchKey, range) == None
  {
    forall j | range.Contains(j) ensures key(a[j]) <= searchKey {
      assert key(a[j]) <= key(a[range.End() - 1]);
    }
  }

  /** On a sorted range, when both searches succeed for the same key, the
      biggest-smaller index lies strictly before the smallest-bigger index and
      every key strictly between them equals `searchKey`. */
  lemma SmallerBeforeBigger<T>(a: seq<T>, key: T -> int, searchKey: int, range: NSRange)
    requires InBounds(a, range) && SortedIn(a, key, range)
    requires BiggestSmallerThan(a, key, searchKey, range).Some?
    requires SmallestBiggerThan(a, key, searchKey, range).Some?
    ensures BiggestSmallerThan(a, key, searchKey, range).value < SmallestBiggerThan(a, key, searchKey, range).value
    ensures forall j :: BiggestSmallerThan(a, key, searchKey, range).value < j < SmallestBiggerThan(a, key, searchKey, range).value
                        ==> key(a[j]) == searchKey
  {
  }

  /** A larger search key never moves the boundary of a sorted range to the left. */
  lemma BiggerBoundaryMonotone<T>(a: seq<T>, key: T -> int, k1: int, k2: int, range: NSRange)
    requires InBounds(a, range) && SortedIn(a, key, range)
    requires k1 <= k2
    ensures BiggerBoundary(a, key, k1, range) <= BiggerBoundary(a, key, k2, range)
  {
    var p1 := BiggerBoundary(a, key, k1, range);
    var p2 := BiggerBoundary(a, key, k2, range);
    SmallestBiggerPartitions(a, key, k1, range);
    SmallestBiggerPartitions(a, key, k2, range);
  }

  // ---------------------------------------------------------------------------
  // Extremum scans over [startIdx, endIdx], both ends included
  // ---------------------------------------------------------------------------

  /** The first index of `[lo, hi]` holding the smallest value. */
  function ArgMin<T>(a: seq<T>, value: T -> int, lo: nat, hi: nat): (m: nat)
    requires lo <= hi < |a|
    ensures lo <= m <= hi
    ensures forall j :: lo <= j <= hi ==> value(a[m]) <= value(a[j])
    ensures forall j :: lo <= j < m ==> value(a[j]) > value(a[m])
    decreases hi - lo
  {
    if lo == hi then lo
    else
      var m := ArgMin(a, value, lo + 1, hi);
      if value(a[lo]) <= value(a[m]) then lo else m
  }

  /** The first index of `[lo, hi]` holding the largest value. */
  function ArgMax<T>(a: seq<T>, value: T -> int, lo: nat, hi: nat): (m: nat)
    requires lo <= hi < |a|
    ensures lo <= m <= hi
    ensures forall j :: lo <= j <= hi ==> value(a[m]) >= value(a[j])
    ensures forall j :: lo <= j < m ==> value(a[j]) < value(a[m])
    decreases hi - lo
  {
    if lo == hi then lo
    else
      var m := ArgMax(a, value, lo + 1, hi);
      if value(a[lo]) >= value(a[m]) then lo else m
  }

  /** Whether `[startIdx, endIdx]` is a non-empty run of valid indices. */
  predicate ValidSpan<T>(a: seq<T>, startIdx: nat, endIdx: nat) {
    startIdx <= endIdx < |a|
  }

  /** `minInRangeFromIndex:toIndex:`: the element of smallest value among the
      indices `startIdx..endIdx` (the first one on a tie), or `None` for an
      empty or out-of-bounds span. */
  function MinInRange<T>(a: seq<T>, value: T -> int, startIdx: nat, endIdx: nat): (r: Option<T>)
    ensures r.Some? <==> ValidSpan(a, startIdx, endIdx)
    ensures r.Some? ==> exists i :: startIdx <= i <= endIdx < |a| && a[i] == r.value
    ensures r.Some? ==> forall j :: startIdx <= j <= endIdx ==> value(r.value) <= value(a[j])
  {
    if ValidSpan(a, startIdx, endIdx) then Some(a[ArgMin(a, value, startIdx, endIdx)]) else None
  }

  /** `maxInRangeFromIndex:toIndex:`: the element of largest value among the
      indices `startIdx..endIdx` (the first one on a tie), or `None` for an
      empty or out-of-bounds span. */
  function MaxInRange<T>(a: seq<T>, value: T -> int, startIdx: nat, endIdx: nat): (r: Option<T>)
    ensures r.Some? <==> ValidSpan(a, startIdx, endIdx)
    ensures r.Some? ==> exists i :: startIdx <= i <= endIdx < |a| && a[i] == r.value
    ensures r.Some? ==> forall j :: startIdx <= j <= endIdx ==> value(r.value) >= value(a[j])
  {
    if ValidSpan(a, startIdx, endIdx) then Some(a[ArgMax(a, value, startIdx, endIdx)]) else None
  }

  /** `minInRangeFromIndex:toIndex:` as one linear scan, keeping the first
      index of the smallest value seen so far. */
  method MinInRangeFromIndex<T>(a: seq<T>, value: T -> int, startIdx: nat, endIdx: nat) returns (r: Option<T>)
    ensures r == MinInRange(a, value, startIdx, endIdx)
  {
    if !ValidSpan(a, startIdx, endIdx) {
      return None;
    }
    var best, i := startIdx, startIdx + 1;
    while i <= endIdx
      invariant startIdx <= best < i <= endIdx + 1
      invariant forall j :: startIdx <= j < i ==> value(a[best]) <= value(a[j])
      invariant forall j :: startIdx <= j < best ==> value(a[j]) > value(a[best])
    {
      if value(a[i]) < value(a[best]) {
        best := i;
      }
      i := i + 1;
    }
    ArgMinUnique(a, value, startIdx, endIdx, best);
    r := Some(a[best]);
  }

  /** `maxInRangeFromIndex:toIndex:` as one linear scan, keeping the first
      index of the largest value seen so far. */
  method MaxInRangeFromIndex<T>(a: seq<T>, value: T -> int, startIdx: nat, endIdx: nat) returns (r: Option<T>)
    ensures r == MaxInRange(a, value, startIdx, endIdx)
  {
    if !ValidSpan(a, startIdx, endIdx) {
      return None;
    }
    var best, i := startIdx, startIdx + 1;
    while i <= endIdx
      invariant startIdx <= best < i <= endIdx + 1
      invariant forall j :: startIdx <= j < i ==> value(a[best]) >= value(a[j])
      invariant forall j :: startIdx <= j < best ==> value(a[j]) < value(a[best])
    {
      if value(a[i]) > value(a[best]) {
        best := i;
      }
      i := i + 1;
    }
    ArgMaxUnique(a, value, startIdx, endIdx, best);
    r := Some(a[best]);
  }

  /** The first-occurrence tie rule pins the minimum's index down uniquely. */
  lemma ArgMinUnique<T>(a: seq<T>, value: T -> int, lo: nat, hi: nat, m: nat)
    requires lo <= m <= hi < |a|
    requires forall j :: lo <= j <= hi ==> value(a[m]) <= value(a[j])
    requires forall j :: lo <= j < m ==> value(a[j]) > value(a[m])
    ensures m == ArgMin(a, value, lo, hi)
  {
  }

  /** The first-occurrence tie rule pins the maximum's index down uniquely. */
  lemma ArgMaxUnique<T>(a: seq<T>, value: T -> int, lo: nat, hi: nat, m: nat)
    requires lo <= m <= hi < |a|
    requires forall j :: lo <= j <= hi ==> value(a[m]) >= value(a[j])
    requires forall j :: lo <= j < m ==> value(a[j]) < value(a[m])
    ensures m == ArgMax(a, value, lo, hi)
  {
  }

  /** Over the same non-empty span the minimum never exceeds the maximum, and
      they are equal exactly when every value in the span is the same. */
  lemma MinAtMostMax<T>(a: seq<T>, value: T -> int, startIdx: nat, endIdx: nat)
    requires ValidSpan(a, startIdx, endIdx)
    ensures value(MinInRange(a, value, startIdx, endIdx).value) <= value(MaxInRange(a, value, startIdx, endIdx).value)
    ensures value(MinInRange(a, value, startIdx, endIdx).value) == value(MaxInRange(a, value, startIdx, endIdx).value)
      <==> forall j :: startIdx <= j <= endIdx ==> value(a[j]) == value(a[startIdx])
  {
    var lo := ArgMin(a, value, startIdx, endIdx);
    var hi := ArgMax(a, value, startIdx, endIdx);
    assert MinInRange(a, value, startIdx, endIdx).value == a[lo];
    assert MaxInRange(a, value, startIdx, endIdx).value == a[hi];
  }

  /** Splitting a span at `mid`: the minimum over the whole span is the smaller
      of the minima of its two halves, and the first-occurrence rule prefers the
      left half on a tie. */
  lemma ArgMinSplit<T>(a: seq<T>, value: T -> int, lo: nat, mid: nat, hi: nat)
    requires lo <= mid < hi < |a|
    ensures ArgMin(a, value, lo, hi) ==
      (var l, r := ArgMin(a, value, lo, mid), ArgMin(a, value, mid + 1, hi);
       if value(a[l]) <= value(a[r]) then l else r)
  {
    var l, r := ArgMin(a, value, lo, mid), ArgMin(a, value, mid + 1, hi);
    var m := if value(a[l]) <= value(a[r]) then l else r;
    forall j | lo <= j <= hi ensures value(a[m]) <= value(a[j]) {
      if j <= mid {
        assert value(a[l]) <= value(a[j]);
      } else {
        assert value(a[r]) <= value(a[j]);
      }
    }
    ArgMinUnique(a, value, lo, hi, m);
  }

  // ---------------------------------------------------------------------------
  // Worked examples
  // ---------------------------------------------------------------------------

  /** Keys 1, 3, 5, 7, 9: the first key bigger than 5 is 7 (5 itself is not
      "bigger"), and the last key smaller than 5 is 3. */
  lemma SearchExample()
    ensures SmallestBiggerThan([1, 3, 5, 7, 9], (k: int) => k, 5, NSRange(0, 5)) == Some(3)
    ensures BiggestSmallerThan([1, 3, 5, 7, 9], (k: int) => k, 5, NSRange(0, 5)) == Some(1)
    ensures SmallestBiggerThan([1, 3, 5, 7, 9], (k: int) => k, 9, NSRange(0, 5)) == None
  {
  }

  /** (date, price) points sorted by date: over indices 0..4 the lowest price
      is at (3, 5) and the highest at (4, 40). */
  lemma ExtremaExample()
    ensures MinInRange([(1, 10), (2, 30), (3, 5), (4, 40), (5, 20)], (p: (int, int)) => p.1, 0, 4) == Some((3, 5))
    ensures MaxInRange([(1, 10), (2, 30), (3, 5), (4, 40), (5, 20)], (p: (int, int)) => p.1, 0, 4) == Some((4, 40))
    ensures MinInRange([(1, 10), (2, 30), (3, 5), (4, 40), (5, 20)], (p: (int, int)) => p.1, 3, 2) == None
  {
  }
}

# StockChart array range queries, in Dafny

This project models the `NSArray (StockChartUtils)` category of the StockChart
app. The category has four read-only queries over an array of chart data points:

- `indexOfSmallestObjectBiggerThan:inSortedRange:` finds the first element of a
  sorted `NSRange` whose key is strictly bigger than a search key.
- `indexOfBiggestObjectSmallerThan:inSortedRange:` finds the last element of that
  range whose key is strictly smaller than the search key.
- `minInRangeFromIndex:toIndex:` and `maxInRangeFromIndex:toIndex:` return the
  element with the smallest or the largest value between two indices.

The header declares these selectors without bodies. The model therefore states
the contract the selectors promise. It fixes the conventions the header leaves
open as follows:

- **Elements.** An `NSArray` is immutable, so the model uses a `seq<T>`. The
  header does not say how its `id` elements compare. Each query therefore takes
  an integer projection: `key` for the two searches (a point's date) and
  `value` for the two scans (a point's price).
- **Range.** `NSRange` is `(location, length)` and covers indices
  `location .. location + length - 1`. The searches require the range to lie
  inside the array and to be sorted ascending by `key`.
- **Not found.** `NSNotFound` becomes `None` of an `Option`. It is distinct from
  every index.
- **Duplicates.** The bigger-than search returns the leftmost qualifying index.
  The smaller-than search returns the rightmost one.
- **`toIndex`.** It is inclusive. An empty or out-of-bounds span
  (`startIdx > endIdx`, or `endIdx` past the end) gives `None`, which stands
  for a nil result. When several elements tie for the extremum, the first one
  wins.

The model has three layers:

1. Each query has a recursive specification function: `SmallestBiggerThan`,
   `BiggestSmallerThan`, `MinInRange` and `MaxInRange` (via `ArgMin` and
   `ArgMax`). Each function's contract characterises its result.
2. Methods implement the queries the way the category would: a binary search
   with `lo`/`hi` bounds, and a linear scan. Each method is proved equal to its
   specification function.
3. Lemmas relate the queries to each other.

All sources are in `stock_chart_utils.dfy`, in module `StockChartUtils`.

## Model

| member | source | states |
|---|---|---|
| StockChartUtils.SmallestBiggerThan | StockChart/StockChart/NSArray+StockChartUtils.h:26 | A found index lies in the range, its key is strictly bigger than the search key, and every earlier key in the range is at most the search key. The result is not-found exactly when no key in the range exceeds the search key. |
| StockChartUtils.BiggestSmallerThan | StockChart/StockChart/NSArray+StockChartUtils.h:27 | A found index lies in the range, its key is strictly smaller than the search key, and every later key in the range is at least the search key. The result is not-found exactly when no key in the range is below the search key. |
| StockChartUtils.IndexOfSmallestObjectBiggerThan | StockChart/StockChart/NSArray+StockChartUtils.h:26 | On an in-bounds range sorted by key, the binary search returns exactly the leftmost strictly-bigger index, or not-found. |
| StockChartUtils.IndexOfBiggestObjectSmallerThan | StockChart/StockChart/NSArray+StockChartUtils.h:27 | On an in-bounds range sorted by key, the binary search returns exactly the rightmost strictly-smaller index, or not-found. |
| StockChartUtils.SmallestBiggerPartitions | StockChart/StockChart/NSArray+StockChartUtils.h:26 | On a sorted range, the result (or the range end when nothing is found) splits the range: every key before it is at most the search key, and every key from it on is bigger. |
| StockChartUtils.BiggestSmallerPartitions | StockChart/StockChart/NSArray+StockChartUtils.h:27 | On a sorted range, a key is below the search key if and only if the search succeeded and the key's index is at or before the result. |
| StockChartUtils.KeyBelowRange | StockChart/StockChart/NSArray+StockChartUtils.h:26-27 | For a key below the first key of a non-empty sorted range, the bigger-than search returns the range's first index and the smaller-than search returns not-found. |
| StockChartUtils.KeyAboveRange | StockChart/StockChart/NSArray+StockChartUtils.h:26-27 | For a key above the last key of a non-empty sorted range, the smaller-than search returns the range's last index and the bigger-than search returns not-found. |
| StockChartUtils.SmallerBeforeBigger | StockChart/StockChart/NSArray+StockChartUtils.h:26-27 | On a sorted range where both searches succeed for one key, the biggest-smaller index is strictly before the smallest-bigger index, and every key strictly between them equals the search key. |
| StockChartUtils.BiggerBoundaryMonotone | StockChart/StockChart/NSArray+StockChartUtils.h:26 | On a sorted range, a larger search key never moves the bigger-than boundary to the left. |
| StockChartUtils.ArgMin | StockChart/StockChart/NSArray+StockChartUtils.h:29 | The index lies in `[lo, hi]`, its value is at most every value there, and every earlier index in the span holds a strictly larger value, so the first minimum wins. |
| StockChartUtils.ArgMax | StockChart/StockChart/NSArray+StockChartUtils.h:30 | The index lies in `[lo, hi]`, its value is at least every value there, and every earlier index in the span holds a strictly smaller value, so the first maximum wins. |
| StockChartUtils.MinInRange | StockChart/StockChart/NSArray+StockChartUtils.h:29 | An element is returned exactly when `startIdx <= endIdx < |a|`. It sits at some index of the span, and its value is at most the value at every index of the span. |
| StockChartUtils.MaxInRange | StockChart/StockChart/NSArray+StockChartUtils.h:30 | An element is returned exactly when `startIdx <= endIdx < |a|`. It sits at some index of the span, and its value is at least the value at every index of the span. |
| StockChartUtils.MinInRangeFromIndex | StockChart/StockChart/NSArray+StockChartUtils.h:29 | The linear scan returns exactly the specified minimum (the first on ties), or not-found for an empty or out-of-bounds span. |
| StockChartUtils.MaxInRangeFromIndex | StockChart/StockChart/NSArray+StockChartUtils.h:30 | The linear scan returns exactly the specified maximum (the first on ties), or not-found for an empty or out-of-bounds span. |
| StockChartUtils.ArgMinUnique | StockChart/StockChart/NSArray+StockChartUtils.h:29 | Any index that is a minimum of the span and has only strictly larger values before it is the `ArgMin` index, so the tie rule makes the result deterministic. |
| StockChartUtils.ArgMaxUnique | StockChart/StockChart/NSArray+StockChartUtils.h:30 | Any index that is a maximum of the span and has only strictly smaller values before it is the `ArgMax` index. |
| StockChartUtils.MinAtMostMax | StockChart/StockChart/NSArray+StockChartUtils.h:29-30 | Over the same non-empty span, the minimum's value is at most the maximum's. The two are equal if and only if every value in the span is the same. |
| StockChartUtils.ArgMinSplit | StockChart/StockChart/NSArray+StockChartUtils.h:29 | The minimum of a span split at `mid` is the smaller of the two halves' minima. On a tie it is the left half's. |
| StockChartUtils.SearchExample | StockChart/StockChart/NSArray+StockChartUtils.h:26-27 | Over keys 1, 3, 5, 7, 9, the first key bigger than 5 is at index 3 and the last key smaller than 5 is at index 1. Nothing is bigger than 9. |
| StockChartUtils.ExtremaExample | StockChart/StockChart/NSArray+StockChartUtils.h:29-30 | Over (date, price) points, the cheapest point in 0..4 is (3, 5) and the dearest is (4, 40). The reversed span 3..2 gives not-found. |

## Left out

- Immutability and repeatability get no lemma of their own. The array is a `seq` value, and every query is a function or a method without `modifies`. So no query can change the array, and equal arguments give equal results.
- Objective-C object comparison is left out. The header does not say which field the searches and the scans compare, or which method compares them. Each query takes an integer projection of the element instead.
- `NSUInteger` width is not modelled. Indices are unbounded `nat`s, and the midpoint is computed as `lo + (hi - lo) / 2`, which cannot overflow in any width.
- An unsorted range, or a range that reaches past the end of the array, is a precondition of the two searches, not an error result. The selector demands a sorted range, and Foundation raises an exception for a range past the end. It does not return a value.
- `StockChart/StockChart/StockChartRangeAnnotationManager.h` (the range-selector overlay) is not part of this model. It is bound to proprietary chart and range types, its minimum span is a floating-point `CGFloat`, and it reports through a delegate callback. The header also shows only signatures, so its clamping policy is not in the source.
- `StockChart/StockChart/StockChartDashedLineAnnotation.h` is not part of this model. It is drawing code: a bezier-path property and chart-axis arguments, with no logic to verify.

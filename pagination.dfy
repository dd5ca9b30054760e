/** Splitting the filtered list into pages of a fixed size. */
module Pagination {

  /** Announcements per page. */
  const PageSize: nat := 5

  function Min(a: int, b: int): int { if a <= b then a else b }
  function Max(a: int, b: int): int { if a >= b then a else b }

  /** The number of pages for `n` items: the least page count whose pages hold
      all `n` items, so zero for an empty list. */
  function TotalPages(n: nat): (r: nat)
    ensures r * PageSize >= n
    ensures r > 0 ==> (r - 1) * PageSize < n
  {
    (n + PageSize - 1) / PageSize
  }

  /** No pages exactly when there is nothing to show. */
  lemma TotalPagesZero(n: nat)
    ensures TotalPages(n) == 0 <==> n == 0
  {
  }

  /** More items never need fewer pages. */
  lemma TotalPagesMonotone(m: nat, n: nat)
    requires m <= n
    ensures TotalPages(m) <= TotalPages(n)
  {
  }

  /** The position a slice bound designates, as a list's `slice` reads it: a negative
      bound counts back from the end, and every bound is clamped to `[0, len]`. */
  function SliceBound(i: int, len: nat): (r: nat)
    ensures r <= len
    ensures 0 <= i <= len ==> r == i
    ensures i < 0 ==> r == Max(len + i, 0)
    ensures i > len ==> r == len
  {
    if i < 0 then (if len + i < 0 then 0 else len + i)
    else if i > len then len
    else i
  }

  /** A list's `slice(start, end)`: the elements from the designated start up to
      the designated end, or none when the end is not past the start. */
  function Slice<T>(s: seq<T>, start: int, end: int): (r: seq<T>)
    ensures |r| <= |s|
    ensures |r| == Max(SliceBound(end, |s|) - SliceBound(start, |s|), 0)
    ensures r == s[SliceBound(start, |s|)..SliceBound(start, |s|) + |r|]
  {
    var b, e := SliceBound(start, |s|), SliceBound(end, |s|);
    if b < e then s[b..e] else []
  }

  /** The announcements shown on 1-based page `page`. For a page of at least
      one it is the contiguous segment from `min((page-1)*5, n)` to
      `min(page*5, n)`, so it holds at most five items. */
  function PageSlice<T>(s: seq<T>, page: int): (r: seq<T>)
    ensures page >= 1 ==> Min((page - 1) * PageSize, |s|) <= Min(page * PageSize, |s|)
    ensures page >= 1 ==> r == s[Min((page - 1) * PageSize, |s|)..Min(page * PageSize, |s|)]
    ensures page >= 1 ==> |r| <= PageSize
  {
    Slice(s, (page - 1) * PageSize, page * PageSize)
  }

  /** Pages past the last one are empty. */
  lemma PageSliceEmptyPastEnd<T>(s: seq<T>, page: int)
    requires page >= 1 && page > TotalPages(|s|)
    ensures PageSlice(s, page) == []
  {
  }

  /** Every page from the first to the last holds at least one item. */
  lemma PageSliceNonEmpty<T>(s: seq<T>, page: int)
    requires 1 <= page <= TotalPages(|s|)
    ensures PageSlice(s, page) != []
  {
  }

  /** Every item is shown on exactly one page: item `i` is item `i % 5` of page
      `i / 5 + 1`, and that page exists. */
  lemma PageSliceCovers<T>(s: seq<T>, i: int)
    requires 0 <= i < |s|
    ensures 1 <= i / PageSize + 1 <= TotalPages(|s|)
    ensures i % PageSize < |PageSlice(s, i / PageSize + 1)|
    ensures PageSlice(s, i / PageSize + 1)[i % PageSize] == s[i]
  {
    var p := i / PageSize + 1;
    assert (p - 1) * PageSize + i % PageSize == i;
  }

  /** An item on page `page` (at least one) is not on any other page of at least
      one: the pages do not overlap. */
  lemma PagesDisjoint<T>(s: seq<T>, page: int, other: int, k: int, j: int)
    requires 1 <= page < other
    requires 0 <= k < |PageSlice(s, page)| && 0 <= j < |PageSlice(s, other)|
    ensures (page - 1) * PageSize + k < (other - 1) * PageSize + j
    ensures PageSlice(s, page)[k] == s[(page - 1) * PageSize + k]
    ensures PageSlice(s, other)[j] == s[(other - 1) * PageSize + j]
  {
  }

  /** From a page past the last one, Next (`min(page + 1, totalPages)`) lands on
      the last page, which is not empty; Previous (`max(page - 1, 1)`) stays past
      the end when the page was more than one past it. */
  lemma LeavingStalePage<T>(s: seq<T>, page: int)
    requires page >= 1 && 1 <= TotalPages(|s|) < page
    ensures Min(page + 1, TotalPages(|s|)) == TotalPages(|s|)
    ensures PageSlice(s, Min(page + 1, TotalPages(|s|))) != []
    ensures page > TotalPages(|s|) + 1 ==> PageSlice(s, Max(page - 1, 1)) == []
  {
    PageSliceNonEmpty(s, TotalPages(|s|));
    if page > TotalPages(|s|) + 1 {
      PageSliceEmptyPastEnd(s, page - 1);
    }
  }
}

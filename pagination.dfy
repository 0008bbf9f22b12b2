/** The arithmetic of the paginated user listing: the page count, the
    clamped skip and the slice bounds. Both the store query (skip, then
    limit) and the cached array's `slice` take the same window, written
    once here as `Window`. */
module Pagination {

  function Min(a: int, b: int): int {
    if a <= b then a else b
  }

  /** The number of pages, ceil(total / pageSize): the least count of pages
      of `pageSize` entries that holds `total` entries. */
  function TotalPages(total: nat, pageSize: int): (r: nat)
    requires pageSize >= 1
    ensures total <= r * pageSize
    ensures (r - 1) * pageSize < total
    ensures r == 0 <==> total == 0
  {
    var q := (total + pageSize - 1) / pageSize;
    assert q * pageSize + (total + pageSize - 1) % pageSize == total + pageSize - 1;
    assert (q - 1) * pageSize == q * pageSize - pageSize;
    q
  }

  /** The entries to skip before a page: (page - 1) * pageSize, clamped to
      0 for pages numbered 0 or less. */
  function Offset(page: int, pageSize: int): (r: nat)
    requires pageSize >= 1
    ensures page >= 1 ==> r == (page - 1) * pageSize
    ensures page <= 1 ==> r == 0
  {
    var skip := (page - 1) * pageSize;
    assert page <= 1 ==> skip <= 0 by {
      if page <= 1 {
        assert (1 - page) * pageSize >= 0;
      }
    }
    if skip < 0 then 0 else skip
  }

  /** At most `size` entries of `s` starting at `start`; empty when `start`
      is past the end. */
  function Window<T>(s: seq<T>, start: nat, size: nat): (r: seq<T>)
    ensures |r| <= size
    ensures |r| == if start >= |s| then 0 else Min(size, |s| - start)
    ensures forall k :: 0 <= k < |r| ==> r[k] == s[start + k]
  {
    s[Min(start, |s|)..Min(start + size, |s|)]
  }

  /** The entries of page number `page`. */
  function Page<T>(s: seq<T>, page: int, pageSize: int): seq<T>
    requires pageSize >= 1
  {
    Window(s, Offset(page, pageSize), pageSize)
  }

  /** Pages 1 to k, one after the other. */
  function FirstPages<T>(s: seq<T>, pageSize: int, k: nat): seq<T>
    requires pageSize >= 1
  {
    if k == 0 then [] else FirstPages(s, pageSize, k - 1) + Page(s, k, pageSize)
  }

  /** Every page holds at most `pageSize` entries, and a page numbered 0 or
      less holds the entries of page 1. */
  lemma PageBounds<T>(s: seq<T>, page: int, pageSize: int)
    requires pageSize >= 1
    ensures |Page(s, page, pageSize)| <= pageSize
    ensures page <= 1 ==> Page(s, page, pageSize) == Page(s, 1, pageSize)
  {
  }

  /** Pages 1 to k are exactly the first k * pageSize entries, with no gap
      and no repetition. */
  lemma {:induction false} FirstPagesPrefix<T>(s: seq<T>, pageSize: int, k: nat)
    requires pageSize >= 1
    ensures FirstPages(s, pageSize, k) == s[..Min(k * pageSize, |s|)]
  {
    if k > 0 {
      FirstPagesPrefix(s, pageSize, k - 1);
      var a := Min((k - 1) * pageSize, |s|);
      var b := Min(k * pageSize, |s|);
      assert (k - 1) * pageSize + pageSize == k * pageSize;
      assert Page(s, k, pageSize) == s[a..b];
      assert s[..a] + s[a..b] == s[..b];
    }
  }

  /** Pages 1 to TotalPages reproduce the whole ordered collection. */
  lemma AllPagesCoverAll<T>(s: seq<T>, pageSize: int)
    requires pageSize >= 1
    ensures FirstPages(s, pageSize, TotalPages(|s|, pageSize)) == s
  {
    FirstPagesPrefix(s, pageSize, TotalPages(|s|, pageSize));
  }

  /** For pages numbered from 1, the out-of-range test `page > TotalPages`
      rejects exactly the pages that would be empty. */
  lemma PageInRange<T>(s: seq<T>, page: int, pageSize: int)
    requires pageSize >= 1 && page >= 1
    ensures Page(s, page, pageSize) != [] <==> page <= TotalPages(|s|, pageSize)
  {
    var t := TotalPages(|s|, pageSize);
    var off := Offset(page, pageSize);
    assert |Page(s, page, pageSize)| == if off >= |s| then 0 else Min(pageSize, |s| - off);
    if page <= t {
      MulMonotone(page - 1, t - 1, pageSize);
      assert off < |s|;
    } else {
      MulMonotone(t, page - 1, pageSize);
      assert off >= |s|;
    }
  }

  lemma MulMonotone(a: int, b: int, c: nat)
    requires a <= b
    ensures a * c <= b * c
  {
  }

  /** Identifiers 1 to 10 with pages of 3: page 1 is [1, 2, 3], page 4 is
      [10], there are 4 pages so page 5 is out of range; with 5 removed,
      page 2 is [4, 6, 7] and the count is 9. */
  lemma TenIdsExample()
    ensures TotalPages(10, 3) == 4
    ensures Page([1, 2, 3, 4, 5, 6, 7, 8, 9, 10], 1, 3) == [1, 2, 3]
    ensures Page([1, 2, 3, 4, 5, 6, 7, 8, 9, 10], 4, 3) == [10]
    ensures Page([1, 2, 3, 4, 6, 7, 8, 9, 10], 2, 3) == [4, 6, 7]
    ensures TotalPages(9, 3) == 3
  {
  }
}

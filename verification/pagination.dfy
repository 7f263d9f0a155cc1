/** Splitting a result list into pages (search-server/paginator.h).
    Iterators into the paginated container are modelled as integer
    positions into a sequence, so a page is the half-open range of
    positions `[begin, end)`. */
module Pagination {
  import opened Documents

  /** `DivUp(x, y)`: C++ integer division, plus one when the remainder is
      not zero. */
  function DivUp(x: int, y: int): int
    requires y != 0
  {
    TruncDiv(x, y) + (if TruncRem(x, y) != 0 then 1 else 0)
  }

  /** For a non-negative count and a positive divisor, `DivUp` is the
      ceiling of `x / y`: the least `n` with `x <= n * y`. */
  lemma DivUpIsCeiling(x: int, y: int)
    requires x >= 0 && y > 0
    ensures DivUp(x, y) >= 0
    ensures (DivUp(x, y) - 1) * y < x <= DivUp(x, y) * y
  {
    var q := TruncDiv(x, y);
    var r := TruncRem(x, y);
    assert q * y >= 0;
    assert q * y <= x < q * y + y;
    assert q >= 0;
    if r != 0 {
      assert (q + 1) * y == q * y + y;
    } else {
      assert (q - 1) * y == q * y - y;
    }
  }

  /** `IteratorRange`: one page, as its positions and the size it was
      built with. `begin()`, `end()` and `size()` are the fields. */
  datatype IteratorRange = IteratorRange(begin: int, end: int, size: int)

  /** What the `Paginator` constructor builds for the positions
      `[begin, end)`: `DivUp(end - begin, pageSize)` pages; page `i` starts
      `i * pageSize` after `begin`; every page but the last holds
      `pageSize` positions; the last one runs to `end`. */
  ghost predicate IsPagination(pages: seq<IteratorRange>, begin: int, end: int, pageSize: int)
    requires pageSize > 0
  {
    && |pages| == DivUp(end - begin, pageSize)
    && (forall i :: 0 <= i < |pages| ==> pages[i].begin == begin + i * pageSize)
    && (forall i :: 0 <= i < |pages| - 1 ==>
          pages[i].end == pages[i].begin + pageSize && pages[i].size == pageSize)
    && (|pages| > 0 ==>
          var last := pages[|pages| - 1];
          last.end == end && last.size == end - last.begin)
  }

  lemma MulMonotone(a: int, b: int, y: int)
    requires a <= b && y >= 0
    ensures a * y <= b * y
  {
    assert b * y - a * y == (b - a) * y;
  }

  /** An empty range has no page, and a non-empty one at least one. */
  lemma EmptyRangeNoPages(pages: seq<IteratorRange>, begin: int, end: int, pageSize: int)
    requires pageSize > 0 && begin <= end
    requires IsPagination(pages, begin, end, pageSize)
    ensures pages == [] <==> begin == end
  {
    DivUpIsCeiling(end - begin, pageSize);
    if begin == end {
      assert (|pages| - 1) * pageSize < 0;
      if |pages| > 0 {
        MulMonotone(0, |pages| - 1, pageSize);
      }
    }
  }

  /** Each page's recorded size is its number of positions; every page
      but the last is full, and the last holds between 1 and `pageSize`
      positions, all of them inside `[begin, end)`. */
  lemma PageSizes(pages: seq<IteratorRange>, begin: int, end: int, pageSize: int)
    requires pageSize > 0 && begin <= end
    requires IsPagination(pages, begin, end, pageSize)
    ensures forall i :: 0 <= i < |pages| ==> pages[i].size == pages[i].end - pages[i].begin
    ensures forall i :: 0 <= i < |pages| - 1 ==> pages[i].size == pageSize
    ensures |pages| > 0 ==> 1 <= pages[|pages| - 1].size <= pageSize
    ensures forall i :: 0 <= i < |pages| ==> begin <= pages[i].begin < pages[i].end <= end
  {
    var n := |pages|;
    DivUpIsCeiling(end - begin, pageSize);
    forall i | 0 <= i < n
      ensures begin <= pages[i].begin < pages[i].end <= end
    {
      MulMonotone(0, i, pageSize);
      if i < n - 1 {
        MulMonotone(i + 1, n - 1, pageSize);
        assert pages[i].end == begin + (i + 1) * pageSize;
      } else {
        assert pages[i].begin == begin + (n - 1) * pageSize;
      }
    }
    if n > 0 {
      var last := pages[n - 1];
      assert last.begin == begin + (n - 1) * pageSize;
      assert n * pageSize == (n - 1) * pageSize + pageSize;
    }
  }

  /** Pages follow one another with no gap and no overlap. */
  ghost predicate Contiguous(pages: seq<IteratorRange>)
  {
    forall i :: 0 <= i < |pages| - 1 ==> pages[i].end == pages[i + 1].begin
  }

  lemma PagesContiguous(pages: seq<IteratorRange>, begin: int, end: int, pageSize: int)
    requires pageSize > 0
    requires IsPagination(pages, begin, end, pageSize)
    ensures Contiguous(pages)
  {
    forall i | 0 <= i < |pages| - 1
      ensures pages[i].end == pages[i + 1].begin
    {
      assert (i + 1) * pageSize == i * pageSize + pageSize;
    }
  }

  /** The elements of `c` the pages cover, page after page. */
  ghost function Flatten<T>(c: seq<T>, pages: seq<IteratorRange>): seq<T>
    requires forall i :: 0 <= i < |pages| ==> 0 <= pages[i].begin <= pages[i].end <= |c|
  {
    if pages == [] then []
    else c[pages[0].begin..pages[0].end] + Flatten(c, pages[1..])
  }

  lemma {:induction false} ContiguousSpan(pages: seq<IteratorRange>, j: int)
    requires Contiguous(pages) && 0 <= j < |pages|
    requires forall i :: 0 <= i < |pages| ==> pages[i].begin <= pages[i].end
    ensures pages[0].begin <= pages[j].end
  {
    if j > 0 {
      ContiguousSpan(pages, j - 1);
    }
  }

  lemma {:induction false} FlattenContiguous<T>(c: seq<T>, pages: seq<IteratorRange>)
    requires pages != [] && Contiguous(pages)
    requires forall i :: 0 <= i < |pages| ==> 0 <= pages[i].begin <= pages[i].end <= |c|
    requires pages[0].begin <= pages[|pages| - 1].end
    ensures Flatten(c, pages) == c[pages[0].begin..pages[|pages| - 1].end]
  {
    if |pages| > 1 {
      var rest := pages[1..];
      assert Contiguous(rest) by {
        forall i | 0 <= i < |rest| - 1
          ensures rest[i].end == rest[i + 1].begin
        {
          assert rest[i] == pages[i + 1] && rest[i + 1] == pages[i + 2];
        }
      }
      ContiguousSpan(rest, |rest| - 1);
      FlattenContiguous(c, rest);
      assert c[pages[0].begin..pages[|pages| - 1].end]
          == c[pages[0].begin..pages[0].end] + c[rest[0].begin..rest[|rest| - 1].end];
    }
  }

  /** The pages, read in order, are exactly the paginated elements. */
  lemma PagesCover<T>(c: seq<T>, pages: seq<IteratorRange>, begin: int, end: int, pageSize: int)
    requires pageSize > 0 && 0 <= begin <= end <= |c|
    requires IsPagination(pages, begin, end, pageSize)
    ensures forall i :: 0 <= i < |pages| ==> 0 <= pages[i].begin <= pages[i].end <= |c|
    ensures Flatten(c, pages) == c[begin..end]
  {
    PageSizes(pages, begin, end, pageSize);
    EmptyRangeNoPages(pages, begin, end, pageSize);
    if pages != [] {
      PagesContiguous(pages, begin, end, pageSize);
      FlattenContiguous(c, pages);
      assert pages[0].begin == begin + 0 * pageSize;
    }
  }

  /** `Paginator`: the pages of a range. */
  class Paginator {
    var pages: seq<IteratorRange>
    var numberOfPages: int

    /** `Paginator(begin, end, page_size)`: one page per step, each
        `pageSize` long, the last one cut at `end`. */
    constructor(begin: int, end: int, pageSize: int)
      requires begin <= end && pageSize > 0
      ensures numberOfPages == |pages| == DivUp(end - begin, pageSize)
      ensures IsPagination(pages, begin, end, pageSize)
    {
      var count := DivUp(end - begin, pageSize);
      DivUpIsCeiling(end - begin, pageSize);
      var built: seq<IteratorRange> := [];
      var start := begin;
      for i := 0 to count
        invariant |built| == i
        invariant start == begin + i * pageSize
        invariant forall k :: 0 <= k < i ==> built[k].begin == begin + k * pageSize
        invariant forall k :: 0 <= k < i && k < count - 1 ==>
                    built[k].end == built[k].begin + pageSize && built[k].size == pageSize
        invariant i == count && count > 0 ==>
                    built[count - 1].end == end && built[count - 1].size == end - built[count - 1].begin
      {
        var endRange := start + pageSize;
        if i != count - 1 {
          built := built + [IteratorRange(start, endRange, pageSize)];
          start := start + pageSize;
        } else {
          built := built + [IteratorRange(start, end, end - start)];
          start := start + pageSize;
        }
        assert start == begin + (i + 1) * pageSize;
      }
      pages := built;
      numberOfPages := count;
    }
  }

  /** `Paginate(c, page_size)`: the paginator over the whole of `c`. */
  method Paginate<T>(c: seq<T>, pageSize: int) returns (p: Paginator)
    requires pageSize > 0
    ensures fresh(p)
    ensures IsPagination(p.pages, 0, |c|, pageSize)
    ensures p.numberOfPages == |p.pages|
  {
    p := new Paginator(0, |c|, pageSize);
  }
}

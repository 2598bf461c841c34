/**
 * The pagination both endpoints apply to their result list (main.py:202-208
 * and 228-235): TotalPages is `math.ceil(total / limit)` and the page is the
 * Python slice `data[(page-1)*limit : (page-1)*limit + limit]`.
 */
module Paginator {
  import opened Wrappers

  /** `total / limit` with limit 0 raises ZeroDivisionError. */
  datatype PageError = ZeroDivisionError

  /** The response body: TotalCount, TotalPages and the page itself. */
  datatype Page<T> = Page(totalCount: nat, totalPages: int, items: seq<T>)

  /**
   * `math.ceil(total / limit)`, in integers: for a positive limit, the least
   * r with total <= r * limit; for a negative one, the least r with
   * r * limit <= total.
   */
  function CeilDiv(total: nat, limit: int): (r: int)
    requires limit != 0
    ensures limit > 0 ==> (r - 1) * limit < total <= r * limit
    ensures limit < 0 ==> r * limit <= total < (r - 1) * limit
  {
    if limit > 0 then
      var q := (total + limit - 1) / limit;
      DivisionBounds(total + limit - 1, limit);
      assert (q - 1) * limit == q * limit - limit;
      q
    else
      var m := -limit;
      var f := total / m;
      DivisionBounds(total, m);
      assert (0 - f) * limit == f * m;
      assert (0 - f - 1) * limit == f * m + m;
      0 - f
  }

  /** Euclidean division by a positive divisor. */
  lemma DivisionBounds(n: int, d: int)
    requires d > 0
    ensures (n / d) * d <= n < (n / d) * d + d
  {
  }

  /** For a positive divisor, comparing with a quotient is comparing with a product. */
  lemma QuotientBounds(t: int, l: int, q: int)
    requires l > 0
    requires (q - 1) * l < t <= q * l
    ensures (q - 1) as real < t as real / l as real <= q as real
  {
    var x := t as real / l as real;
    assert x * l as real == t as real;
    assert ((q - 1) * l) as real == (q - 1) as real * l as real;
    assert (q * l) as real == q as real * l as real;
  }

  /** CeilDiv is the ceiling of the true quotient, as math.ceil computes it. */
  lemma CeilDivIsCeiling(total: nat, limit: int)
    requires limit != 0
    ensures var r := CeilDiv(total, limit);
            (r - 1) as real < total as real / limit as real <= r as real
  {
    var r := CeilDiv(total, limit);
    if limit > 0 {
      QuotientBounds(total, limit, r);
    } else {
      var m := -limit;
      assert r * m == 0 - r * limit;
      assert (r - 1) * m == 0 - (r - 1) * limit;
      QuotientBounds(0 - total, m, r);
      assert (0 - total) as real / m as real == total as real / limit as real;
    }
  }

  /** Python's clamping of one slice bound against a sequence of length n. */
  function SliceBound(n: nat, i: int): (b: nat)
    ensures b <= n
    ensures 0 <= i <= n ==> b == i
    ensures i > n ==> b == n
    ensures i < 0 ==> b == Max(0, n + i)
  {
    if i < 0 then (if i + n < 0 then 0 else i + n)
    else if i > n then n
    else i
  }

  /** `s[start:end]` for any integers start and end. */
  function PySlice<T>(s: seq<T>, start: int, end: int): (r: seq<T>)
    ensures |r| <= |s|
    ensures 0 <= start <= end <= |s| ==> r == s[start..end]
    ensures 0 <= end <= start ==> r == []
  {
    var lo, hi := SliceBound(|s|, start), SliceBound(|s|, end);
    if lo < hi then s[lo..hi] else []
  }

  /** The offset of a page: how many items the earlier pages hold. */
  function Offset(page: int, limit: int): int
  {
    (page - 1) * limit
  }

  /** `data[start:end]` with start the page's offset and end one limit further. */
  function PageOf<T>(data: seq<T>, page: int, limit: int): (r: seq<T>)
    ensures |r| <= |data|
    ensures limit > 0 ==> |r| <= limit
  {
    var start := Offset(page, limit);
    PySlice(data, start, start + limit)
  }

  /** The pagination step of the endpoints. */
  function Paginate<T>(data: seq<T>, page: int, limit: int): (r: Result<Page<T>, PageError>)
    ensures r.Failure? <==> limit == 0
    ensures r.Success? ==> r.value.totalCount == |data| && |r.value.items| <= |data|
    ensures r.Success? ==> multiset(r.value.items) <= multiset(data)
  {
    if limit == 0 then Failure(ZeroDivisionError)
    else
      var items := PageOf(data, page, limit);
      assert multiset(items) <= multiset(data) by {
        var start := Offset(page, limit);
        var lo, hi := SliceBound(|data|, start), SliceBound(|data|, start + limit);
        if lo < hi {
          assert data == data[..lo] + items + data[hi..];
        }
      }
      Success(Page(|data|, CeilDiv(|data|, limit), items))
  }

  function Min(a: int, b: int): int { if a < b then a else b }

  function Max(a: int, b: int): int { if a < b then b else a }

  /**
   * For page >= 1 and limit >= 1 the page is the run of at most limit items
   * that starts at the page's offset: max(0, min(limit, total - offset)) of them.
   */
  lemma PageContents<T>(data: seq<T>, page: int, limit: int)
    requires page >= 1 && limit >= 1
    ensures Paginate(data, page, limit).Success?
    ensures var items := Paginate(data, page, limit).value.items;
            && |items| == Max(0, Min(limit, |data| - Offset(page, limit)))
            && forall k :: 0 <= k < |items| ==> items[k] == data[Offset(page, limit) + k]
  {
    var o := Offset(page, limit);
    MulMonotone(0, page - 1, limit);
    ClampedSlice(data, o, o + limit);
  }

  lemma MulMonotone(a: int, b: int, l: int)
    requires a <= b && l >= 0
    ensures a * l <= b * l
  {
  }

  /** TotalPages pages of limit items hold all the data and one page fewer does not. */
  lemma TotalPagesFits<T>(data: seq<T>, page: int, limit: int)
    requires limit >= 1
    ensures var p := Paginate(data, page, limit).value.totalPages;
            (p - 1) * limit < |data| <= p * limit
  {
  }

  /** A page past the last one is empty, not an error. */
  lemma PastLastPageIsEmpty<T>(data: seq<T>, page: int, limit: int)
    requires limit >= 1
    requires page > Paginate(data, page, limit).value.totalPages
    ensures Paginate(data, page, limit).value.items == []
  {
    var p := Paginate(data, page, limit).value.totalPages;
    MulMonotone(p, page - 1, limit);
    assert Offset(page, limit) >= |data|;
  }

  /** A page of positive number is the slice between its offset and the next page's, both clamped to the data. */
  lemma PageSlice<T>(data: seq<T>, page: int, limit: int)
    requires page >= 1 && limit >= 1
    ensures Paginate(data, page, limit).value.items
            == data[Min((page - 1) * limit, |data|)..Min(page * limit, |data|)]
  {
    var start := Offset(page, limit);
    MulMonotone(0, page - 1, limit);
    assert start + limit == page * limit;
    ClampedSlice(data, start, start + limit);
  }

  /** A slice with non-negative bounds is the part of the data between the bounds, clamped to its length. */
  lemma ClampedSlice<T>(s: seq<T>, lo: int, hi: int)
    requires 0 <= lo <= hi
    ensures PySlice(s, lo, hi) == s[Min(lo, |s|)..Min(hi, |s|)]
  {
  }

  /** The pages 1 .. n put one after the other. */
  function FirstPages<T>(data: seq<T>, n: nat, limit: int): seq<T>
    requires limit >= 1
  {
    if n == 0 then [] else FirstPages(data, n - 1, limit) + PageOf(data, n, limit)
  }

  /** Reading pages 1 .. n in turn yields the first n * limit items, in order. */
  lemma {:induction false} FirstPagesArePrefix<T>(data: seq<T>, n: nat, limit: int)
    requires limit >= 1
    ensures FirstPages(data, n, limit) == data[..Min(n * limit, |data|)]
  {
    if n > 0 {
      FirstPagesArePrefix(data, n - 1, limit);
      var a, b := (n - 1) * limit, n * limit;
      ConsecutiveOffsets(n, limit);
      ClampedSlice(data, a, a + limit);
      assert PageOf(data, n, limit) == data[Min(a, |data|)..Min(b, |data|)];
      AppendSlice(data, a, b);
    }
  }

  lemma ConsecutiveOffsets(n: nat, limit: int)
    requires n >= 1 && limit >= 1
    ensures 0 <= (n - 1) * limit <= n * limit
    ensures (n - 1) * limit + limit == n * limit
  {
  }

  lemma AppendSlice<T>(data: seq<T>, a: int, b: int)
    requires 0 <= a <= b
    ensures data[..Min(a, |data|)] + data[Min(a, |data|)..Min(b, |data|)] == data[..Min(b, |data|)]
  {
  }

  /** Reading every page from 1 to TotalPages yields the whole result list, each item once and in order. */
  lemma AllPagesAreTheData<T>(data: seq<T>, limit: int)
    requires limit >= 1
    ensures FirstPages(data, Max(0, Paginate(data, 1, limit).value.totalPages), limit) == data
  {
    TotalPagesFits(data, 1, limit);
    var p := Paginate(data, 1, limit).value.totalPages;
    FirstPagesArePrefix(data, Max(0, p), limit);
    assert Min(Max(0, p) * limit, |data|) == |data|;
  }

  /** 25 results, 10 per page: 3 pages; pages 1 and 3 hold 10 and 5; page 99 holds none. */
  lemma TwentyFiveByTen<T>(data: seq<T>)
    requires |data| == 25
    ensures Paginate(data, 1, 10).value.totalPages == 3
    ensures |Paginate(data, 1, 10).value.items| == 10
    ensures |Paginate(data, 3, 10).value.items| == 5
    ensures Paginate(data, 99, 10).value.items == []
  {
    TotalPagesFits(data, 1, 10);
    PageContents(data, 1, 10);
    PageContents(data, 3, 10);
    PageContents(data, 99, 10);
  }

  /** Page 0 is empty, but a negative page counts back from the end of the list, as Python slices do. */
  lemma NonPositivePages<T>(data: seq<T>, limit: int)
    requires limit >= 1
    ensures Paginate(data, 0, limit).value.items == []
    ensures |data| == 25 && limit == 10 ==> Paginate(data, -1, limit).value.items == data[5..15]
  {
  }
}

/** The page arithmetic of the store's list operation, over an already
    collected sequence of records. */
module Pagination {

  function Min(a: int, b: int): int { if a <= b then a else b }

  /** Offset of the first element of page `page` (pages count from 1). */
  function Start(page: int, pageSize: int): int { (page - 1) * pageSize }

  /** Holds exactly when listing `page` of a sequence of length `n` does not
      panic: either the start lies past the end (the empty page), or the Go
      slice `all[start:end]` has `0 <= start <= end`. */
  predicate InBounds(page: int, pageSize: int, n: nat)
  {
    Start(page, pageSize) > n || (0 <= Start(page, pageSize) && 0 <= pageSize)
  }

  /** Go's slice expression `s[low:high]` on a slice of length and capacity
      `n` succeeds exactly when `0 <= low <= high <= n`. */
  predicate SliceOk(low: int, high: int, n: nat)
  {
    0 <= low <= high <= n
  }

  /** `InBounds` is exactly the condition under which the store's list
      operation does not panic: it returns early when the start lies past
      the end, and otherwise slices from the start to the end clamped to
      `n`. */
  lemma InBoundsIsNoPanic(page: int, pageSize: int, n: nat)
    ensures InBounds(page, pageSize, n) <==>
              (Start(page, pageSize) > n ||
               SliceOk(Start(page, pageSize), Min(Start(page, pageSize) + pageSize, n), n))
  {
  }

  /** Every page numbered from 1 with a non-negative size is in bounds. */
  lemma PositivePageInBounds(page: int, pageSize: int, n: nat)
    requires page >= 1 && pageSize >= 0
    ensures Start(page, pageSize) >= 0 && InBounds(page, pageSize, n)
  {
  }

  /** Page `page` of size `pageSize` of `all`: the window that starts at
      `Start(page, pageSize)`, holds `pageSize` elements, and is cut short by
      the end of `all`. */
  function Page<T>(all: seq<T>, page: int, pageSize: int): (r: seq<T>)
    requires InBounds(page, pageSize, |all|)
    ensures Start(page, pageSize) >= |all| ==> r == []
    ensures Start(page, pageSize) < |all| ==>
              |r| == Min(pageSize, |all| - Start(page, pageSize))
    ensures pageSize >= 0 ==> |r| <= pageSize
    ensures forall i :: 0 <= i < |r| ==> r[i] == all[Start(page, pageSize) + i]
  {
    var start := Start(page, pageSize);
    var end := start + pageSize;
    if start > |all| then []
    else all[start .. if end > |all| then |all| else end]
  }

  /** A page as a slice of `all` between two clamped offsets. */
  lemma PageIsSlice<T>(all: seq<T>, page: int, pageSize: int)
    requires page >= 1 && pageSize >= 0
    ensures InBounds(page, pageSize, |all|)
    ensures Page(all, page, pageSize)
            == all[Min(Start(page, pageSize), |all|) .. Min(Start(page, pageSize) + pageSize, |all|)]
  {
    PositivePageInBounds(page, pageSize, |all|);
  }

  /** Pages 1 to `k` of size `s`, one after the other. */
  function FirstPages<T>(all: seq<T>, k: nat, s: nat): seq<T>
  {
    if k == 0 then []
    else
      PositivePageInBounds(k, s, |all|);
      FirstPages(all, k - 1, s) + Page(all, k, s)
  }

  /** Paging from page 1 onwards reads `all` from its beginning, in order,
      with nothing skipped and nothing repeated. */
  lemma {:induction false} FirstPagesArePrefix<T>(all: seq<T>, k: nat, s: nat)
    ensures FirstPages(all, k, s) == all[..Min(k * s, |all|)]
  {
    if k > 0 {
      FirstPagesArePrefix(all, k - 1, s);
      assert Start(k, s) == (k - 1) * s;
      assert (k - 1) * s + s == k * s;
      PageIsSlice(all, k, s);
    }
  }

  /** Once the pages read reach the end, they hold all of `all`. */
  lemma AllPagesCoverAll<T>(all: seq<T>, k: nat, s: nat)
    requires k * s >= |all|
    ensures FirstPages(all, k, s) == all
  {
    FirstPagesArePrefix(all, k, s);
  }

  /** Pages `p` and `p + 1` of one sequence sit side by side. */
  lemma AdjacentPages<T>(all: seq<T>, p: int, s: int)
    requires p >= 1 && s >= 0
    ensures InBounds(p, s, |all|) && InBounds(p + 1, s, |all|)
    ensures Page(all, p, s) + Page(all, p + 1, s)
            == all[Min(Start(p, s), |all|) .. Min(Start(p, s) + 2 * s, |all|)]
  {
    PageIsSlice(all, p, s);
    PageIsSlice(all, p + 1, s);
    assert Start(p + 1, s) == Start(p, s) + s;
  }

  /** No element occurs twice in `s`. */
  ghost predicate Distinct<T>(s: seq<T>)
  {
    forall i, j :: 0 <= i < j < |s| ==> s[i] != s[j]
  }

  /** Helper: multiplying by a non-negative factor keeps the order. */
  lemma MulMonotone(a: int, b: int, s: int)
    requires a <= b && s >= 0
    ensures a * s <= b * s
  {
  }

  /** Two different pages of a sequence without repetitions share no element. */
  lemma PagesDisjoint<T>(all: seq<T>, p: int, q: int, s: int)
    requires Distinct(all) && 1 <= p < q && s >= 0
    ensures InBounds(p, s, |all|) && InBounds(q, s, |all|)
    ensures forall x :: x in Page(all, p, s) ==> x !in Page(all, q, s)
  {
    PositivePageInBounds(p, s, |all|);
    PositivePageInBounds(q, s, |all|);
    var a, b := Page(all, p, s), Page(all, q, s);
    MulMonotone(p, q - 1, s);
    assert Start(p, s) + s <= Start(q, s);
    forall x | x in a ensures x !in b {
      var i :| 0 <= i < |a| && a[i] == x;
      forall j | 0 <= j < |b| ensures b[j] != x {
        assert Start(p, s) + i < Start(q, s) + j;
      }
    }
  }
}

/** The `page`/`limit` convention shared by the listing handlers: defaults,
    the number of records skipped, the page count, and the page of an
    already ordered result that the database returns. */
module Pagination {
  import opened Basics

  const DefaultPage := 1
  const DefaultLimit := 10

  /** The pagination block of a listing response. */
  datatype PageInfo = PageInfo(total: nat, page: int, limit: int, pages: nat)

  /** Records skipped before the requested page: `(page - 1) * limit`. */
  function Skip(page: int, limit: int): (skip: int)
    requires limit > 0
    ensures page >= 1 ==> skip >= 0 && skip % limit == 0 && skip / limit == page - 1
    ensures page < 1 ==> skip < 0
  {
    if page >= 1 then
      MultiplyMonotone(0, page - 1, limit);
      DivModUnique((page - 1) * limit, limit, page - 1, 0);
      (page - 1) * limit
    else
      MultiplyMonotone(page - 1, -1, limit);
      (page - 1) * limit
  }

  /** `Math.ceil(total / limit)`: the least page count whose pages hold every record. */
  function Pages(total: nat, limit: int): (pages: nat)
    requires limit > 0
    ensures pages * limit >= total
    ensures total > 0 ==> (pages - 1) * limit < total
    ensures total == 0 ==> pages == 0
  {
    var q := total / limit;
    assert total == q * limit + total % limit;
    if total % limit == 0 then q else q + 1
  }

  /** The pagination block for `total` matching records, with the query's
      `page` and `limit` defaulted to 1 and 10 when absent. */
  function Info(total: nat, page: Option<int>, limit: Option<int>): (info: PageInfo)
    requires limit.GetOr(DefaultLimit) > 0
    ensures info.page == (if page.Some? then page.value else 1)
    ensures info.limit == (if limit.Some? then limit.value else 10)
    ensures info.total == total
    ensures info.pages * info.limit >= total && (total > 0 ==> (info.pages - 1) * info.limit < total)
    ensures total == 0 ==> info.pages == 0
  {
    var l := limit.GetOr(DefaultLimit);
    PageInfo(total, page.GetOr(DefaultPage), l, Pages(total, l))
  }

  /** `.skip((page - 1) * limit).limit(limit)` over an ordered result: the
      database applies the skip before the limit and refuses a negative skip
      (the handler then answers 500, modelled as `None`). */
  function PageOf<T>(s: seq<T>, page: int, limit: int): (r: Option<seq<T>>)
    requires limit > 0
    ensures r.None? <==> page < 1
    ensures r.Some? ==> |r.value| <= limit
    ensures r.Some? ==> forall k :: 0 <= k < |r.value| ==> Skip(page, limit) + k < |s| && r.value[k] == s[Skip(page, limit) + k]
    ensures r.Some? && Skip(page, limit) + limit <= |s| ==> |r.value| == limit
    ensures r.Some? && Skip(page, limit) < |s| ==> r.value != []
  {
    var skip := Skip(page, limit);
    if skip < 0 then None
    else if skip >= |s| then Some([])
    else Some(s[skip..Min(skip + limit, |s|)])
  }

  /** Every record of an ordered result appears on page `k / limit + 1`,
      which is one of the reported pages, at position `k % limit`. */
  lemma ItemOnItsPage<T>(s: seq<T>, limit: int, k: int)
    requires limit > 0 && 0 <= k < |s|
    ensures 1 <= k / limit + 1 <= Pages(|s|, limit)
    ensures var page := PageOf(s, k / limit + 1, limit);
      page.Some? && k % limit < |page.value| && page.value[k % limit] == s[k]
  {
    var p := k / limit + 1;
    assert k == (k / limit) * limit + k % limit;
    assert Skip(p, limit) == k - k % limit;
    var n := Pages(|s|, limit);
    if p > n {
      assert (k / limit) * limit >= n * limit by {
        MultiplyMonotone(n, k / limit, limit);
      }
      assert false;
    }
  }

  /** No record is shown on two pages: a record's page and position are determined by its index. */
  lemma PagePositionUnique(limit: int, page: int, j: int, k: int)
    requires limit > 0 && page >= 1 && 0 <= j < limit
    requires Skip(page, limit) + j == k
    ensures page == k / limit + 1 && j == k % limit
  {
    MultiplyMonotone(0, page - 1, limit);
    DivModUnique(k, limit, page - 1, j);
  }

  lemma MultiplyMonotone(a: int, b: int, c: int)
    requires a <= b && c > 0
    ensures a * c <= b * c
  {
    assert b * c - a * c == (b - a) * c;
  }

  /** Euclidean division has one quotient and one remainder. */
  lemma DivModUnique(x: int, d: int, q: int, r: int)
    requires d > 0 && 0 <= r < d && x == q * d + r
    ensures x / d == q && x % d == r
  {
    var q0, r0 := x / d, x % d;
    assert x == q0 * d + r0;
    assert (q - q0) * d == r0 - r;
    if q > q0 {
      MultiplyMonotone(1, q - q0, d);
    } else if q < q0 {
      MultiplyMonotone(1, q0 - q, d);
    }
  }
}

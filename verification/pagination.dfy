/** The page/limit arithmetic of the backend: the pagination middleware,
    which clamps a parsed query string, and the clamping the list services
    (`getSensors`, `getSensorHistory`, `getAlertHistory`) repeat. A parsed
    integer is `None` where `parseInt` yields NaN. */
module Pagination {
  import opened Wrappers

  datatype PageQuery = PageQuery(page: int, limit: int, skip: int)

  /** `v || d` on a number: 0 and NaN are falsy. */
  function OrNumber(v: Option<int>, d: int): (r: int)
    ensures v.Some? && v.value != 0 ==> r == v.value
    ensures v.None? || v.value == 0 ==> r == d
  {
    if v.Some? && v.value != 0 then v.value else d
  }

  function Max(a: int, b: int): (m: int)
    ensures m >= a && m >= b && (m == a || m == b)
  {
    if a >= b then a else b
  }

  function Min(a: int, b: int): (m: int)
    ensures m <= a && m <= b && (m == a || m == b)
  {
    if a <= b then a else b
  }

  /** `paginationMiddleware`: `page = max(1, parseInt(page) || 1)`,
      `limit = min(100, max(1, parseInt(limit) || 50))`,
      `skip = (page - 1) * limit`. */
  function Middleware(page: Option<int>, limit: Option<int>): (q: PageQuery)
    ensures q.page >= 1 && 1 <= q.limit <= 100
    ensures q.skip >= 0 && q.skip % q.limit == 0 && q.skip / q.limit == q.page - 1
    ensures page.None? || page.value <= 0 ==> q.page == 1
    ensures page.Some? && page.value >= 1 ==> q.page == page.value
    ensures limit.None? || limit.value == 0 ==> q.limit == 50
    ensures limit.Some? && limit.value > 100 ==> q.limit == 100
    ensures limit.Some? && limit.value < 0 ==> q.limit == 1
    ensures limit.Some? && 1 <= limit.value <= 100 ==> q.limit == limit.value
  {
    var p := Max(1, OrNumber(page, 1));
    var l := Min(100, Max(1, OrNumber(limit, 50)));
    PageQuery(p, l, SkipOf(p, l))
  }

  /** `(page - 1) * limit`: the number of rows on the earlier pages. */
  function SkipOf(page: int, limit: int): (skip: int)
    requires page >= 1 && limit >= 1
    ensures skip >= 0 && skip % limit == 0 && skip / limit == page - 1
  {
    LemmaMulDiv(page - 1, limit);
    (page - 1) * limit
  }

  lemma LemmaMulDiv(a: nat, b: int)
    requires b >= 1
    ensures (a * b) % b == 0 && (a * b) / b == a
  {
    var q := (a * b) / b;
    var r := (a * b) % b;
    assert (a - q) * b == r by {
      assert a * b == q * b + r;
      assert (a - q) * b == a * b - q * b;
    }
    if a - q >= 1 {
      MulAtLeast(a - q, b);
    } else if a - q <= -1 {
      MulAtLeast(q - a, b);
    }
  }

  lemma MulAtLeast(x: int, b: int)
    requires x >= 1 && b >= 1
    ensures x * b >= b
  {
    assert x * b == (x - 1) * b + b;
  }

  /** The services' clamp: `max(1, page || 1)` and `min(100, limit || 50)`.
      The routes pass only values parsed from all-digit strings, so both are
      non-negative when present. */
  function ServiceQuery(page: Option<nat>, limit: Option<nat>): (q: PageQuery)
    ensures q.page >= 1 && 1 <= q.limit <= 100
    ensures q.skip == (q.page - 1) * q.limit
    ensures page.None? || page.value == 0 ==> q.page == 1
    ensures page.Some? && page.value >= 1 ==> q.page == page.value
    ensures limit.None? || limit.value == 0 ==> q.limit == 50
    ensures limit.Some? && 1 <= limit.value <= 100 ==> q.limit == limit.value
    ensures limit.Some? && limit.value > 100 ==> q.limit == 100
  {
    var p := Max(1, if page.Some? && page.value != 0 then page.value else 1);
    var l := Min(100, if limit.Some? && limit.value != 0 then limit.value else 50);
    PageQuery(p, l, SkipOf(p, l))
  }

  /** On inputs the routes let through, the middleware and the services
      compute the same window. */
  lemma MiddlewareAgreesWithServices(page: Option<nat>, limit: Option<nat>)
    ensures var m := Middleware(if page.Some? then Some(page.value as int) else None,
                                if limit.Some? then Some(limit.value as int) else None);
      m == ServiceQuery(page, limit)
  {
  }
}

/** Division by a frame width that is only known to be positive. */
module Arith {

  lemma MultipleSize(k: int, w: int)
    requires w > 0
    ensures k >= 1 ==> k * w >= w
    ensures k <= -1 ==> k * w <= -w
  {
  }

  /** Quotient and remainder are determined by what they add up to. */
  lemma DivModUnique(x: int, q: int, r: int, w: int)
    requires w > 0 && x == q * w + r && 0 <= r < w
    ensures x / w == q && x % w == r
  {
    var k := x / w - q;
    assert x == x / w * w + x % w;
    assert k * w == x / w * w - q * w;
    MultipleSize(k, w);
  }

  /** The bytes of the whole frames among n. */
  function Whole(n: nat, w: nat): (k: nat)
    requires w > 0
    ensures k <= n && n - k < w
  {
    n - n % w
  }

  lemma WholeIsMultiple(n: nat, w: nat)
    requires w > 0
    ensures Whole(n, w) % w == 0 && Whole(n, w) / w == n / w && Whole(n, w) == n / w * w
  {
    assert n == n / w * w + n % w;
    DivModUnique(Whole(n, w), n / w, 0, w);
  }

  /** Whole frames ahead of n bytes stay whole. */
  lemma WholeShift(a: nat, n: nat, w: nat)
    requires w > 0 && a % w == 0
    ensures Whole(a + n, w) == a + Whole(n, w) && (a + n) % w == n % w
  {
    assert a == a / w * w + a % w && n == n / w * w + n % w;
    assert a + n == (a / w + n / w) * w + n % w;
    DivModUnique(a + n, a / w + n / w, n % w, w);
  }

  lemma WholeOfMultiple(a: nat, w: nat)
    requires w > 0 && a % w == 0
    ensures Whole(a, w) == a
  {
  }

  lemma ProductDiv(q: nat, w: nat)
    requires w > 0
    ensures q * w / w == q && q * w % w == 0
  {
    DivModUnique(q * w, q, 0, w);
  }

  lemma DivTimes(a: nat, w: nat)
    requires w > 0 && a % w == 0
    ensures a / w * w == a
  {
  }

  /** The guard that divides instead of multiplying. */
  lemma ProductGuard(n: nat, w: nat, limit: nat)
    requires w > 0
    ensures n <= limit / w <==> n * w <= limit
  {
    assert limit == limit / w * w + limit % w;
    if n <= limit / w {
      assert n * w <= limit / w * w;
    } else {
      assert n * w >= (limit / w + 1) * w;
    }
  }

  lemma QuotientMonotone(a: nat, b: nat, w: nat)
    requires w > 0 && a <= b
    ensures a / w <= b / w
  {
    assert a == a / w * w + a % w;
    ProductGuard(a / w, w, b);
  }

  function Min(a: int, b: int): int {
    if a < b then a else b
  }

  lemma ProductMonotone(a: int, b: int, w: nat)
    requires a <= b
    ensures a * w <= b * w
  {
  }

  lemma WholeMonotone(a: nat, b: nat, w: nat)
    requires w > 0 && a <= b
    ensures Whole(a, w) <= Whole(b, w)
  {
    WholeIsMultiple(a, w);
    WholeIsMultiple(b, w);
    QuotientMonotone(a, b, w);
    ProductMonotone(a / w, b / w, w);
  }

  lemma SmallWhole(n: nat, w: nat)
    requires n < w
    ensures Whole(n, w) == 0
  {
  }

  lemma WholeAbove(n: nat, w: nat)
    requires w > 0 && n >= w
    ensures Whole(n, w) >= w
  {
    WholeMonotone(w, n, w);
    WholeShift(w, 0, w);
  }

  /** One multiple less is one quotient less. */
  lemma OneLess(n: nat, w: nat)
    requires w > 0 && n >= w
    ensures (n - w) / w == n / w - 1 && (n - w) % w == n % w
  {
    assert n == n / w * w + n % w;
    assert n - w == (n / w - 1) * w + n % w;
    DivModUnique(n - w, n / w - 1, n % w, w);
  }

  /** A multiple that is at most one. */
  lemma AtMostOne(n: nat, w: nat)
    requires w > 0 && n % w == 0 && n / w <= 1
    ensures n == 0 || n == w
  {
    DivTimes(n, w);
    if n / w == 0 {
    } else {
      assert n / w == 1;
    }
  }
}

/** Addresses rounded to pages, for any page size. */
module Pages {
  import opened Common

  ghost predicate IsPageSize(pageSize: nat) {
    pageSize > 0 && TWO_64 % pageSize == 0
  }

  predicate OnPage(x: int, pageSize: nat)
    requires pageSize > 0
  {
    x % pageSize == 0
  }

  /** x with the bits below the page size cleared. */
  function PageStart(x: nat, pageSize: nat): nat
    requires pageSize > 0
  {
    x - x % pageSize
  }

  lemma PageBounds(x: nat, pageSize: nat)
    requires pageSize > 0
    ensures PageStart(x, pageSize) <= x < PageStart(x, pageSize) + pageSize
    ensures PageStart(x, pageSize) % pageSize == 0
  {
    RemainderOfSum(x / pageSize, 0, pageSize);
    assert PageStart(x, pageSize) == (x / pageSize) * pageSize;
  }

  lemma ProductAtLeast(e: int, n: nat)
    requires e >= 1
    ensures e * n >= n
  {
    assert (e - 1) * n >= 0;
    assert e * n == (e - 1) * n + n;
  }

  lemma SmallMultipleIsZero(e: int, n: nat, c: int)
    requires e * n == c && 0 - n < c < n
    ensures c == 0
  {
    if e >= 1 { ProductAtLeast(e, n); }
    if e <= -1 { ProductAtLeast(-e, n); }
  }

  lemma Distribute(k: int, q: int, n: int)
    ensures (k - q) * n == k * n - q * n
  {
  }

  lemma RemainderOfSum(k: int, d: nat, pageSize: nat)
    requires d < pageSize
    ensures (k * pageSize + d) % pageSize == d
  {
    var x := k * pageSize + d;
    var q, remainder := x / pageSize, x % pageSize;
    assert x == q * pageSize + remainder;
    Distribute(k, q, pageSize);
    SmallMultipleIsZero(k - q, pageSize, remainder - d);
  }

  lemma PageOf(p: nat, x: nat, pageSize: nat)
    requires pageSize > 0 && p % pageSize == 0 && p <= x < p + pageSize
    ensures PageStart(x, pageSize) == p
  {
    RemainderOfSum(p / pageSize, x - p, pageSize);
  }

  lemma ExactQuotient(a: int, pageSize: nat)
    requires pageSize > 0 && a % pageSize == 0
    ensures a == (a / pageSize) * pageSize
  {
  }

  lemma SumOfMultiples(k: int, q: int, pageSize: nat)
    requires pageSize > 0
    ensures (k * pageSize + q * pageSize) % pageSize == 0
  {
    Distribute(k, -q, pageSize);
    assert (-q) * pageSize == -(q * pageSize);
    RemainderOfSum(k + q, 0, pageSize);
  }

  lemma MultiplesAdd(a: int, b: int, pageSize: nat)
    requires pageSize > 0 && a % pageSize == 0 && b % pageSize == 0
    ensures (a + b) % pageSize == 0
  {
    ExactQuotient(a, pageSize);
    ExactQuotient(b, pageSize);
    SumOfMultiples(a / pageSize, b / pageSize, pageSize);
  }

  lemma PagesApart(a: nat, b: nat, pageSize: nat)
    requires pageSize > 0 && a % pageSize == 0 && b % pageSize == 0 && a < b
    ensures a + pageSize <= b
  {
    if b < a + pageSize {
      PageOf(a, b, pageSize);
    }
  }

  lemma NextPage(x: Word, pageSize: nat)
    requires IsPageSize(pageSize)
    ensures var stop := PageStart(x, pageSize) + pageSize;
      x < stop <= TWO_64 && OnPage(stop, pageSize)
  {
    PageBounds(x, pageSize);
    PagesApart(PageStart(x, pageSize), TWO_64, pageSize);
    RemainderOfSum(1, 0, pageSize);
    MultiplesAdd(PageStart(x, pageSize), pageSize, pageSize);
  }
}
